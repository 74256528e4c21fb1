/** Whether a trigger's tick fires a run. */
module FireDecision {
  import opened Options
  import opened Text

  datatype OverlapPolicy = Skip | Allow

  datatype GuardResult =
    | Pass(stdout: string)
    | SkipGuard(stdout: string, stderr: string, exitCode: Option<int>)
    | ErrorGuard(detail: string)

  datatype FireInputs = FireInputs(
    enabled: bool, due: bool, overlap: OverlapPolicy, liveRunCount: nat, maxConcurrent: Option<nat>,
    guard: Option<GuardResult>, inputTemplate: string, promptRequired: bool)

  datatype SkipReason =
    | OverlapPreviousRunLive
    | OverlapMaxConcurrentReached(live: nat, max: nat)
    | GuardExitNonZero(stdout: string, stderr: string, exitCode: Option<int>)
    | GuardError(detail: string)

  datatype FireDecision = Fire(input: string) | SkipTick(reason: Option<SkipReason>) | Reject

  /** The most live runs a tick may add to; none when unbounded. */
  function OverlapCeiling(overlap: OverlapPolicy, maxConcurrent: Option<nat>): (ceiling: Option<nat>)
    ensures ceiling.Some? ==> ceiling.value >= 1
  {
    match overlap
    case Skip => Some(1)
    case Allow =>
      if maxConcurrent.None? then None else Some(if maxConcurrent.value < 1 then 1 else maxConcurrent.value)
  }

  predicate SaysNothing(s: string) {
    Trim(s) == ""
  }

  function ResolveInput(guardStdout: Option<string>, template: string): string {
    if guardStdout.Some? && !SaysNothing(guardStdout.value) then guardStdout.value else template
  }

  function Decide(inputs: FireInputs): FireDecision {
    if !inputs.enabled || !inputs.due then SkipTick(None)
    else
      var ceiling := OverlapCeiling(inputs.overlap, inputs.maxConcurrent);
      if ceiling.Some? && inputs.liveRunCount >= ceiling.value then
        SkipTick(Some(if inputs.overlap.Skip? then OverlapPreviousRunLive
                      else OverlapMaxConcurrentReached(inputs.liveRunCount, ceiling.value)))
      else
        match inputs.guard
        case Some(SkipGuard(out, err, code)) => SkipTick(Some(GuardExitNonZero(out, err, code)))
        case Some(ErrorGuard(detail)) => SkipTick(Some(GuardError(detail)))
        case Some(Pass(out)) => DecideInput(ResolveInput(Some(out), inputs.inputTemplate), inputs.promptRequired)
        case None => DecideInput(ResolveInput(None, inputs.inputTemplate), inputs.promptRequired)
  }

  function DecideInput(input: string, promptRequired: bool): FireDecision {
    if SaysNothing(input) && promptRequired then Reject else Fire(input)
  }

  /** Room for one more live run. */
  predicate HasRoom(inputs: FireInputs) {
    var ceiling := OverlapCeiling(inputs.overlap, inputs.maxConcurrent);
    ceiling.Some? ==> inputs.liveRunCount < ceiling.value
  }

  /** A tick fires exactly when it is enabled and due, there is room, the guard did
      not stop it, and a required prompt is not blank; the input is the guard's
      output, or the template when there is none worth the name. */
  lemma FiresIff(inputs: FireInputs)
    ensures Decide(inputs).Fire? <==>
              && inputs.enabled && inputs.due && HasRoom(inputs)
              && (inputs.guard.Some? ==> inputs.guard.value.Pass?)
              && (inputs.promptRequired ==>
                    !SaysNothing(inputs.inputTemplate)
                    || (inputs.guard.Some? && !SaysNothing(inputs.guard.value.stdout)))
    ensures Decide(inputs).Fire? ==>
              Decide(inputs).input
              == if inputs.guard.Some? && !SaysNothing(inputs.guard.value.stdout) then inputs.guard.value.stdout
                 else inputs.inputTemplate
  {
  }

  /** A ceiling that allows at least as many live runs. */
  predicate NoLower(a: Option<nat>, b: Option<nat>) {
    a.None? || (b.Some? && b.value <= a.value)
  }

  /** A tick that fires still fires, on the same input, with fewer runs live and under
      any policy that is no stricter. */
  lemma MoreRoomStillFires(inputs: FireInputs, live: nat, overlap: OverlapPolicy, max: Option<nat>)
    requires Decide(inputs).Fire? && live <= inputs.liveRunCount
    requires NoLower(OverlapCeiling(overlap, max), OverlapCeiling(inputs.overlap, inputs.maxConcurrent))
    ensures Decide(inputs.(liveRunCount := live, overlap := overlap, maxConcurrent := max)) == Decide(inputs)
  {
  }

  /** Room as the policy and the count give it. */
  ghost predicate MayAdd(overlap: OverlapPolicy, max: Option<nat>, live: nat) {
    match (overlap, max)
    case (Skip, _) => live == 0
    case (Allow, None) => true
    case (Allow, Some(m)) => live < m || live == 0
  }

  /** The prompt a tick would fire with: what the guard printed, unless that is blank. */
  ghost predicate IsPrompt(inputs: FireInputs, prompt: string) {
    match inputs.guard
    case Some(Pass(out)) => if IsBlank(out) then prompt == inputs.inputTemplate else prompt == out
    case None => prompt == inputs.inputTemplate
    case _ => false
  }

  /** Every verdict and when it is given. A tick that is off or not due passes in silence;
      one without room, or stopped by its guard, is skipped for a recorded reason; one
      that lacks a required prompt is refused; any other fires. */
  lemma VerdictIff(inputs: FireInputs, prompt: string)
    ensures Decide(inputs) == SkipTick(None) <==> !inputs.enabled || !inputs.due
    ensures inputs.enabled && inputs.due ==>
              (Decide(inputs).SkipTick?
               <==> || !MayAdd(inputs.overlap, inputs.maxConcurrent, inputs.liveRunCount)
                    || (inputs.guard.Some? && !inputs.guard.value.Pass?))
    ensures inputs.enabled && inputs.due && MayAdd(inputs.overlap, inputs.maxConcurrent, inputs.liveRunCount)
            && IsPrompt(inputs, prompt) ==>
              Decide(inputs) == if inputs.promptRequired && IsBlank(prompt) then Reject else Fire(prompt)
  {
    hide Trim, IsBlank;
    TrimsToNothing(inputs.inputTemplate);
    if inputs.guard.Some? && inputs.guard.value.Pass? {
      TrimsToNothing(inputs.guard.value.stdout);
    }
  }

  /** A recorded skip names its cause: an overlap names the limit that decides which live
      counts have room, and a guard's verdict is repeated, without which the tick would
      not have been skipped. */
  lemma SkipNamesCause(inputs: FireInputs)
    requires Decide(inputs).SkipTick? && Decide(inputs).reason.Some?
    ensures match Decide(inputs).reason.value
            case OverlapPreviousRunLive =>
              inputs.overlap.Skip? && forall n: nat :: HasRoom(inputs.(liveRunCount := n)) <==> n == 0
            case OverlapMaxConcurrentReached(live, max) =>
              && inputs.overlap.Allow? && live == inputs.liveRunCount
              && forall n: nat :: HasRoom(inputs.(liveRunCount := n)) <==> n < max
            case GuardExitNonZero(out, err, code) =>
              inputs.guard == Some(SkipGuard(out, err, code)) && !Decide(inputs.(guard := None)).SkipTick?
            case GuardError(detail) =>
              inputs.guard == Some(ErrorGuard(detail)) && !Decide(inputs.(guard := None)).SkipTick?
  {
  }

  // ---------------------------------------------------------------------------
  // The trigger over time

  /** One tick with everything but the policy and the live count open, the end of one
      of the trigger's runs, or an edit of its policy. */
  datatype Event =
    | Tick(enabled: bool, due: bool, guard: Option<GuardResult>, template: string, promptRequired: bool)
    | RunEnds
    | Edit(overlap: OverlapPolicy, maxConcurrent: Option<nat>)

  datatype Trigger = Trigger(live: nat, overlap: OverlapPolicy, maxConcurrent: Option<nat>)
  {
    function Ceiling(): Option<nat> {
      OverlapCeiling(overlap, maxConcurrent)
    }

    function InputsOf(e: Event): FireInputs
      requires e.Tick?
    {
      FireInputs(e.enabled, e.due, overlap, live, maxConcurrent, e.guard, e.template, e.promptRequired)
    }

    predicate Fires(e: Event) {
      e.Tick? && Decide(InputsOf(e)).Fire?
    }

    function Next(e: Event): Trigger {
      match e
      case RunEnds => this.(live := if live > 0 then live - 1 else 0)
      case Edit(overlap, max) => this.(overlap := overlap, maxConcurrent := max)
      case Tick(_, _, _, _, _) => if Fires(e) then this.(live := live + 1) else this
    }
  }

  function After(t: Trigger, events: seq<Event>): Trigger {
    if events == [] then t else After(t, events[..|events| - 1]).Next(events[|events| - 1])
  }

  lemma AfterPrefix(t: Trigger, events: seq<Event>, n: nat, m: nat)
    requires n <= m <= |events|
    ensures After(t, events[..m][..n]) == After(t, events[..n])
  {
    assert events[..m][..n] == events[..n];
  }

  ghost function Ends(events: seq<Event>): nat {
    if events == [] then 0
    else Ends(events[..|events| - 1]) + if events[|events| - 1].RunEnds? then 1 else 0
  }

  /** Whatever the edits, the ceiling in force at each event is at most `c`. */
  ghost predicate CeilingsWithin(t: Trigger, events: seq<Event>, c: nat) {
    forall n :: 0 <= n < |events| ==> NoLower(Some(c), After(t, events[..n]).Ceiling())
  }

  /** While every ceiling in force is at most `c`, a trigger within `c` stays within it,
      and one above it never rises: each run that ends brings it one closer. */
  lemma {:induction false} DrainsToCeiling(t: Trigger, events: seq<Event>, c: nat)
    requires CeilingsWithin(t, events, c)
    ensures var live := After(t, events).live;
            live <= c || live <= t.live - Ends(events)
  {
    if events != [] {
      var k := |events| - 1;
      forall n | 0 <= n < k
        ensures NoLower(Some(c), After(t, events[..k][..n]).Ceiling())
      {
        AfterPrefix(t, events, n, k);
      }
      DrainsToCeiling(t, events[..k], c);
    }
  }

  lemma {:induction false} NoEditKeepsPolicy(t: Trigger, events: seq<Event>, n: nat)
    requires n <= |events| && forall i :: 0 <= i < |events| ==> !events[i].Edit?
    ensures After(t, events[..n]).Ceiling() == t.Ceiling()
  {
    if n > 0 {
      assert events[..n][..n - 1] == events[..n - 1];
      NoEditKeepsPolicy(t, events, n - 1);
    }
  }

  /** Between edits a bounded trigger never has more live runs than its ceiling, or than
      it had when the ceiling was set. */
  lemma LiveWithinCeiling(t: Trigger, events: seq<Event>)
    requires t.Ceiling().Some? && forall i :: 0 <= i < |events| ==> !events[i].Edit?
    ensures After(t, events).live <= t.Ceiling().value || After(t, events).live <= t.live
    ensures t.live == 0 ==> After(t, events).live <= t.Ceiling().value
  {
    forall n | 0 <= n < |events|
      ensures After(t, events[..n]).Ceiling() == t.Ceiling()
    {
      NoEditKeepsPolicy(t, events, n);
    }
    DrainsToCeiling(t, events, t.Ceiling().value);
  }

  /** The count of live runs rises only through a tick that found room under the ceiling
      then in force. */
  lemma {:induction false} RiseNeedsRoom(t: Trigger, events: seq<Event>)
    requires After(t, events).live > t.live
    ensures exists n :: 0 <= n < |events| && After(t, events[..n]).Fires(events[n])
                        && HasRoom(After(t, events[..n]).InputsOf(events[n]))
  {
    var k := |events| - 1;
    if After(t, events[..k]).live > t.live {
      RiseNeedsRoom(t, events[..k]);
      var n :| 0 <= n < k && After(t, events[..k][..n]).Fires(events[..k][n])
               && HasRoom(After(t, events[..k][..n]).InputsOf(events[..k][n]));
      AfterPrefix(t, events, n, k);
      assert After(t, events[..n]).Fires(events[n]);
    } else {
      assert After(t, events[..k]).Fires(events[k]);
    }
  }

  /** A tick that is enabled, due and without a guard, on a pipeline that needs no prompt. */
  const OPEN_TICK := Tick(true, true, None, "", false)

  /** The ceiling is reached: with nothing ending, `n` open ticks leave as many live
      runs as the policy allows, up to `n`. */
  lemma {:induction false} CeilingIsReached(n: nat, overlap: OverlapPolicy, max: Option<nat>)
    ensures After(Trigger(0, overlap, max), seq(n, _ => OPEN_TICK))
            == Trigger(
                 if overlap.Skip? then (if n < 1 then n else 1)
                 else if max.None? then n
                 else if max.value == 0 then (if n < 1 then n else 1)
                 else if n < max.value then n else max.value,
                 overlap, max)
  {
    if n > 0 {
      var ticks := seq(n, _ => OPEN_TICK);
      assert ticks[..n - 1] == seq(n - 1, _ => OPEN_TICK);
      CeilingIsReached(n - 1, overlap, max);
    }
  }
}
