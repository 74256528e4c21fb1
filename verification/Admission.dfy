/** The global cap on concurrent node sessions. */
module Admission {
  import opened Options
  import opened Status

  datatype NodeSlot = NodeSlot(status: NodeStatus, iter: int)

  datatype Run = Run(runId: string, status: RunStatus, nodes: map<string, NodeSlot>)

  /** The one slot a spawn takes back, named by run, node and iteration. */
  datatype SlotExclusion = SlotExclusion(runId: string, nodeId: string, iter: int)

  predicate CanAdmit(liveSessions: nat, cap: nat) {
    liveSessions < cap
  }

  predicate IsSelf(x: Option<SlotExclusion>, runId: string, nodeId: string, iter: int) {
    x.Some? && x.value.runId == runId && x.value.nodeId == nodeId && x.value.iter == iter
  }

  /** The nodes of a run that hold a session and are not the excluded slot. */
  function Held(run: Run, x: Option<SlotExclusion>): set<string> {
    set id | id in run.nodes && run.nodes[id].status.HoldsSession()
             && !IsSelf(x, run.runId, id, run.nodes[id].iter)
  }

  ghost function LiveIn(run: Run, x: Option<SlotExclusion>): nat {
    if run.status.IsLive() then |Held(run, x)| else 0
  }

  ghost function LiveCount(runs: seq<Run>, x: Option<SlotExclusion>): nat {
    if runs == [] then 0 else LiveCount(runs[..|runs| - 1], x) + LiveIn(runs[|runs| - 1], x)
  }

  /** The inner loop: one run's nodes, in no particular order. */
  method CountHeld(run: Run, exclude: Option<SlotExclusion>) returns (live: nat)
    ensures live == |Held(run, exclude)|
  {
    live := 0;
    var left := run.nodes.Keys;
    ghost var held := Held(run, exclude);
    assert held - left == {};
    while left != {}
      invariant left <= run.nodes.Keys
      invariant live == |held - left|
      decreases |left|
    {
      var id :| id in left;
      var node := run.nodes[id];
      var counts := node.status.HoldsSession() && !IsSelf(exclude, run.runId, id, node.iter);
      assert counts == (id in held);
      OneVisited(held, left, id);
      left := left - {id};
      if counts {
        live := live + 1;
      }
    }
    assert held - {} == held;
  }

  lemma OneVisited(held: set<string>, left: set<string>, id: string)
    requires id in left
    ensures |held - (left - {id})| == |held - left| + if id in held then 1 else 0
  {
    if id in held {
      assert held - (left - {id}) == (held - left) + {id};
    } else {
      assert held - (left - {id}) == held - left;
    }
  }

  method CountLiveNodeSessionsExcluding(runs: seq<Run>, exclude: Option<SlotExclusion>) returns (live: nat)
    ensures live == LiveCount(runs, exclude)
  {
    live := 0;
    for i := 0 to |runs|
      invariant live == LiveCount(runs[..i], exclude)
    {
      var run := runs[i];
      assert runs[..i + 1][..i] == runs[..i];
      if !run.status.IsLive() {
        continue;
      }
      var held := CountHeld(run, exclude);
      live := live + held;
    }
    assert runs[..|runs|] == runs;
  }

  /** What one node contributes: in a run that is running, awaiting its user or paused,
      a node that is running or awaiting its user takes one slot, any other none. */
  lemma NodeTakesSlot(runs: seq<Run>, r: nat, id: string, slot: NodeSlot)
    requires r < |runs| && id !in runs[r].nodes
    ensures LiveCount(runs[r := runs[r].(nodes := runs[r].nodes[id := slot])], None)
            == LiveCount(runs, None)
               + if runs[r].status in {Running, AwaitingUser, Paused} && slot.status in {NodeRunning, NodeAwaitingUser}
                 then 1 else 0
  {
    var run' := runs[r].(nodes := runs[r].nodes[id := slot]);
    CountAfterUpdate(runs, r, run');
    assert Held(run', None) == Held(runs[r], None) + if slot.status.HoldsSession() then {id} else {};
  }

  /** Runs without nodes take no slot at all. */
  lemma {:induction false} NoNodesNoSlots(runs: seq<Run>)
    requires forall i :: 0 <= i < |runs| ==> runs[i].nodes == map[]
    ensures LiveCount(runs, None) == 0
  {
    if runs != [] {
      NoNodesNoSlots(runs[..|runs| - 1]);
      assert Held(runs[|runs| - 1], None) == {};
    }
  }

  // ---------------------------------------------------------------------------
  // The exclusion

  ghost predicate UniqueRunIds(runs: seq<Run>) {
    forall i, j :: 0 <= i < j < |runs| ==> runs[i].runId != runs[j].runId
  }

  /** The named slot is held by a live run right now. */
  ghost predicate IsHeld(runs: seq<Run>, x: SlotExclusion) {
    exists i :: 0 <= i < |runs| && HeldIn(runs[i], x)
  }

  ghost predicate HeldIn(run: Run, x: SlotExclusion) {
    && run.runId == x.runId && run.status.IsLive() && x.nodeId in run.nodes
    && run.nodes[x.nodeId].status.HoldsSession() && run.nodes[x.nodeId].iter == x.iter
  }

  lemma LiveInExcluding(run: Run, x: SlotExclusion)
    ensures LiveIn(run, None) == LiveIn(run, Some(x)) + if HeldIn(run, x) then 1 else 0
  {
    if HeldIn(run, x) {
      assert Held(run, None) == Held(run, Some(x)) + {x.nodeId};
    } else if run.status.IsLive() {
      assert Held(run, None) == Held(run, Some(x));
    }
  }

  lemma {:induction false} NotHeldNotExcluded(runs: seq<Run>, x: SlotExclusion)
    requires forall i :: 0 <= i < |runs| ==> !HeldIn(runs[i], x)
    ensures LiveCount(runs, Some(x)) == LiveCount(runs, None)
  {
    if runs != [] {
      NotHeldNotExcluded(runs[..|runs| - 1], x);
      LiveInExcluding(runs[|runs| - 1], x);
    }
  }

  /** The exclusion discounts one slot when that very slot is held, and none otherwise. */
  lemma {:induction false} ExclusionDiscounts(runs: seq<Run>, x: SlotExclusion)
    requires UniqueRunIds(runs)
    ensures LiveCount(runs, None) == LiveCount(runs, Some(x)) + if IsHeld(runs, x) then 1 else 0
  {
    if runs != [] {
      var k := |runs| - 1;
      LiveInExcluding(runs[k], x);
      if HeldIn(runs[k], x) {
        NotHeldNotExcluded(runs[..k], x);
      } else {
        ExclusionDiscounts(runs[..k], x);
        if i :| 0 <= i < |runs| && HeldIn(runs[i], x) {
          assert HeldIn(runs[..k][i], x);
        }
        if i :| 0 <= i < k && HeldIn(runs[..k][i], x) {
          assert HeldIn(runs[i], x);
        }
      }
    }
  }

  /** Restarting an iteration that is live is always admitted, even at the cap. */
  lemma RestartAlwaysAdmitted(runs: seq<Run>, x: SlotExclusion, cap: nat)
    requires UniqueRunIds(runs) && LiveCount(runs, None) <= cap && IsHeld(runs, x)
    ensures CanAdmit(LiveCount(runs, Some(x)), cap)
  {
    ExclusionDiscounts(runs, x);
  }

  // ---------------------------------------------------------------------------
  // The protocol

  datatype Event =
    | StartRun(runId: string)
    | Spawn(run: nat, nodeId: string, iter: int)
    | Restart(run: nat, nodeId: string, iter: int)
    | NodeMoves(run: nat, nodeId: string, status: NodeStatus)
    | RunMoves(run: nat, runStatus: RunStatus)

  ghost predicate WithRun(runs: seq<Run>, e: Event) {
    e.StartRun? || e.run < |runs|
  }

  /** The gate of a spawn counts every session; the gate of a restart leaves out the
      slot it takes back. Nodes give sessions up but do not take one without a
      gate, and an ended run does not come back to life. */
  ghost predicate Allowed(runs: seq<Run>, e: Event, cap: nat)
    requires WithRun(runs, e)
  {
    match e
    case StartRun(id) => forall i :: 0 <= i < |runs| ==> runs[i].runId != id
    case Spawn(r, id, iter) => CanAdmit(LiveCount(runs, None), cap)
    case Restart(r, id, iter) => CanAdmit(LiveCount(runs, Some(SlotExclusion(runs[r].runId, id, iter))), cap)
    case NodeMoves(r, id, status) =>
      id in runs[r].nodes && (status.HoldsSession() ==> runs[r].nodes[id].status.HoldsSession())
    case RunMoves(r, status) => status.IsLive() ==> runs[r].status.IsLive()
  }

  ghost function Apply(runs: seq<Run>, e: Event): seq<Run>
    requires WithRun(runs, e)
  {
    match e
    case StartRun(id) => runs + [Run(id, Running, map[])]
    case Spawn(r, id, iter) => runs[r := runs[r].(nodes := runs[r].nodes[id := NodeSlot(NodeRunning, iter)])]
    case Restart(r, id, iter) => runs[r := runs[r].(nodes := runs[r].nodes[id := NodeSlot(NodeRunning, iter)])]
    case NodeMoves(r, id, status) =>
      if id in runs[r].nodes then
        runs[r := runs[r].(nodes := runs[r].nodes[id := NodeSlot(status, runs[r].nodes[id].iter)])]
      else runs
    case RunMoves(r, status) => runs[r := runs[r].(status := status)]
  }

  lemma {:induction false} CountAfterUpdate(runs: seq<Run>, r: nat, run: Run)
    requires r < |runs|
    ensures LiveCount(runs[r := run], None) == LiveCount(runs, None) - LiveIn(runs[r], None) + LiveIn(run, None)
  {
    var k := |runs| - 1;
    var runs' := runs[r := run];
    if r == k {
      assert runs'[..k] == runs[..k];
    } else {
      CountAfterUpdate(runs[..k], r, run);
      assert runs'[..k] == runs[..k][r := run];
    }
  }

  /** A node that starts running adds at most one session to its run; none when it
      held one already. */
  lemma NodeStarts(run: Run, id: string, iter: int)
    ensures var run' := run.(nodes := run.nodes[id := NodeSlot(NodeRunning, iter)]);
            LiveIn(run', None) <= LiveIn(run, None) + 1
            && (id in run.nodes && run.nodes[id].status.HoldsSession() ==> LiveIn(run', None) == LiveIn(run, None))
  {
    var run' := run.(nodes := run.nodes[id := NodeSlot(NodeRunning, iter)]);
    assert Held(run', None) == Held(run, None) + {id};
    if id in Held(run, None) {
      assert Held(run', None) == Held(run, None);
    }
  }

  lemma NodeSettles(run: Run, id: string, status: NodeStatus)
    requires id in run.nodes && (status.HoldsSession() ==> run.nodes[id].status.HoldsSession())
    ensures var run' := run.(nodes := run.nodes[id := NodeSlot(status, run.nodes[id].iter)]);
            LiveIn(run', None) <= LiveIn(run, None)
  {
    var run' := run.(nodes := run.nodes[id := NodeSlot(status, run.nodes[id].iter)]);
    if status.HoldsSession() {
      assert Held(run', None) == Held(run, None);
    } else {
      assert Held(run', None) == Held(run, None) - {id};
    }
  }

  /** Every allowed step keeps the sessions within the cap, and run ids unique. */
  lemma StepKeepsCap(runs: seq<Run>, e: Event, cap: nat)
    requires UniqueRunIds(runs) && LiveCount(runs, None) <= cap
    requires WithRun(runs, e) && Allowed(runs, e, cap)
    ensures UniqueRunIds(Apply(runs, e)) && LiveCount(Apply(runs, e), None) <= cap
  {
    match e {
      case StartRun(id) =>
        var started := Run(id, Running, map[]);
        assert (runs + [started])[..|runs|] == runs;
        assert Held(started, None) == {};
      case Spawn(r, id, iter) =>
        NodeStarts(runs[r], id, iter);
        CountAfterUpdate(runs, r, runs[r].(nodes := runs[r].nodes[id := NodeSlot(NodeRunning, iter)]));
      case Restart(r, id, iter) =>
        NodeStarts(runs[r], id, iter);
        CountAfterUpdate(runs, r, runs[r].(nodes := runs[r].nodes[id := NodeSlot(NodeRunning, iter)]));
        RestartCount(runs, r, id, iter);
      case NodeMoves(r, id, status) =>
        NodeSettles(runs[r], id, status);
        CountAfterUpdate(runs, r, runs[r].(nodes := runs[r].nodes[id := NodeSlot(status, runs[r].nodes[id].iter)]));
      case RunMoves(r, status) =>
        var ended := runs[r].(status := status);
        assert Held(ended, None) == Held(runs[r], None);
        CountAfterUpdate(runs, r, ended);
    }
  }

  /** Bringing an ended run back to life, which no gate of this module guards, keeps the
      cap exactly when there is room for every session its nodes still hold. */
  lemma ReviveKeepsCapIff(runs: seq<Run>, r: nat, status: RunStatus, cap: nat)
    requires r < |runs| && !runs[r].status.IsLive() && status.IsLive()
    ensures LiveCount(Apply(runs, RunMoves(r, status)), None) <= cap
            <==> LiveCount(runs, None) + |Held(runs[r], None)| <= cap
  {
    var revived := runs[r].(status := status);
    assert Held(revived, None) == Held(runs[r], None);
    CountAfterUpdate(runs, r, revived);
  }

  /** A restart's gate discounts at most the session it replaces. */
  lemma RestartCount(runs: seq<Run>, r: nat, id: string, iter: int)
    requires UniqueRunIds(runs) && r < |runs|
    ensures var x := SlotExclusion(runs[r].runId, id, iter);
            LiveCount(runs, None) <= LiveCount(runs, Some(x)) + 1
            && (LiveCount(runs, None) == LiveCount(runs, Some(x)) + 1
                ==> runs[r].status.IsLive() && id in runs[r].nodes && runs[r].nodes[id].status.HoldsSession())
  {
    var x := SlotExclusion(runs[r].runId, id, iter);
    ExclusionDiscounts(runs, x);
    if IsHeld(runs, x) {
      var i :| 0 <= i < |runs| && HeldIn(runs[i], x);
      assert i == r;
    }
  }

  ghost predicate IsHistory(states: seq<seq<Run>>, events: seq<Event>, cap: nat) {
    && |states| == |events| + 1
    && states[0] == []
    && forall i :: 0 <= i < |events| ==>
         WithRun(states[i], events[i]) && Allowed(states[i], events[i], cap)
         && states[i + 1] == Apply(states[i], events[i])
  }

  /** In every state of every history at most `cap` sessions are live. */
  lemma {:induction false} CapHoldsThroughout(states: seq<seq<Run>>, events: seq<Event>, cap: nat, i: nat)
    requires IsHistory(states, events, cap) && i < |states|
    ensures UniqueRunIds(states[i]) && LiveCount(states[i], None) <= cap
  {
    if i > 0 {
      CapHoldsThroughout(states, events, cap, i - 1);
      StepKeepsCap(states[i - 1], events[i - 1], cap);
    }
  }
}
