/** The derived waiting overlay: a running run becomes AwaitingUser when a chain of
    running descendants reaches a run that awaits its user. */
module ChildAwaiting {
  import opened Graphs
  import opened Options
  import opened Status
  import opened StringOrder

  datatype AwaitingInfo = AwaitingInfo(
    cause: string, message: Option<string>, since: string, childRunId: Option<string>)

  datatype Attempt = Attempt(iter: int, status: NodeStatus)

  datatype NodeState = NodeState(
    status: NodeStatus, iter: int, iterations: seq<Attempt>, awaiting: Option<AwaitingInfo>)

  datatype RunState = RunState(
    runId: Id, status: RunStatus, parentRunId: Option<Id>, parentNodeId: Option<Id>,
    name: Option<string>, awaitingReason: Option<string>, nodes: map<Id, NodeState>)

  // ---------------------------------------------------------------------------
  // What lifting a parent writes

  const CHILD_AWAITING := "child_awaiting"

  function ChildName(child: RunState): string {
    if child.name.Some? then child.name.value else child.runId
  }

  function Reason(childName: string): string {
    "child run " + childName + " is awaiting you"
  }

  /** The first attempt of the latest iteration follows its node. */
  function LiftAttempts(attempts: seq<Attempt>, latest: int): seq<Attempt> {
    if attempts == [] then []
    else if attempts[0].iter == latest then
      [if attempts[0].status.NodeRunning? then attempts[0].(status := NodeAwaitingUser) else attempts[0]]
      + attempts[1..]
    else [attempts[0]] + LiftAttempts(attempts[1..], latest)
  }

  function LiftNode(node: NodeState, child: RunState, since: string): NodeState {
    if node.status.NodeRunning? then
      NodeState(NodeAwaitingUser, node.iter, LiftAttempts(node.iterations, node.iter),
                Some(AwaitingInfo(CHILD_AWAITING, Some(Reason(ChildName(child))), since, Some(child.runId))))
    else node
  }

  function Lift(parent: RunState, child: RunState, since: string): RunState {
    var reason := if parent.awaitingReason.None? then Some(Reason(ChildName(child))) else parent.awaitingReason;
    var nodes :=
      if child.parentNodeId.Some? && child.parentNodeId.value in parent.nodes then
        parent.nodes[child.parentNodeId.value := LiftNode(parent.nodes[child.parentNodeId.value], child, since)]
      else parent.nodes;
    parent.(status := AwaitingUser, awaitingReason := reason, nodes := nodes)
  }

  /** The instants the child's own waits began at. */
  function Sinces(child: RunState): set<string> {
    set n | n in child.nodes && child.nodes[n].status.NodeAwaitingUser? && child.nodes[n].awaiting.Some?
      :: child.nodes[n].awaiting.value.since
  }

  /** The earliest of them. */
  method ParentAwaitingSince(child: RunState) returns (since: Option<string>)
    ensures since.None? <==> Sinces(child) == {}
    ensures since.Some? ==> IsLeast(Sinces(child), since.value)
  {
    var s := Sinces(child);
    if s == {} {
      return None;
    }
    var least := LeastOf(s);
    return Some(least);
  }

  /** What a clock shows each time it is read. */
  type Clock = nat -> string

  /** The earliest instant of the child's own waits, or what the clock showed at some
      reading when there is none. */
  ghost predicate IsSince(child: RunState, clock: Clock, since: string) {
    if Sinces(child) == {} then exists n: nat :: clock(n) == since else IsLeast(Sinces(child), since)
  }

  // ---------------------------------------------------------------------------
  // The specification

  ghost predicate UniqueRunIds(runs: seq<RunState>) {
    forall i, j :: 0 <= i < j < |runs| ==> runs[i].runId != runs[j].runId
  }

  ghost predicate IsChild(runs: seq<RunState>, i: nat, k: nat) {
    i < |runs| && k < |runs| && runs[k].parentRunId == Some(runs[i].runId)
  }

  /** All provenance links, from parent to child. */
  ghost function Links(runs: seq<RunState>): EdgeSet {
    set i, k | 0 <= i < |runs| && 0 <= k < |runs| && IsChild(runs, i, k) :: (runs[i].runId, runs[k].runId)
  }

  /** The links out of a running parent. */
  ghost function RunningLinks(runs: seq<RunState>): EdgeSet {
    set i, k | 0 <= i < |runs| && 0 <= k < |runs| && IsChild(runs, i, k) && runs[i].status.Running?
      :: (runs[i].runId, runs[k].runId)
  }

  ghost predicate Acyclic(runs: seq<RunState>) {
    forall u :: !OnClosedWalk(Links(runs), u)
  }

  /** No chain of running runs goes round in a circle below this run. */
  ghost predicate Clear(runs: seq<RunState>, i: nat)
    requires i < |runs|
  {
    forall u :: Reaches(RunningLinks(runs), runs[i].runId, u) ==> !OnClosedWalk(RunningLinks(runs), u)
  }

  lemma AcyclicIsClear(runs: seq<RunState>, i: nat)
    requires Acyclic(runs) && i < |runs|
    ensures Clear(runs, i)
  {
    forall u | OnClosedWalk(RunningLinks(runs), u)
      ensures false
    {
      ClosedWalkMonotone(RunningLinks(runs), Links(runs), u);
    }
  }

  lemma ClearBelow(runs: seq<RunState>, i: nat, k: nat)
    requires IsChild(runs, i, k) && runs[i].status.Running? && Clear(runs, i)
    ensures Clear(runs, k)
  {
    hide Reaches, OnClosedWalk;
    var g := RunningLinks(runs);
    ReachesByEdge(g, runs[i].runId, runs[k].runId);
    forall u | Reaches(g, runs[k].runId, u)
      ensures !OnClosedWalk(g, u)
    {
      ReachesTransitive(g, runs[i].runId, runs[k].runId, u);
    }
  }

  /** The run awaits its user, or reaches one that does through running runs only. */
  ghost predicate Derived(runs: seq<RunState>, i: nat)
    requires i < |runs|
  {
    exists j :: 0 <= j < |runs| && runs[j].status.AwaitingUser?
                && Reaches(RunningLinks(runs), runs[i].runId, runs[j].runId)
  }

  /** The run is its original lifted by its first derived child, as that child
      stands at the end. */
  ghost predicate LiftedByChild(orig: seq<RunState>, runs: seq<RunState>, clock: Clock, i: nat)
    requires |orig| == |runs| && i < |runs|
  {
    exists k: nat, since ::
      && IsChild(orig, i, k) && Derived(orig, k) && runs[k].status.AwaitingUser?
      && IsSince(runs[k], clock, since) && runs[i] == Lift(orig[i], runs[k], since)
      && (forall k': nat :: k' < k && IsChild(orig, i, k') && Clear(orig, k') ==> !Derived(orig, k'))
  }

  ghost predicate Outcome(orig: seq<RunState>, runs: seq<RunState>, clock: Clock, i: nat)
    requires |orig| == |runs| && i < |runs|
  {
    runs[i] == orig[i] || (orig[i].status.Running? && Derived(orig, i) && LiftedByChild(orig, runs, clock, i))
  }

  /** The relation between the runs before and after the overlay. */
  ghost predicate IsOverlay(orig: seq<RunState>, runs: seq<RunState>, clock: Clock) {
    && |runs| == |orig|
    && (forall i :: 0 <= i < |runs| ==> Outcome(orig, runs, clock, i))
    && (forall i :: 0 <= i < |runs| && Clear(orig, i) ==> (runs[i].status.AwaitingUser? <==> Derived(orig, i)))
  }

  lemma AwaitingIsDerived(runs: seq<RunState>, i: nat)
    requires i < |runs| && runs[i].status.AwaitingUser?
    ensures Derived(runs, i)
  {
    ReachesSelf(RunningLinks(runs), runs[i].runId);
  }

  lemma ChildDerives(runs: seq<RunState>, i: nat, k: nat)
    requires IsChild(runs, i, k) && runs[i].status.Running? && Derived(runs, k)
    ensures Derived(runs, i)
  {
    hide Reaches;
    var g := RunningLinks(runs);
    var j :| 0 <= j < |runs| && runs[j].status.AwaitingUser? && Reaches(g, runs[k].runId, runs[j].runId);
    ReachesByEdge(g, runs[i].runId, runs[k].runId);
    ReachesTransitive(g, runs[i].runId, runs[k].runId, runs[j].runId);
  }

  /** A run that derives its wait is waiting itself, or is running and has a
      child that does. */
  lemma DerivedFromChild(runs: seq<RunState>, i: nat) returns (k: nat)
    requires UniqueRunIds(runs) && i < |runs| && Derived(runs, i) && !runs[i].status.AwaitingUser?
    ensures runs[i].status.Running? && IsChild(runs, i, k) && Derived(runs, k)
  {
    hide Reaches;
    var g := RunningLinks(runs);
    var j :| 0 <= j < |runs| && runs[j].status.AwaitingUser? && Reaches(g, runs[i].runId, runs[j].runId);
    assert runs[i].runId != runs[j].runId;
    var w := FirstStep(g, runs[i].runId, runs[j].runId);
    var a: nat, b: nat :| a < |runs| && b < |runs| && IsChild(runs, a, b) && runs[a].status.Running?
                          && runs[a].runId == runs[i].runId && runs[b].runId == w;
    k := b;
  }

  lemma DerivedIsLive(runs: seq<RunState>, i: nat)
    requires UniqueRunIds(runs) && i < |runs| && Derived(runs, i)
    ensures runs[i].status.Running? || runs[i].status.AwaitingUser?
  {
    if !runs[i].status.AwaitingUser? {
      var k := DerivedFromChild(runs, i);
    }
  }

  // ---------------------------------------------------------------------------
  // The state of the recursion

  /** What holds between any two calls: every run is untouched or properly lifted,
      and the memo never lies about a derived wait. */
  ghost predicate Consistent(orig: seq<RunState>, runs: seq<RunState>, memo: map<nat, bool>, clock: Clock) {
    && UniqueRunIds(orig) && |runs| == |orig|
    && (forall i :: 0 <= i < |runs| ==> Outcome(orig, runs, clock, i))
    && (forall i :: 0 <= i < |runs| && runs[i] != orig[i] ==> i in memo)
    && (forall i :: i in memo ==> i < |orig| && MemoOk(orig, runs, i, memo[i]))
  }

  ghost predicate MemoOk(orig: seq<RunState>, runs: seq<RunState>, i: nat, known: bool)
    requires i < |orig| && |runs| == |orig|
  {
    && (known ==> Derived(orig, i) && runs[i].status.AwaitingUser?)
    && (!known && Clear(orig, i) ==> !Derived(orig, i))
  }

  /** `v` is a proper ancestor of `i`, through running runs only. */
  ghost predicate Ancestor(orig: seq<RunState>, v: nat, i: nat)
    requires v < |orig| && i < |orig|
  {
    exists w :: (orig[v].runId, w) in RunningLinks(orig) && Reaches(RunningLinks(orig), w, orig[i].runId)
  }

  lemma NotItsOwnAncestor(orig: seq<RunState>, i: nat)
    requires i < |orig| && Clear(orig, i)
    ensures !Ancestor(orig, i, i)
  {
    ReachesSelf(RunningLinks(orig), orig[i].runId);
  }

  lemma AncestorOfChild(orig: seq<RunState>, v: nat, i: nat, k: nat)
    requires v < |orig| && IsChild(orig, i, k) && orig[i].status.Running? && (v == i || Ancestor(orig, v, i))
    ensures Ancestor(orig, v, k)
  {
    hide Reaches;
    var g := RunningLinks(orig);
    assert (orig[i].runId, orig[k].runId) in g;
    ReachesSelf(g, orig[k].runId);
    ReachesByEdge(g, orig[i].runId, orig[k].runId);
    if v != i {
      var w :| (orig[v].runId, w) in g && Reaches(g, w, orig[i].runId);
      ReachesTransitive(g, w, orig[i].runId, orig[k].runId);
    }
  }

  /** Lifting a running run by its first derived child keeps everything consistent. */
  lemma LiftKeeps(orig: seq<RunState>, runs: seq<RunState>, runs': seq<RunState>, memo: map<nat, bool>,
                  clock: Clock, i: nat, k: nat, since: string)
    requires Consistent(orig, runs, memo, clock)
    requires IsChild(orig, i, k) && Derived(orig, k) && runs[k].status.AwaitingUser?
    requires runs[i] == orig[i] && orig[i].status.Running? && i !in memo
    requires IsSince(runs[k], clock, since)
    requires forall k': nat :: k' < k && IsChild(orig, i, k') && Clear(orig, k') ==> !Derived(orig, k')
    requires runs' == runs[i := Lift(runs[i], runs[k], since)]
    ensures Consistent(orig, runs', memo[i := true], clock)
  {
    hide Derived, Clear, IsSince, Lift;
    ChildDerives(orig, i, k);
    forall j | 0 <= j < |runs|
      ensures Outcome(orig, runs', clock, j)
    {
      if j != i && runs[j] != orig[j] {
        assert Outcome(orig, runs, clock, j);
        KeepsLifted(orig, runs, runs', clock, i, j);
      } else if j == i {
        assert runs'[k] == runs[k];
        assert LiftedByChild(orig, runs', clock, i);
      }
    }
    assert runs'[i].status.AwaitingUser? by { LiftAwaits(runs[i], runs[k], since); }
  }

  lemma LiftAwaits(parent: RunState, child: RunState, since: string)
    ensures Lift(parent, child, since).status.AwaitingUser?
  {
  }

  lemma KeepsLifted(orig: seq<RunState>, runs: seq<RunState>, runs': seq<RunState>, clock: Clock, i: nat, j: nat)
    requires |runs| == |orig| == |runs'| && i < |orig| && j < |orig| && i != j
    requires LiftedByChild(orig, runs, clock, j)
    requires runs' == runs[i := runs'[i]] && !runs[i].status.AwaitingUser?
    ensures LiftedByChild(orig, runs', clock, j)
  {
    hide Derived, Clear, IsSince, Lift;
    var k: nat, since :|
      && IsChild(orig, j, k) && Derived(orig, k) && runs[k].status.AwaitingUser?
      && IsSince(runs[k], clock, since) && runs[j] == Lift(orig[j], runs[k], since)
      && (forall k': nat :: k' < k && IsChild(orig, j, k') && Clear(orig, k') ==> !Derived(orig, k'));
    assert k != i && runs'[k] == runs[k];
  }

  lemma RememberKeeps(orig: seq<RunState>, runs: seq<RunState>, memo: map<nat, bool>, clock: Clock, i: nat, known: bool)
    requires Consistent(orig, runs, memo, clock) && i < |orig| && MemoOk(orig, runs, i, known)
    ensures Consistent(orig, runs, memo[i := known], clock)
  {
    hide Outcome, MemoOk;
  }

  /** With every child checked and none waiting, a running run does not wait. */
  lemma NoChildWaits(orig: seq<RunState>, i: nat)
    requires UniqueRunIds(orig) && i < |orig| && !orig[i].status.AwaitingUser?
    requires forall k: nat :: IsChild(orig, i, k) ==> !Derived(orig, k)
    ensures !Derived(orig, i)
  {
    if Derived(orig, i) {
      var k := DerivedFromChild(orig, i);
    }
  }

  /** The children of each run, in the order of the run list. */
  ghost predicate ChildrenOk(orig: seq<RunState>, children: map<nat, seq<nat>>) {
    && (forall i: nat, k: nat :: i < |orig| ==> (k in Kids(children, i) <==> IsChild(orig, i, k)))
    && (forall i: nat, a, b :: 0 <= a < b < |Kids(children, i)| ==> Kids(children, i)[a] < Kids(children, i)[b])
  }

  function Kids(children: map<nat, seq<nat>>, i: nat): seq<nat> {
    if i in children then children[i] else []
  }

  ghost function UpTo(n: nat): (s: set<nat>)
    ensures forall j: nat :: j in s <==> j < n
  {
    if n == 0 then {} else UpTo(n - 1) + {n - 1}
  }

  /** Answers stay, and a run that awaits goes on awaiting. */
  ghost predicate Progress(runs: seq<RunState>, memo: map<nat, bool>, runs': seq<RunState>, memo': map<nat, bool>) {
    && |runs'| == |runs|
    && (forall j :: j in memo ==> j in memo' && memo'[j] == memo[j])
    && (forall j :: 0 <= j < |runs| && runs[j].status.AwaitingUser? ==> runs'[j].status.AwaitingUser?)
  }

  lemma SameProgress(runs: seq<RunState>, memo: map<nat, bool>)
    ensures Progress(runs, memo, runs, memo)
  {
  }

  lemma ProgressTransitive(a: seq<RunState>, m: map<nat, bool>, b: seq<RunState>, n: map<nat, bool>,
                           c: seq<RunState>, o: map<nat, bool>)
    requires Progress(a, m, b, n) && Progress(b, n, c, o)
    ensures Progress(a, m, c, o)
  {
  }

  class Overlay {
    const runs: array<RunState>
    const children: map<nat, seq<nat>>
    const clock: Clock
    var readings: nat
    var memo: map<nat, bool>
    var visiting: set<nat>
    ghost const orig: seq<RunState>

    constructor (runs: array<RunState>, children: map<nat, seq<nat>>, clock: Clock)
      ensures this.runs == runs && this.children == children && this.clock == clock
      ensures orig == runs[..] && memo == map[] && visiting == {}
    {
      this.runs, this.children, this.clock := runs, children, clock;
      memo, visiting, readings := map[], {}, 0;
      orig := runs[..];
    }

    ghost predicate Valid()
      reads this, runs
    {
      && Consistent(orig, runs[..], memo, clock)
      && ChildrenOk(orig, children)
      && (forall v :: v in visiting ==> v < |orig| && v !in memo)
    }

    /** Answers for one run, after its children where need be, and lifts it in the
        array when one of them awaits. */
    method EffectiveAwaiting(i: nat) returns (awaiting: bool)
      requires Valid() && i < runs.Length
      requires forall v :: v in visiting ==> Ancestor(orig, v, i)
      modifies this, runs
      ensures Valid() && visiting == old(visiting)
      ensures Progress(old(runs[..]), old(memo), runs[..], memo)
      ensures awaiting ==> runs[i].status.AwaitingUser?
      ensures Clear(orig, i) ==> (awaiting <==> Derived(orig, i))
      decreases Indices() - visiting, 0
    {
      if i in memo {
        assert MemoOk(orig, runs[..], i, memo[i]);
        return memo[i];
      }
      if i in visiting {
        if Clear(orig, i) { NotItsOwnAncestor(orig, i); }
        return false;
      }
      visiting := visiting + {i};
      assert runs[..][i] == orig[i];
      if runs[i].status.AwaitingUser? {
        AwaitingIsDerived(orig, i);
        awaiting := true;
        RememberKeeps(orig, runs[..], memo, clock, i, awaiting);
      } else if !runs[i].status.Running? {
        NotLiveNotDerived(orig, i);
        awaiting := false;
        RememberKeeps(orig, runs[..], memo, clock, i, awaiting);
      } else {
        awaiting := LiftFromChildren(i);
      }
      visiting := visiting - {i};
      memo := memo[i := awaiting];
    }

    ghost function Indices(): set<nat> {
      UpTo(runs.Length)
    }

    /** Rewrites run `i` on behalf of its awaiting child `k`. */
    method LiftBy(i: nat, k: nat, since: string)
      requires Valid() && IsChild(orig, i, k) && i !in memo
      requires runs[i] == orig[i] && orig[i].status.Running? && runs[k].status.AwaitingUser?
      requires IsSince(runs[k], clock, since)
      requires forall k': nat :: k' < k && IsChild(orig, i, k') && Clear(orig, k') ==> !Derived(orig, k')
      modifies runs
      ensures Consistent(orig, runs[..], memo[i := true], clock)
      ensures Derived(orig, i) && runs[i].status.AwaitingUser?
      ensures Progress(old(runs[..]), memo, runs[..], memo)
    {
      ghost var before := runs[..];
      runs[i] := Lift(runs[i], runs[k], since);
      assert runs[..] == before[i := Lift(before[i], before[k], since)];
      FoundDerived(orig, before, memo, clock, k);
      LiftKeeps(orig, before, runs[..], memo, clock, i, k, since);
      ChildDerives(orig, i, k);
      LiftAwaits(before[i], before[k], since);
    }

    /** The instant the parent's wait counts from. */
    method SinceOf(child: RunState) returns (since: string)
      modifies `readings
      ensures IsSince(child, clock, since)
    {
      var childSince := ParentAwaitingSince(child);
      if childSince.Some? {
        return childSince.value;
      }
      since := clock(readings);
      readings := readings + 1;
    }

    /** The case of a running run: lift it by its first awaiting child, if any. */
    method LiftFromChildren(i: nat) returns (awaiting: bool)
      requires Valid() && i < runs.Length && i in visiting
      requires runs[i] == orig[i] && orig[i].status.Running?
      requires forall v :: v in visiting ==> v == i || Ancestor(orig, v, i)
      modifies this, runs
      ensures Consistent(orig, runs[..], memo[i := awaiting], clock)
      ensures visiting == old(visiting) && (forall v :: v in visiting ==> v < |orig| && v !in memo)
      ensures Progress(old(runs[..]), old(memo), runs[..], memo)
      ensures awaiting ==> runs[i].status.AwaitingUser?
      ensures Clear(orig, i) ==> (awaiting <==> Derived(orig, i))
      decreases Indices() - visiting, 1
    {
      hide Clear, Derived, Ancestor, Outcome, Lift, UniqueRunIds, Progress, IsSince;
      assert Progress(runs[..], memo, runs[..], memo) by { SameProgress(runs[..], memo); }
      var kids := Kids(children, i);
      for a := 0 to |kids|
        invariant Valid() && visiting == old(visiting) && runs[i] == orig[i]
        invariant Progress(old(runs[..]), old(memo), runs[..], memo)
        invariant forall b :: 0 <= b < a ==> kids[b] < |orig| && (Clear(orig, kids[b]) ==> !Derived(orig, kids[b]))
      {
        var k := kids[a];
        assert k in kids;
        assert IsChild(orig, i, k);
        if !runs[k].status.IsLive() {
          DeadNotDerived(orig, runs[..], clock, k);
          continue;
        }
        forall v | v in visiting
          ensures Ancestor(orig, v, k)
        {
          AncestorOfChild(orig, v, i, k);
        }
        ghost var before, known := runs[..], memo;
        var found := EffectiveAwaiting(k);
        ProgressTransitive(old(runs[..]), old(memo), before, known, runs[..], memo);
        assert i !in memo;
        assert runs[..][i] == orig[i];
        if found {
          var since := SinceOf(runs[k]);
          KidOrder(orig, children, i, a);
          before, known := runs[..], memo;
          LiftBy(i, k, since);
          ProgressTransitive(old(runs[..]), old(memo), before, known, runs[..], memo);
          return true;
        }
      }
      if Clear(orig, i) {
        forall k: nat | IsChild(orig, i, k)
          ensures !Derived(orig, k)
        {
          assert k in kids;
          ClearBelow(orig, i, k);
        }
        NoChildWaits(orig, i);
      }
      RememberKeeps(orig, runs[..], memo, clock, i, false);
      return false;
    }
  }

  /** A run that ends awaiting has a derived wait. */
  lemma FoundDerived(orig: seq<RunState>, runs: seq<RunState>, memo: map<nat, bool>, clock: Clock, k: nat)
    requires Consistent(orig, runs, memo, clock) && k < |orig| && runs[k].status.AwaitingUser?
    ensures Derived(orig, k)
  {
    assert Outcome(orig, runs, clock, k);
    if runs[k] == orig[k] {
      AwaitingIsDerived(orig, k);
    }
  }

  /** The children before position `a` are the ones with a smaller index. */
  lemma KidOrder(orig: seq<RunState>, children: map<nat, seq<nat>>, i: nat, a: nat)
    requires ChildrenOk(orig, children) && i < |orig| && a < |Kids(children, i)|
    ensures forall k: nat :: k < Kids(children, i)[a] && IsChild(orig, i, k)
              ==> exists b :: 0 <= b < a && Kids(children, i)[b] == k
  {
    var kids := Kids(children, i);
    forall k: nat | k < kids[a] && IsChild(orig, i, k)
      ensures exists b :: 0 <= b < a && kids[b] == k
    {
      assert k in kids;
      var b :| 0 <= b < |kids| && kids[b] == k;
      assert b < a;
    }
  }

  lemma DeadNotDerived(orig: seq<RunState>, runs: seq<RunState>, clock: Clock, k: nat)
    requires UniqueRunIds(orig) && |runs| == |orig| && k < |orig|
    requires Outcome(orig, runs, clock, k) && !runs[k].status.IsLive()
    ensures !Derived(orig, k)
  {
    NotLiveNotDerived(orig, k);
  }

  lemma NotLiveNotDerived(orig: seq<RunState>, i: nat)
    requires UniqueRunIds(orig) && i < |orig| && !orig[i].status.Running? && !orig[i].status.AwaitingUser?
    ensures !Derived(orig, i)
  {
    if Derived(orig, i) {
      DerivedIsLive(orig, i);
    }
  }

  // ---------------------------------------------------------------------------
  // The overlay

  method IndexRuns(runs: array<RunState>) returns (index: map<Id, nat>)
    requires UniqueRunIds(runs[..])
    ensures forall i :: 0 <= i < runs.Length ==> runs[i].runId in index && index[runs[i].runId] == i
    ensures forall x :: x in index ==> index[x] < runs.Length && runs[index[x]].runId == x
  {
    index := map[];
    for i := 0 to runs.Length
      invariant forall j :: 0 <= j < i ==> runs[j].runId in index && index[runs[j].runId] == j
      invariant forall x :: x in index ==> index[x] < i && runs[index[x]].runId == x
    {
      assert forall j :: 0 <= j < i ==> runs[..][j].runId != runs[..][i].runId;
      index := index[runs[i].runId := i];
    }
  }

  ghost predicate KidsBelow(orig: seq<RunState>, children: map<nat, seq<nat>>, k: nat) {
    && (forall i: nat, c: nat :: i < |orig| ==> (c in Kids(children, i) <==> c < k && IsChild(orig, i, c)))
    && (forall i: nat, a, b :: 0 <= a < b < |Kids(children, i)| ==> Kids(children, i)[a] < Kids(children, i)[b])
  }

  lemma AddedKid(orig: seq<RunState>, before: map<nat, seq<nat>>, children: map<nat, seq<nat>>, i: nat, k: nat)
    requires UniqueRunIds(orig) && KidsBelow(orig, before, k) && IsChild(orig, i, k)
    requires children == before[i := Kids(before, i) + [k]]
    ensures KidsBelow(orig, children, k + 1)
  {
    assert i < |orig|;
    forall j: nat
      ensures Kids(children, j) == Kids(before, j) + if j == i then [k] else []
    {
    }
    hide IsChild, Kids, UniqueRunIds;
    forall j: nat, c: nat | j < |orig|
      ensures c in Kids(children, j) <==> c < k + 1 && IsChild(orig, j, c)
    {
      assert c in Kids(before, j) <==> c < k && IsChild(orig, j, c);
      OneParent(orig, i, j, k);
    }
    forall j: nat, a, b | 0 <= a < b < |Kids(children, j)|
      ensures Kids(children, j)[a] < Kids(children, j)[b]
    {
      if j == i && b == |Kids(before, i)| {
        assert Kids(children, i) == Kids(before, i) + [k];
        assert Kids(before, i)[a] in Kids(before, i);
      } else {
        assert Kids(children, j)[a] == Kids(before, j)[a] && Kids(children, j)[b] == Kids(before, j)[b];
      }
    }
  }

  lemma OneParent(orig: seq<RunState>, i: nat, j: nat, k: nat)
    requires UniqueRunIds(orig) && IsChild(orig, i, k)
    ensures IsChild(orig, j, k) <==> j == i
  {
  }

  method IndexChildren(runs: array<RunState>, index: map<Id, nat>) returns (children: map<nat, seq<nat>>)
    requires UniqueRunIds(runs[..])
    requires forall i :: 0 <= i < runs.Length ==> runs[i].runId in index && index[runs[i].runId] == i
    requires forall x :: x in index ==> index[x] < runs.Length && runs[index[x]].runId == x
    ensures ChildrenOk(runs[..], children)
  {
    children := map[];
    for k := 0 to runs.Length
      invariant KidsBelow(runs[..], children, k)
    {
      var parent := runs[k].parentRunId;
      if parent.Some? && parent.value in index {
        var i := index[parent.value];
        var kids := Kids(children, i);
        assert forall a :: 0 <= a < |kids| ==> kids[a] in kids;
        ghost var before := children;
        children := children[i := kids + [k]];
        AddedKid(runs[..], before, children, i, k);
      } else {
        assert forall i: nat :: !IsChild(runs[..], i, k);
      }
    }
  }

  /** The derived waits below index `n` are all in place. */
  ghost predicate SettledBelow(orig: seq<RunState>, runs: seq<RunState>, n: nat) {
    |runs| == |orig| >= n
    && forall j :: 0 <= j < n && Clear(orig, j) && Derived(orig, j) ==> runs[j].status.AwaitingUser?
  }

  lemma StaysSettled(orig: seq<RunState>, before: seq<RunState>, known: map<nat, bool>,
                     runs: seq<RunState>, memo: map<nat, bool>, n: nat)
    requires SettledBelow(orig, before, n) && n < |orig| && Progress(before, known, runs, memo)
    requires Clear(orig, n) && Derived(orig, n) ==> runs[n].status.AwaitingUser?
    ensures SettledBelow(orig, runs, n + 1)
  {
    hide Clear, Derived;
  }

  /** Every run is left alone or lifted; a run below which no chain of running runs goes
      round in a circle ends AwaitingUser exactly when its wait derives. Terminates on
      any links. */
  method ApplyOverlay(runs: array<RunState>, clock: Clock)
    requires UniqueRunIds(runs[..])
    modifies runs
    ensures IsOverlay(old(runs[..]), runs[..], clock)
  {
    hide Clear, Derived, LiftedByChild, Lift, UniqueRunIds, ChildrenOk, Progress;
    ghost var orig := runs[..];
    var index := IndexRuns(runs);
    var children := IndexChildren(runs, index);
    var overlay := new Overlay(runs, children, clock);
    for i := 0 to runs.Length
      invariant overlay.Valid() && overlay.visiting == {}
      invariant overlay.runs == runs && overlay.orig == orig && overlay.clock == clock
      invariant SettledBelow(orig, runs[..], i)
    {
      ghost var before, known := runs[..], overlay.memo;
      var awaiting := overlay.EffectiveAwaiting(i);
      StaysSettled(orig, before, known, runs[..], overlay.memo, i);
    }
    forall i | 0 <= i < |orig|
      ensures Outcome(orig, runs[..], clock, i)
      ensures runs[..][i].status.AwaitingUser? ==> Derived(orig, i)
    {
      if runs[i].status.AwaitingUser? {
        FoundDerived(orig, runs[..], overlay.memo, clock, i);
      }
    }
  }

  // ---------------------------------------------------------------------------
  // Consequences

  /** The overlay sets exactly the derived waits, and changes no other status. */
  lemma OverlayStatuses(orig: seq<RunState>, runs: seq<RunState>, clock: Clock, i: nat)
    requires IsOverlay(orig, runs, clock) && i < |orig| && Clear(orig, i)
    ensures runs[i].status == if Derived(orig, i) then AwaitingUser else orig[i].status
    ensures orig[i].status.AwaitingUser? ==> runs[i] == orig[i]
  {
    assert Outcome(orig, runs, clock, i);
    if orig[i].status.AwaitingUser? {
      AwaitingIsDerived(orig, i);
    }
  }

  /** Whatever the links, no run is left awaiting without a derived wait. */
  lemma AwaitingWasDerived(orig: seq<RunState>, runs: seq<RunState>, clock: Clock, i: nat)
    requires IsOverlay(orig, runs, clock) && i < |orig| && runs[i].status.AwaitingUser?
    ensures Derived(orig, i)
  {
    assert Outcome(orig, runs, clock, i);
    if runs[i] == orig[i] {
      AwaitingIsDerived(orig, i);
    }
  }

  lemma {:induction false} LaterDerivedWasDerived(orig: seq<RunState>, runs: seq<RunState>, clock: Clock, i: nat)
    requires IsOverlay(orig, runs, clock) && i < |orig| && Derived(runs, i)
    ensures Derived(orig, i)
  {
    hide Reaches;
    var j :| 0 <= j < |runs| && runs[j].status.AwaitingUser?
             && Reaches(RunningLinks(runs), runs[i].runId, runs[j].runId);
    assert forall m :: 0 <= m < |runs| ==> Outcome(orig, runs, clock, m);
    SameLinks(orig, runs, clock);
    ReachesMonotone(RunningLinks(runs), RunningLinks(orig), runs[i].runId, runs[j].runId);
    AwaitingWasDerived(orig, runs, clock, j);
    var m :| 0 <= m < |orig| && orig[m].status.AwaitingUser?
             && Reaches(RunningLinks(orig), orig[j].runId, orig[m].runId);
    ReachesTransitive(RunningLinks(orig), orig[i].runId, orig[j].runId, orig[m].runId);
  }

  /** The overlay keeps the provenance links, and runs only leave Running. */
  lemma SameLinks(orig: seq<RunState>, runs: seq<RunState>, clock: Clock)
    requires IsOverlay(orig, runs, clock)
    ensures forall i :: 0 <= i < |runs| ==> runs[i].runId == orig[i].runId
    ensures Links(runs) == Links(orig) && RunningLinks(runs) <= RunningLinks(orig)
  {
    hide Derived;
    forall i | 0 <= i < |runs|
      ensures runs[i].runId == orig[i].runId && runs[i].parentRunId == orig[i].parentRunId
      ensures runs[i].status.Running? ==> orig[i].status.Running?
    {
      assert Outcome(orig, runs, clock, i);
    }
    forall i: nat, k: nat
      ensures IsChild(runs, i, k) <==> IsChild(orig, i, k)
    {
    }
  }

  /** A second overlay changes no run but those above a circle. */
  lemma OverlayIdempotent(orig: seq<RunState>, once: seq<RunState>, twice: seq<RunState>,
                          clock: Clock, later: Clock, i: nat)
    requires IsOverlay(orig, once, clock) && IsOverlay(once, twice, later)
    requires i < |orig| && Clear(orig, i)
    ensures twice[i] == once[i]
  {
    assert Outcome(once, twice, later, i);
    if Derived(once, i) {
      LaterDerivedWasDerived(orig, once, clock, i);
    }
  }

  /** On acyclic links all of this holds of every run: the waits are exactly the derived
      ones, and a second overlay changes nothing. */
  lemma AcyclicOverlay(orig: seq<RunState>, once: seq<RunState>, twice: seq<RunState>, clock: Clock, later: Clock)
    requires Acyclic(orig) && IsOverlay(orig, once, clock) && IsOverlay(once, twice, later)
    ensures forall i :: 0 <= i < |orig| ==>
              once[i].status == if Derived(orig, i) then AwaitingUser else orig[i].status
    ensures twice == once
  {
    hide Derived, Acyclic;
    forall i | 0 <= i < |orig|
      ensures once[i].status == if Derived(orig, i) then AwaitingUser else orig[i].status
      ensures twice[i] == once[i]
    {
      AcyclicIsClear(orig, i);
      OverlayStatuses(orig, once, clock, i);
      OverlayIdempotent(orig, once, twice, clock, later, i);
    }
  }

  // ---------------------------------------------------------------------------
  // What a lift leaves alone

  /** Of the attempts, only the first of the latest iteration may change, and only
      from running to awaiting. */
  lemma {:induction false} LiftAttemptsTouches(attempts: seq<Attempt>, latest: int, k: nat)
    requires k < |attempts|
    ensures |LiftAttempts(attempts, latest)| == |attempts|
    ensures LiftAttempts(attempts, latest)[k]
            == if attempts[k].iter == latest && attempts[k].status.NodeRunning?
                  && (forall j :: 0 <= j < k ==> attempts[j].iter != latest)
               then Attempt(latest, NodeAwaitingUser) else attempts[k]
  {
    if attempts[0].iter != latest {
      if k > 0 {
        LiftAttemptsTouches(attempts[1..], latest, k - 1);
        assert forall j :: 0 <= j < k - 1 ==> attempts[1..][j] == attempts[j + 1];
      } else if |attempts| > 1 {
        LiftAttemptsTouches(attempts[1..], latest, 0);
      }
    }
  }

  /** The child that lifted a run, as it stood before. */
  lemma LiftingChild(orig: seq<RunState>, runs: seq<RunState>, clock: Clock, i: nat) returns (k: nat, since: string)
    requires IsOverlay(orig, runs, clock) && i < |orig| && runs[i] != orig[i]
    ensures IsChild(orig, i, k) && Derived(orig, k) && runs[i] == Lift(orig[i], runs[k], since)
    ensures orig[i].status.Running? && runs[k].status.AwaitingUser? && IsSince(runs[k], clock, since)
    ensures runs[k].runId == orig[k].runId && runs[k].parentNodeId == orig[k].parentNodeId
    ensures runs[k].name == orig[k].name
  {
    hide Derived, Clear, IsSince;
    assert Outcome(orig, runs, clock, i);
    k, since :|
      && IsChild(orig, i, k) && Derived(orig, k) && runs[k].status.AwaitingUser?
      && IsSince(runs[k], clock, since) && runs[i] == Lift(orig[i], runs[k], since);
    assert Outcome(orig, runs, clock, k);
  }

  /** The overlay keeps every run's identity, nodes and own reason. A node it changes was
      running and now awaits the child with a derived wait that hangs from it. */
  lemma OverlayTouches(orig: seq<RunState>, runs: seq<RunState>, clock: Clock, i: nat, id: Id)
    requires IsOverlay(orig, runs, clock) && i < |orig| && id in orig[i].nodes
    ensures runs[i].runId == orig[i].runId && runs[i].nodes.Keys == orig[i].nodes.Keys
    ensures orig[i].awaitingReason.Some? ==> runs[i].awaitingReason == orig[i].awaitingReason
    ensures runs[i].nodes[id] != orig[i].nodes[id] ==>
              && orig[i].nodes[id].status.NodeRunning? && runs[i].nodes[id].status.NodeAwaitingUser?
              && runs[i].nodes[id].awaiting.Some?
              && exists k :: 0 <= k < |orig| && IsChild(orig, i, k) && Derived(orig, k)
                             && orig[k].parentNodeId == Some(id)
                             && runs[i].nodes[id].awaiting.value.childRunId == Some(orig[k].runId)
  {
    hide Derived;
    if runs[i] != orig[i] {
      var k, since := LiftingChild(orig, runs, clock, i);
    }
  }

  /** At most one node of a run changes. */
  lemma OverlayTouchesOneNode(orig: seq<RunState>, runs: seq<RunState>, clock: Clock, i: nat, a: Id, b: Id)
    requires IsOverlay(orig, runs, clock) && i < |orig| && a in orig[i].nodes && b in orig[i].nodes
    requires a in runs[i].nodes && b in runs[i].nodes
    requires runs[i].nodes[a] != orig[i].nodes[a] && runs[i].nodes[b] != orig[i].nodes[b]
    ensures a == b
  {
    var k, since := LiftingChild(orig, runs, clock, i);
  }

  // ---------------------------------------------------------------------------
  // What a lift writes

  /** The sentence a parent shows for a child. */
  ghost predicate NamesChild(text: string, child: RunState) {
    text == "child run " + (if child.name.Some? then child.name.value else child.runId) + " is awaiting you"
  }

  ghost predicate AwaitsSince(child: RunState, id: Id, since: string) {
    && id in child.nodes && child.nodes[id].status.NodeAwaitingUser?
    && child.nodes[id].awaiting.Some? && child.nodes[id].awaiting.value.since == since
  }

  /** The earliest instant one of the child's nodes awaits since, or what the clock showed
      when none of them says. */
  ghost predicate CountsFrom(child: RunState, clock: Clock, since: string) {
    || ((exists id :: AwaitsSince(child, id, since))
        && forall id, other :: AwaitsSince(child, id, other) ==> LexLe(since, other))
    || ((forall id, other :: !AwaitsSince(child, id, other)) && exists n: nat :: clock(n) == since)
  }

  /** The first attempt of the latest iteration goes from running to awaiting. */
  ghost predicate AttemptsFollow(before: seq<Attempt>, after: seq<Attempt>, latest: int) {
    && |after| == |before|
    && forall k :: 0 <= k < |before| ==>
         after[k] == if before[k].iter == latest && before[k].status.NodeRunning?
                        && (forall j :: 0 <= j < k ==> before[j].iter != latest)
                     then Attempt(latest, NodeAwaitingUser) else before[k]
  }

  /** The node awaits the child from now on. */
  ghost predicate NodeAwaits(before: NodeState, after: NodeState, child: RunState, clock: Clock) {
    && after.status.NodeAwaitingUser? && after.iter == before.iter
    && AttemptsFollow(before.iterations, after.iterations, before.iter)
    && after.awaiting.Some? && after.awaiting.value.cause == "child_awaiting"
    && after.awaiting.value.message.Some? && NamesChild(after.awaiting.value.message.value, child)
    && after.awaiting.value.childRunId == Some(child.runId)
    && CountsFrom(child, clock, after.awaiting.value.since)
  }

  /** The run awaits on behalf of the child: the running node the child hangs from
      awaits it, every other node is as it was, and a reason is given if none was. */
  ghost predicate RaisedBy(before: RunState, after: RunState, child: RunState, clock: Clock) {
    && before.status.Running? && after.status.AwaitingUser?
    && after.runId == before.runId && after.name == before.name
    && after.parentRunId == before.parentRunId && after.parentNodeId == before.parentNodeId
    && after.awaitingReason.Some?
    && (if before.awaitingReason.Some? then after.awaitingReason == before.awaitingReason
        else NamesChild(after.awaitingReason.value, child))
    && after.nodes.Keys == before.nodes.Keys
    && forall id :: id in before.nodes ==>
         if child.parentNodeId == Some(id) && before.nodes[id].status.NodeRunning?
         then NodeAwaits(before.nodes[id], after.nodes[id], child, clock)
         else after.nodes[id] == before.nodes[id]
  }

  lemma AttemptsLifted(attempts: seq<Attempt>, latest: int)
    ensures AttemptsFollow(attempts, LiftAttempts(attempts, latest), latest)
  {
    if attempts != [] {
      LiftAttemptsTouches(attempts, latest, 0);
    }
    forall k | 0 <= k < |attempts|
      ensures k < |LiftAttempts(attempts, latest)|
      ensures LiftAttempts(attempts, latest)[k]
              == if attempts[k].iter == latest && attempts[k].status.NodeRunning?
                    && (forall j :: 0 <= j < k ==> attempts[j].iter != latest)
                 then Attempt(latest, NodeAwaitingUser) else attempts[k]
    {
      LiftAttemptsTouches(attempts, latest, k);
    }
  }

  lemma SinceCounts(child: RunState, clock: Clock, since: string)
    requires IsSince(child, clock, since)
    ensures CountsFrom(child, clock, since)
  {
    assert forall id, other :: AwaitsSince(child, id, other) ==> other in Sinces(child);
    if Sinces(child) != {} {
      var id :| id in child.nodes && child.nodes[id].status.NodeAwaitingUser? && child.nodes[id].awaiting.Some?
                && child.nodes[id].awaiting.value.since == since;
      assert AwaitsSince(child, id, since);
    }
  }

  /** Every run the overlay changes was running and is raised by a child of its own with
      a derived wait, as that child stands at the end. */
  lemma OverlayRaises(orig: seq<RunState>, runs: seq<RunState>, clock: Clock, i: nat) returns (k: nat)
    requires IsOverlay(orig, runs, clock) && i < |orig| && runs[i] != orig[i]
    ensures k < |orig| && orig[k].parentRunId == Some(orig[i].runId) && Derived(orig, k)
    ensures runs[k].runId == orig[k].runId && runs[k].parentNodeId == orig[k].parentNodeId
    ensures runs[k].name == orig[k].name && runs[k].status.AwaitingUser?
    ensures RaisedBy(orig[i], runs[i], runs[k], clock)
  {
    var since;
    k, since := LiftingChild(orig, runs, clock, i);
    hide Derived, IsOverlay, CountsFrom, AttemptsFollow, IsSince;
    SinceCounts(runs[k], clock, since);
    forall id | id in orig[i].nodes
      ensures AttemptsFollow(orig[i].nodes[id].iterations,
                             LiftAttempts(orig[i].nodes[id].iterations, orig[i].nodes[id].iter),
                             orig[i].nodes[id].iter)
    {
      AttemptsLifted(orig[i].nodes[id].iterations, orig[i].nodes[id].iter);
    }
  }
}
