/** The readiness sweep: which nodes may be spawned now. */
module Readiness {
  import opened DetectCycles
  import opened Graphs
  import opened Options
  import opened Pipeline
  import opened Status

  /** The projected run as far as readiness reads it. */
  datatype RunView = RunView(nodes: map<Id, NodeStatus>, collectionDone: map<string, bool>)

  predicate IsSpawnable(t: NodeType) {
    t.Agent? || t.Script?
  }

  function CollectionRegionFor(regions: seq<LoopRegion>, id: Id): Option<LoopRegion> {
    if regions == [] then None
    else if regions[0].kind == Collection && id in regions[0].members then Some(regions[0])
    else CollectionRegionFor(regions[1..], id)
  }

  /** Some edge feeds `id` from outside the region, and not from a Start node. */
  predicate FedFromOutside(p: PipelineDef, r: LoopRegion, id: Id) {
    exists e :: e in p.edges && e.target.node == id && e.source.node !in r.members
                && !HasType(p, e.source.node, Start)
  }

  /** Is nothing more to be expected of this source? A collection answers for its
      members as a whole. */
  predicate SourceDone(p: PipelineDef, st: RunView, src: Id) {
    match CollectionRegionFor(p.loops, src)
    case Some(r) => r.id in st.collectionDone && st.collectionDone[r.id]
    case None => src in st.nodes && st.nodes[src].IsSettledComplete()
  }

  predicate HasIncoming(p: PipelineDef, id: Id) {
    exists e :: e in p.edges && e.target.node == id
  }

  predicate HasUnconditionalIncoming(p: PipelineDef, id: Id) {
    exists e :: e in p.edges && e.target.node == id && e.Unconditional()
  }

  /** An unconditional edge into `id` that does not come from a Start node. */
  predicate WaitsOn(p: PipelineDef, e: Edge, id: Id) {
    e.target.node == id && e.Unconditional() && !HasType(p, e.source.node, Start)
  }

  predicate AllSourcesDone(p: PipelineDef, st: RunView, id: Id) {
    forall e :: e in p.edges && WaitsOn(p, e, id) ==> SourceDone(p, st, e.source.node)
  }

  predicate LeftToFanOut(p: PipelineDef, id: Id) {
    var region := CollectionRegionFor(p.loops, id);
    region.Some? && FedFromOutside(p, region.value, id)
  }

  predicate IsReady(p: PipelineDef, st: RunView, n: Node) {
    && IsSpawnable(n.nodeType)
    && n.id !in st.nodes
    && !LeftToFanOut(p, n.id)
    && (HasIncoming(p, n.id) ==> HasUnconditionalIncoming(p, n.id))
    && AllSourcesDone(p, st, n.id)
  }

  /** The ready nodes, in node order. */
  function ReadyAmong(p: PipelineDef, st: RunView, nodes: seq<Node>): seq<Id> {
    if nodes == [] then []
    else
      var last := nodes[|nodes| - 1];
      ReadyAmong(p, st, nodes[..|nodes| - 1]) + if IsReady(p, st, last) then [last.id] else []
  }

  lemma {:induction false} ReadyAmongAre(p: PipelineDef, st: RunView, nodes: seq<Node>)
    ensures forall id :: id in ReadyAmong(p, st, nodes) <==> exists n :: n in nodes && n.id == id && IsReady(p, st, n)
  {
    if nodes != [] {
      ReadyAmongAre(p, st, nodes[..|nodes| - 1]);
      assert nodes == nodes[..|nodes| - 1] + [nodes[|nodes| - 1]];
    }
  }

  method ReadyNodes(p: PipelineDef, st: RunView) returns (ready: seq<Id>)
    ensures ready == ReadyAmong(p, st, p.nodes)
  {
    ready := [];
    for i := 0 to |p.nodes|
      invariant ready == ReadyAmong(p, st, p.nodes[..i])
    {
      var node := p.nodes[i];
      assert p.nodes[..i + 1][..i] == p.nodes[..i];
      if !IsSpawnable(node.nodeType) {
        continue;
      }
      if node.id in st.nodes {
        continue;
      }
      var region := CollectionRegionFor(p.loops, node.id);
      if region.Some? && FedFromOutside(p, region.value, node.id) {
        continue;
      }
      if HasIncoming(p, node.id) && !HasUnconditionalIncoming(p, node.id) {
        continue;
      }
      if AllSourcesDone(p, st, node.id) {
        ready := ready + [node.id];
      }
    }
    assert p.nodes[..|p.nodes|] == p.nodes;
  }

  // ---------------------------------------------------------------------------
  // Runs driven by the sweep

  datatype Event = Spawn(id: Id) | Settle(id: Id, outcome: NodeStatus)

  /** A sweep spawns one ready node; a session settles one node that is running. */
  ghost predicate Step(p: PipelineDef, s: RunView, e: Event, t: RunView) {
    match e
    case Spawn(id) =>
      id in ReadyAmong(p, s, p.nodes) && t == s.(nodes := s.nodes[id := NodeRunning])
    case Settle(id, outcome) =>
      && id in s.nodes && !s.nodes[id].IsSettledComplete() && outcome.IsSettledComplete()
      && t == s.(nodes := s.nodes[id := outcome])
  }

  ghost predicate IsRun(p: PipelineDef, events: seq<Event>, states: seq<RunView>) {
    && |states| == |events| + 1
    && states[0].nodes == map[]
    && forall i :: 0 <= i < |events| ==> Step(p, states[i], events[i], states[i + 1])
  }

  /** Nothing more can happen: no node is ready and none is running. */
  ghost predicate Quiescent(p: PipelineDef, s: RunView) {
    forall e, t :: !Step(p, s, e, t)
  }

  ghost function SpawnableIds(p: PipelineDef): set<Id> {
    set n | n in p.nodes && IsSpawnable(n.nodeType) :: n.id
  }

  ghost predicate AllSettled(p: PipelineDef, s: RunView) {
    forall id :: id in SpawnableIds(p) ==> id in s.nodes && s.nodes[id].IsSettledComplete()
  }

  /** The pipelines the no-stall theorem speaks of: every edge is unconditional and
      leaves a Start node or a spawnable one, and no region is a collection. */
  ghost predicate IsPlain(p: PipelineDef) {
    && UniqueIds(p)
    && (forall e :: e in p.edges ==> e.Unconditional())
    && (forall e :: e in p.edges ==> HasType(p, e.source.node, Start) || e.source.node in SpawnableIds(p))
    && (forall r :: r in p.loops ==> r.kind != Collection)
  }

  /** The edges a spawn waits on: between declared nodes, not out of a Start node. */
  ghost function WaitEdges(p: PipelineDef): EdgeSet {
    set e | e in p.edges && e.source.node in NodeIds(p) && e.target.node in NodeIds(p)
            && !HasType(p, e.source.node, Start)
      :: (e.source.node, e.target.node)
  }

  ghost predicate NoWaitCycle(p: PipelineDef) {
    forall u :: !OnClosedWalk(WaitEdges(p), u)
  }

  lemma {:induction false} NoRegionFor(regions: seq<LoopRegion>, id: Id)
    requires forall r :: r in regions ==> r.kind != Collection
    ensures CollectionRegionFor(regions, id) == None
  {
    if regions != [] {
      NoRegionFor(regions[1..], id);
    }
  }

  // ---------------------------------------------------------------------------
  // Safety over every run

  /** A started node never leaves the run's node map, and a settled one stays settled. */
  lemma {:induction false} NodesOnlyProgress(p: PipelineDef, events: seq<Event>, states: seq<RunView>,
                                             i: nat, j: nat, id: Id)
    requires IsRun(p, events, states) && i <= j < |states| && id in states[i].nodes
    ensures id in states[j].nodes
    ensures states[i].nodes[id].IsSettledComplete() ==> states[j].nodes[id] == states[i].nodes[id]
    decreases j - i
  {
    if i < j {
      assert Step(p, states[i], events[i], states[i + 1]);
      ReadyAmongAre(p, states[i], p.nodes);
      NodesOnlyProgress(p, events, states, i + 1, j, id);
    }
  }

  /** No node is ever spawned twice. */
  lemma SpawnedOnce(p: PipelineDef, events: seq<Event>, states: seq<RunView>, i: nat, j: nat)
    requires IsRun(p, events, states) && i < j < |events|
    requires events[i].Spawn? && events[j].Spawn?
    ensures events[i].id != events[j].id
  {
    assert Step(p, states[i], events[i], states[i + 1]);
    assert Step(p, states[j], events[j], states[j + 1]);
    NodesOnlyProgress(p, events, states, i + 1, j, events[i].id);
    ReadyAmongAre(p, states[j], p.nodes);
  }

  /** Whatever the pipeline, a node is spawned only when every source of an unconditional
      edge into it has settled, Start nodes and collection members aside. */
  lemma SpawnedAfterSources(p: PipelineDef, events: seq<Event>, states: seq<RunView>, i: nat, e: Edge)
    requires IsRun(p, events, states) && i < |events| && events[i].Spawn?
    requires e in p.edges && WaitsOn(p, e, events[i].id) && CollectionRegionFor(p.loops, e.source.node) == None
    ensures e.source.node in states[i].nodes && states[i].nodes[e.source.node].IsSettledComplete()
  {
    assert Step(p, states[i], events[i], states[i + 1]);
    ReadyAmongAre(p, states[i], p.nodes);
    var n :| n in p.nodes && n.id == events[i].id && IsReady(p, states[i], n);
    assert SourceDone(p, states[i], e.source.node);
  }

  ghost function Started(s: RunView): set<Id> {
    s.nodes.Keys
  }

  ghost function Settled(s: RunView): set<Id> {
    set id | id in s.nodes && s.nodes[id].IsSettledComplete()
  }

  /** Each event starts or settles exactly one node, so a run of the sweep is
      never longer than twice the number of spawnable nodes. */
  lemma {:induction false} RunLength(p: PipelineDef, events: seq<Event>, states: seq<RunView>)
    requires IsRun(p, events, states)
    ensures var s := states[|states| - 1];
            && Started(s) <= SpawnableIds(p)
            && |events| == |Started(s)| + |Settled(s)|
            && |events| <= 2 * |SpawnableIds(p)|
  {
    var s := states[|states| - 1];
    if |events| == 0 {
      assert Started(s) == {} && Settled(s) == {};
    } else {
      var k := |events| - 1;
      var before, e := states[k], events[k];
      assert IsRun(p, events[..k], states[..k + 1]);
      RunLength(p, events[..k], states[..k + 1]);
      assert Step(p, before, e, s);
      ReadyAmongAre(p, before, p.nodes);
      if e.Spawn? {
        assert Started(s) == Started(before) + {e.id};
        assert Settled(s) == Settled(before);
      } else {
        assert Started(s) == Started(before);
        assert Settled(s) == Settled(before) + {e.id};
      }
    }
    SubsetSize(Started(s), SpawnableIds(p));
    SubsetSize(Settled(s), Started(s));
  }

  lemma {:induction false} SubsetSize(a: set<Id>, b: set<Id>)
    requires a <= b
    ensures |a| <= |b|
    ensures |a| == |b| ==> a == b
  {
    if a != {} {
      var x :| x in a;
      SubsetSize(a - {x}, b - {x});
    }
  }

  // ---------------------------------------------------------------------------
  // Progress

  ghost function Below(g: EdgeSet, s: set<Id>, u: Id): set<Id> {
    set w | w in s && Reaches(g, u, w)
  }

  /** Where every member of a finite set has a predecessor in the set, walking
      backwards must close a walk: each step back sees strictly more below it. */
  lemma {:induction false} BackwardsClosesWalk(g: EdgeSet, s: set<Id>, u: Id) returns (c: Id)
    requires u in s
    requires forall v :: v in s ==> exists w :: w in s && (w, v) in g
    ensures OnClosedWalk(g, c)
    decreases |s| - |Below(g, s, u)|
  {
    hide Reaches;
    var w :| w in s && (w, u) in g;
    if Reaches(g, u, w) {
      return w;
    }
    ReachesByEdge(g, w, u);
    ReachesSelf(g, w);
    forall x | x in Below(g, s, u)
      ensures x in Below(g, s, w)
    {
      ReachesTransitive(g, w, u, x);
    }
    SubsetSize(Below(g, s, u), Below(g, s, w));
    SubsetSize(Below(g, s, w), s);
    assert w in Below(g, s, w) && w !in Below(g, s, u);
    c := BackwardsClosesWalk(g, s, w);
  }

  /** A spawnable node that is not started and not ready waits on another such node. */
  lemma WaitsOnAnother(p: PipelineDef, s: RunView, id: Id) returns (w: Id)
    requires IsPlain(p) && id in SpawnableIds(p) && id !in s.nodes
    requires Quiescent(p, s)
    ensures w in SpawnableIds(p) && w !in s.nodes && (w, id) in WaitEdges(p)
  {
    var n :| n in p.nodes && IsSpawnable(n.nodeType) && n.id == id;
    ReadyAmongAre(p, s, p.nodes);
    NoRegionFor(p.loops, id);
    QuiescentNotReady(p, s, n);
    var e :| e in p.edges && WaitsOn(p, e, id) && !SourceDone(p, s, e.source.node);
    w := e.source.node;
    NoRegionFor(p.loops, w);
    QuiescentSettled(p, s);
  }

  lemma ReadyCanSpawn(p: PipelineDef, s: RunView, n: Node)
    requires n in p.nodes && IsReady(p, s, n)
    ensures Step(p, s, Spawn(n.id), s.(nodes := s.nodes[n.id := NodeRunning]))
  {
    ReadyAmongAre(p, s, p.nodes);
  }

  lemma QuiescentNotReady(p: PipelineDef, s: RunView, n: Node)
    requires n in p.nodes && Quiescent(p, s)
    ensures !IsReady(p, s, n)
  {
    if IsReady(p, s, n) {
      ReadyCanSpawn(p, s, n);
    }
  }

  lemma QuiescentSettled(p: PipelineDef, s: RunView)
    requires Quiescent(p, s)
    ensures forall id :: id in s.nodes ==> s.nodes[id].IsSettledComplete()
  {
    forall id | id in s.nodes
      ensures s.nodes[id].IsSettledComplete()
    {
      assert !Step(p, s, Settle(id, NodeCompleted), s.(nodes := s.nodes[id := NodeCompleted]));
    }
  }

  /** No silent stall: without a waiting cycle, a state in which nothing can
      happen is one in which every spawnable node has settled. */
  lemma QuiescentMeansSettled(p: PipelineDef, s: RunView)
    requires IsPlain(p) && NoWaitCycle(p) && Quiescent(p, s)
    ensures AllSettled(p, s)
  {
    hide OnClosedWalk, Quiescent, IsPlain, WaitEdges;
    var left := SpawnableIds(p) - s.nodes.Keys;
    if u :| u in left {
      forall v | v in left
        ensures exists w :: w in left && (w, v) in WaitEdges(p)
      {
        var w := WaitsOnAnother(p, s, v);
        assert w in left;
      }
      var c := BackwardsClosesWalk(WaitEdges(p), left, u);
    }
    QuiescentSettled(p, s);
    forall id | id in SpawnableIds(p)
      ensures id in s.nodes
    {
      assert id !in left;
    }
  }

  // ---------------------------------------------------------------------------
  // Necessity

  lemma ClosedWalkHasPredecessor(g: EdgeSet, u: Id) returns (w: Id)
    requires OnClosedWalk(g, u)
    ensures (w, u) in g && OnClosedWalk(g, w)
  {
    var v :| (u, v) in g && Reaches(g, v, u);
    var q :| Joins(g, q, v, u);
    if |q| == 1 {
      w := u;
    } else {
      w := q[|q| - 2];
      assert (q[|q| - 2], q[|q| - 1]) in g;
      assert Joins(g, q[..|q| - 1], v, w);
      ReachesByEdge(g, u, v);
      ReachesTransitive(g, u, v, w);
    }
  }

  /** A node on a waiting cycle is never spawned, whatever the run does. */
  lemma {:induction false} WaitCycleNeverStarts(p: PipelineDef, events: seq<Event>, states: seq<RunView>,
                                                i: nat, u: Id)
    requires IsPlain(p) && IsRun(p, events, states) && i < |states|
    requires OnClosedWalk(WaitEdges(p), u)
    ensures u !in states[i].nodes
    decreases i
  {
    hide OnClosedWalk;
    if i > 0 {
      WaitCycleNeverStarts(p, events, states, i - 1, u);
      assert Step(p, states[i - 1], events[i - 1], states[i]);
      if events[i - 1] == Spawn(u) {
        var w := ClosedWalkHasPredecessor(WaitEdges(p), u);
        var e :| e in p.edges && e.source.node == w && e.target.node == u && !HasType(p, w, Start);
        WaitCycleNeverStarts(p, events, states, i - 1, w);
        NoRegionFor(p.loops, w);
        SpawnedAfterSources(p, events, states, i - 1, e);
        assert false;
      }
    }
  }

  /** The main theorem. Every run of the sweep that can go no further has settled
      every spawnable node exactly when no node waits on itself; the run then
      spawned each spawnable node once and settled it once. */
  lemma NoSilentStall(p: PipelineDef, events: seq<Event>, states: seq<RunView>)
    requires IsPlain(p) && IsRun(p, events, states) && Quiescent(p, states[|states| - 1])
    ensures AllSettled(p, states[|states| - 1]) <==> NoWaitCycle(p)
    ensures NoWaitCycle(p) ==> |events| == 2 * |SpawnableIds(p)|
  {
    hide OnClosedWalk;
    var s := states[|states| - 1];
    if NoWaitCycle(p) {
      QuiescentMeansSettled(p, s);
      RunLength(p, events, states);
      assert Started(s) == SpawnableIds(p) && Settled(s) == SpawnableIds(p);
    } else {
      var u :| OnClosedWalk(WaitEdges(p), u);
      WaitCycleNeverStarts(p, events, states, |states| - 1, u);
      var w := ClosedWalkHasPredecessor(WaitEdges(p), u);
      var w' := ClosedWalkHasPredecessor(WaitEdges(p), w);
      WaitCycleNeverStarts(p, events, states, |states| - 1, w);
      assert w in SpawnableIds(p);
    }
  }

  /** An empty cycle list rules waiting cycles out. */
  lemma NoCyclesNoWaiting(p: PipelineDef, cycles: seq<seq<Id>>)
    requires UniqueIds(p) && IsCycleList(p, cycles) && cycles == []
    ensures NoWaitCycle(p)
  {
    NoCyclesMeansAcyclic(p, cycles);
    forall u
      ensures !OnClosedWalk(WaitEdges(p), u)
    {
      if OnClosedWalk(WaitEdges(p), u) {
        ClosedWalkMonotone(WaitEdges(p), DeclaredEdges(p), u);
      }
    }
  }

  /** A run over a pipeline in which cycle detection finds nothing never stalls. */
  lemma NoCyclesNoStall(p: PipelineDef, cycles: seq<seq<Id>>, events: seq<Event>, states: seq<RunView>)
    requires IsPlain(p) && IsCycleList(p, cycles) && cycles == []
    requires IsRun(p, events, states) && Quiescent(p, states[|states| - 1])
    ensures AllSettled(p, states[|states| - 1]) && |events| == 2 * |SpawnableIds(p)|
  {
    NoCyclesNoWaiting(p, cycles);
    NoSilentStall(p, events, states);
  }

  /** Spawning one ready node leaves every other ready node ready, so a sweep may
      spawn its whole list. */
  lemma ReadyStaysReady(p: PipelineDef, s: RunView, a: Node, b: Node)
    requires IsReady(p, s, a) && IsReady(p, s, b) && a.id != b.id
    ensures IsReady(p, s.(nodes := s.nodes[a.id := NodeRunning]), b)
  {
    var t := s.(nodes := s.nodes[a.id := NodeRunning]);
    forall e | e in p.edges && WaitsOn(p, e, b.id)
      ensures SourceDone(p, t, e.source.node)
    {
      assert SourceDone(p, s, e.source.node);
    }
  }

  // ---------------------------------------------------------------------------
  // Gates of the general pipeline

  /** A spawnable root that has not started is ready, unless a fan-out owns it. */
  lemma RootsAreReady(p: PipelineDef, st: RunView, n: Node)
    requires n in p.nodes && IsSpawnable(n.nodeType) && n.id !in st.nodes && !HasIncoming(p, n.id)
    ensures n.id in ReadyAmong(p, st, p.nodes)
  {
    ReadyAmongAre(p, st, p.nodes);
  }

  /** A node all of whose incoming edges are conditional is left to edge routing. */
  lemma GuardedNodesWait(p: PipelineDef, st: RunView, id: Id)
    requires HasIncoming(p, id) && forall e :: e in p.edges && e.target.node == id ==> !e.Unconditional()
    ensures id !in ReadyAmong(p, st, p.nodes)
  {
    ReadyAmongAre(p, st, p.nodes);
  }

  /** Nothing fed by a member of a collection is ready until that collection is done
      as a whole. */
  lemma CollectionIsBarrier(p: PipelineDef, st: RunView, e: Edge, r: LoopRegion)
    requires e in p.edges && e.Unconditional() && !HasType(p, e.source.node, Start)
    requires CollectionRegionFor(p.loops, e.source.node) == Some(r)
    requires e.target.node in ReadyAmong(p, st, p.nodes)
    ensures r.id in st.collectionDone && st.collectionDone[r.id]
  {
    ReadyAmongAre(p, st, p.nodes);
    var n :| n in p.nodes && n.id == e.target.node && IsReady(p, st, n);
    assert WaitsOn(p, e, n.id);
    assert SourceDone(p, st, e.source.node);
  }

  // ---------------------------------------------------------------------------
  // The sweep, said of the pipeline document

  /** The region of this index is the first collection that lists the node. */
  ghost predicate IsCollectionOf(p: PipelineDef, k: nat, id: Id) {
    && k < |p.loops| && p.loops[k].kind.Collection? && id in p.loops[k].members
    && forall j :: 0 <= j < k && p.loops[j].kind.Collection? ==> id !in p.loops[j].members
  }

  ghost predicate InNoCollection(p: PipelineDef, id: Id) {
    forall j :: 0 <= j < |p.loops| && p.loops[j].kind.Collection? ==> id !in p.loops[j].members
  }

  ghost predicate IsDeclaredStart(p: PipelineDef, id: Id) {
    exists n :: n in p.nodes && n.id == id && n.nodeType.Start?
  }

  /** An edge the run waits on before it may spawn the target. */
  ghost predicate Awaited(p: PipelineDef, e: Edge, id: Id) {
    e in p.edges && e.target.node == id && e.when.None? && !e.isElse && !IsDeclaredStart(p, e.source.node)
  }

  /** A collection has delivered once it is done as a whole, any other node once it has
      completed or been skipped. */
  ghost predicate Delivered(p: PipelineDef, st: RunView, id: Id) {
    || (exists k: nat :: IsCollectionOf(p, k, id)
                         && p.loops[k].id in st.collectionDone && st.collectionDone[p.loops[k].id])
    || (InNoCollection(p, id) && id in st.nodes && st.nodes[id] in {NodeCompleted, NodeSkipped})
  }

  /** An edge from outside the member's collection, not from a Start node. */
  ghost predicate FedAcross(p: PipelineDef, k: nat, e: Edge, id: Id)
    requires k < |p.loops|
  {
    && e in p.edges && e.target.node == id
    && e.source.node !in p.loops[k].members && !IsDeclaredStart(p, e.source.node)
  }

  lemma {:induction false} RegionByIndex(regions: seq<LoopRegion>, id: Id) returns (k: nat)
    ensures k <= |regions|
    ensures forall j :: 0 <= j < k && regions[j].kind.Collection? ==> id !in regions[j].members
    ensures k == |regions| ==> CollectionRegionFor(regions, id) == None
    ensures k < |regions| ==>
              && regions[k].kind.Collection? && id in regions[k].members
              && CollectionRegionFor(regions, id) == Some(regions[k])
  {
    k := 0;
    if regions != [] && !(regions[0].kind.Collection? && id in regions[0].members) {
      var rest := RegionByIndex(regions[1..], id);
      k := rest + 1;
      assert forall j :: 1 <= j < |regions| ==> regions[1..][j - 1] == regions[j];
    }
  }

  lemma CollectionFound(p: PipelineDef, k: nat, id: Id)
    requires IsCollectionOf(p, k, id)
    ensures CollectionRegionFor(p.loops, id) == Some(p.loops[k])
  {
    var j := RegionByIndex(p.loops, id);
  }

  lemma DeliveredIsDone(p: PipelineDef, st: RunView, id: Id)
    ensures Delivered(p, st, id) <==> SourceDone(p, st, id)
  {
    var k := RegionByIndex(p.loops, id);
    if k < |p.loops| {
      assert IsCollectionOf(p, k, id);
    }
    forall j: nat | IsCollectionOf(p, j, id)
      ensures CollectionRegionFor(p.loops, id) == Some(p.loops[j])
    {
      CollectionFound(p, j, id);
    }
  }

  /** A node is swept exactly when it is an agent or a script that has not started, no
      edge crosses into its collection to it, it has an unconditional edge or none at
      all, and everything it waits on has delivered. */
  lemma SweptIff(p: PipelineDef, st: RunView, n: Node)
    requires UniqueIds(p) && n in p.nodes
    ensures n.id in ReadyAmong(p, st, p.nodes)
            <==> && n.nodeType in {Agent, Script} && n.id !in st.nodes
                 && (forall k: nat, e :: IsCollectionOf(p, k, n.id) ==> !FedAcross(p, k, e, n.id))
                 && ((exists e :: e in p.edges && e.target.node == n.id) ==>
                       exists e :: e in p.edges && e.target.node == n.id && e.when.None? && !e.isElse)
                 && (forall e :: Awaited(p, e, n.id) ==> Delivered(p, st, e.source.node))
  {
    ReadyAmongAre(p, st, p.nodes);
    assert n.id in ReadyAmong(p, st, p.nodes) <==> IsReady(p, st, n);
    FanOutIff(p, n.id);
    forall e
      ensures e in p.edges && WaitsOn(p, e, n.id) <==> Awaited(p, e, n.id)
      ensures Delivered(p, st, e.source.node) <==> SourceDone(p, st, e.source.node)
    {
      DeliveredIsDone(p, st, e.source.node);
    }
    hide SourceDone, Delivered, WaitsOn, Awaited, LeftToFanOut, FedAcross;
  }

  lemma FanOutIff(p: PipelineDef, id: Id)
    ensures LeftToFanOut(p, id) <==> exists k: nat, e :: IsCollectionOf(p, k, id) && FedAcross(p, k, e, id)
  {
    var k := RegionByIndex(p.loops, id);
    if k < |p.loops| {
      assert IsCollectionOf(p, k, id);
      if FedFromOutside(p, p.loops[k], id) {
        var e :| e in p.edges && e.target.node == id && e.source.node !in p.loops[k].members
                 && !HasType(p, e.source.node, Start);
        assert FedAcross(p, k, e, id);
      }
    }
    if j: nat, e :| IsCollectionOf(p, j, id) && FedAcross(p, j, e, id) {
      CollectionFound(p, j, id);
    }
  }

  /** A member fed from outside its collection is left to the fan-out: whatever the run
      has done, it is never swept. */
  lemma FanOutNeverSwept(p: PipelineDef, st: RunView, k: nat, e: Edge, id: Id)
    requires IsCollectionOf(p, k, id) && FedAcross(p, k, e, id)
    ensures id !in ReadyAmong(p, st, p.nodes)
  {
    FanOutIff(p, id);
    ReadyAmongAre(p, st, p.nodes);
  }

  /** A member fed by nothing but Start nodes and its own collection is not left behind:
      it is swept as soon as what it waits on has delivered. */
  lemma InnerMemberSwept(p: PipelineDef, st: RunView, k: nat, n: Node)
    requires UniqueIds(p) && n in p.nodes && n.nodeType in {Agent, Script} && n.id !in st.nodes
    requires IsCollectionOf(p, k, n.id) && forall e :: !FedAcross(p, k, e, n.id)
    requires (forall e :: e in p.edges ==> e.target.node != n.id)
             || exists e :: e in p.edges && e.target.node == n.id && e.when.None? && !e.isElse
    requires forall e :: Awaited(p, e, n.id) ==> Delivered(p, st, e.source.node)
    ensures n.id in ReadyAmong(p, st, p.nodes)
  {
    hide FedAcross, Delivered, Awaited;
    forall j: nat, e | IsCollectionOf(p, j, n.id)
      ensures !FedAcross(p, j, e, n.id)
    {
      assert j == k;
    }
    SweptIff(p, st, n);
  }
}
