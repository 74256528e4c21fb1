/** The two worklist traversals of the pipeline graph: the forward slice a retry
    invalidates, and the body of a Loop node. */
module Traversals {
  import opened Graphs
  import opened Pipeline

  // ---------------------------------------------------------------------------
  // Retry slice

  ghost function KeptEdges(p: PipelineDef, excluded: set<nat>): EdgeSet {
    set i | 0 <= i < |p.edges| && i !in excluded :: (p.edges[i].source.node, p.edges[i].target.node)
  }

  ghost function TargetIds(p: PipelineDef): set<Id> {
    set e | e in p.edges :: e.target.node
  }

  /** The nodes other than the start that are reachable through non-excluded edges. */
  method DownstreamExcluding(p: PipelineDef, nodeId: Id, excluded: set<nat>) returns (downstream: set<Id>)
    ensures forall x :: x in downstream <==> x != nodeId && Reaches(KeptEdges(p, excluded), nodeId, x)
  {
    ghost var g := KeptEdges(p, excluded);
    ghost var universe := {nodeId} + TargetIds(p);
    var visited := {nodeId};
    var queue := [nodeId];
    ReachesSelf(g, nodeId);
    while queue != []
      invariant nodeId in visited && visited <= universe
      invariant forall x :: x in queue ==> x in visited
      invariant forall x :: x in visited ==> Reaches(g, nodeId, x)
      invariant forall x, y :: x in visited && x !in queue && (x, y) in g ==> y in visited
      decreases universe - visited, |queue|
    {
      hide Reaches;
      ghost var seen, pending := visited, queue[..|queue| - 1];
      var current := queue[|queue| - 1];
      queue := queue[..|queue| - 1];
      for idx := 0 to |p.edges|
        invariant seen <= visited <= universe
        invariant pending <= queue && (visited == seen ==> queue == pending)
        invariant forall x :: x in queue ==> x in visited
        invariant forall x :: x in visited ==> Reaches(g, nodeId, x)
        invariant forall x, y :: x in visited && x !in queue && x != current && (x, y) in g ==> y in visited
        invariant forall i :: 0 <= i < idx && i !in excluded && p.edges[i].source.node == current
                    ==> p.edges[i].target.node in visited
      {
        var edge := p.edges[idx];
        if idx !in excluded && edge.source.node == current {
          var target := edge.target.node;
          if target !in visited {
            assert (current, target) in g;
            ReachesByEdge(g, current, target);
            ReachesTransitive(g, nodeId, current, target);
            visited := visited + {target};
            queue := queue + [target];
          }
        }
      }
    }
    assert ClosedUnder(g, visited);
    forall x | Reaches(g, nodeId, x)
      ensures x in visited
    {
      ClosedHoldsReach(g, visited, nodeId, x);
    }
    downstream := visited - {nodeId};
  }

  /** Excluding more edges, all of which point at the start, changes no slice. */
  lemma ExcludingIntoStart(p: PipelineDef, nodeId: Id, less: set<nat>, more: set<nat>, x: Id)
    requires less <= more
    requires forall i :: i in more && i !in less && i < |p.edges| ==> p.edges[i].target.node == nodeId
    ensures Reaches(KeptEdges(p, less), nodeId, x) <==> Reaches(KeptEdges(p, more), nodeId, x)
  {
    hide Reaches;
    var g, h := KeptEdges(p, less), KeptEdges(p, more);
    if Reaches(h, nodeId, x) {
      ReachesMonotone(h, g, nodeId, x);
    }
    if Reaches(g, nodeId, x) {
      ReachesSelf(h, nodeId);
      var s := set y | y in {nodeId} + TargetIds(p) && Reaches(h, nodeId, y);
      forall a, b | (a, b) in g && a in s
        ensures b in s
      {
        var i :| 0 <= i < |p.edges| && i !in less && p.edges[i].source.node == a && p.edges[i].target.node == b;
        if i !in more {
          assert (a, b) in h;
          ReachesByEdge(h, a, b);
          ReachesTransitive(h, nodeId, a, b);
        }
        assert p.edges[i] in p.edges;
      }
      ClosedHoldsReach(g, s, nodeId, x);
    }
  }

  // ---------------------------------------------------------------------------
  // Loop body

  datatype BodyResolution =
    | Body(nodes: set<Id>)
    | LoopNotFound(id: Id)
    | EmptyBody(id: Id)
    | NoExitToBreakOrDone(id: Id)

  ghost predicate IsBodyTarget(p: PipelineDef, loopId: Id, t: Id) {
    exists e :: e in p.edges && e.source.node == loopId && "body" in e.source.ports && e.target.node == t
  }

  /** The edges a body walk follows: out of a node that is not a Loop, and not
      back into the loop itself. */
  ghost function BodyEdges(p: PipelineDef, loopId: Id): EdgeSet {
    set e | e in p.edges && e.target.node != loopId
            && (forall n :: n in p.nodes && n.id == e.source.node ==> !n.nodeType.Loop?)
      :: (e.source.node, e.target.node)
  }

  /** `s` holds the body targets and the successors of its members, Loop members
      excepted; the loop itself is never asked for. */
  ghost predicate HoldsBody(p: PipelineDef, loopId: Id, s: set<Id>) {
    && (forall t :: IsBodyTarget(p, loopId, t) && t != loopId ==> t in s)
    && ClosedUnder(BodyEdges(p, loopId), s)
  }

  ghost predicate IsLeastBody(p: PipelineDef, loopId: Id, body: set<Id>) {
    && HoldsBody(p, loopId, body)
    && loopId !in body
    && forall s :: HoldsBody(p, loopId, s) ==> body <= s
  }

  /** An edge back from the body to one of the loop's two ways out. */
  ghost predicate Exits(e: Edge, loopId: Id, body: set<Id>) {
    && e.source.node in body && e.target.node == loopId
    && e.target.port in ["break", "done"]
  }

  predicate HasExit(p: PipelineDef, loopId: Id, body: set<Id>) {
    exists e :: e in p.edges && e.source.node in body && e.target.node == loopId
                && (e.target.port == "break" || e.target.port == "done")
  }

  lemma LeastBodyUnique(p: PipelineDef, loopId: Id, a: set<Id>, b: set<Id>)
    requires IsLeastBody(p, loopId, a) && IsLeastBody(p, loopId, b)
    ensures a == b
  {
    assert a <= b && b <= a;
  }

  ghost predicate ReachedFromBody(p: PipelineDef, loopId: Id, x: Id) {
    exists t :: IsBodyTarget(p, loopId, t) && t != loopId && Reaches(BodyEdges(p, loopId), t, x)
  }

  lemma ReachedStep(p: PipelineDef, loopId: Id, x: Id, y: Id)
    requires ReachedFromBody(p, loopId, x) && (x, y) in BodyEdges(p, loopId)
    ensures ReachedFromBody(p, loopId, y)
  {
    hide Reaches;
    var g := BodyEdges(p, loopId);
    var t :| IsBodyTarget(p, loopId, t) && t != loopId && Reaches(g, t, x);
    ReachesByEdge(g, x, y);
    ReachesTransitive(g, t, x, y);
  }

  /** What is reached from the body targets lies in every set that holds the body. */
  lemma ReachedIsForced(p: PipelineDef, loopId: Id, x: Id, s: set<Id>)
    requires ReachedFromBody(p, loopId, x) && HoldsBody(p, loopId, s)
    ensures x in s
  {
    hide Reaches;
    var t :| IsBodyTarget(p, loopId, t) && t != loopId && Reaches(BodyEdges(p, loopId), t, x);
    ClosedHoldsReach(BodyEdges(p, loopId), s, t, x);
  }

  method BodyTargets(p: PipelineDef, loopId: Id) returns (targets: seq<Id>)
    ensures forall t :: t in targets <==> IsBodyTarget(p, loopId, t)
  {
    targets := [];
    for i := 0 to |p.edges|
      invariant forall t :: t in targets <==> IsBodyTarget(p.(edges := p.edges[..i]), loopId, t)
    {
      var e := p.edges[i];
      assert forall f :: f in p.edges[..i + 1] <==> f in p.edges[..i] || f == e;
      if e.source.node == loopId && "body" in e.source.ports {
        targets := targets + [e.target.node];
      }
    }
    assert p.edges[..|p.edges|] == p.edges;
  }

  /** The body of a Loop node, or the one error whose condition holds. */
  method ComputeBodySubgraph(p: PipelineDef, loopId: Id) returns (r: BodyResolution)
    ensures r.LoopNotFound? <==> forall n :: n in p.nodes && n.id == loopId ==> !n.nodeType.Loop?
    ensures r.EmptyBody? <==> !r.LoopNotFound? && forall t :: !IsBodyTarget(p, loopId, t)
    ensures r.NoExitToBreakOrDone? ==>
              exists b :: IsLeastBody(p, loopId, b) && forall e :: e in p.edges ==> !Exits(e, loopId, b)
    ensures r.Body? ==> IsLeastBody(p, loopId, r.nodes) && exists e :: e in p.edges && Exits(e, loopId, r.nodes)
    ensures !r.Body? ==> r.id == loopId
  {
    if !HasType(p, loopId, Loop) {
      return LoopNotFound(loopId);
    }
    var queue := BodyTargets(p, loopId);
    if queue == [] {
      return EmptyBody(loopId);
    }
    assert IsBodyTarget(p, loopId, queue[0]);
    var body := CollectBody(p, loopId, queue);
    if !HasExit(p, loopId, body) {
      return NoExitToBreakOrDone(loopId);
    }
    return Body(body);
  }

  /** The worklist invariant: only forced nodes are collected or queued, and
      whatever is still owed to the body is in the queue. */
  ghost predicate BodyWalk(p: PipelineDef, loopId: Id, targets: seq<Id>, body: set<Id>, queue: seq<Id>) {
    && body <= TargetIds(p)
    && loopId !in body
    && (forall x :: x in queue ==> x in TargetIds(p))
    && (forall x :: x in queue && x != loopId ==> ReachedFromBody(p, loopId, x))
    && (forall x :: x in body ==> ReachedFromBody(p, loopId, x))
    && (forall t :: t in targets && t != loopId ==> t in body || t in queue)
    && (forall x, y :: x in body && (x, y) in BodyEdges(p, loopId) ==> y in body || y in queue)
  }

  ghost predicate AreTargets(p: PipelineDef, loopId: Id, targets: seq<Id>) {
    forall t :: t in targets <==> IsBodyTarget(p, loopId, t)
  }

  lemma StartWalk(p: PipelineDef, loopId: Id, targets: seq<Id>)
    requires AreTargets(p, loopId, targets)
    ensures BodyWalk(p, loopId, targets, {}, targets)
  {
    forall t | t in targets && t != loopId
      ensures ReachedFromBody(p, loopId, t)
    {
      ReachesSelf(BodyEdges(p, loopId), t);
    }
  }

  /** Dropping a queue element that is the loop or already collected. */
  lemma DropLast(p: PipelineDef, loopId: Id, targets: seq<Id>, body: set<Id>, queue: seq<Id>)
    requires BodyWalk(p, loopId, targets, body, queue) && |queue| > 0
    requires queue[|queue| - 1] == loopId || queue[|queue| - 1] in body
    ensures BodyWalk(p, loopId, targets, body, queue[..|queue| - 1])
  {
    hide ReachedFromBody;
    assert forall x :: x in queue <==> x in queue[..|queue| - 1] || x == queue[|queue| - 1];
    NoEdgeIntoLoop(p, loopId);
  }

  lemma NoEdgeIntoLoop(p: PipelineDef, loopId: Id)
    ensures forall x :: (x, loopId) !in BodyEdges(p, loopId)
  {
  }

  lemma NoEdgeOutOfLoop(p: PipelineDef, loopId: Id, current: Id)
    requires HasType(p, current, Loop)
    ensures forall y :: (current, y) !in BodyEdges(p, loopId)
  {
  }

  /** Collecting the last queue element and queueing its successors. */
  lemma TakeLast(p: PipelineDef, loopId: Id, targets: seq<Id>, body: set<Id>, queue: seq<Id>, q: seq<Id>)
    requires BodyWalk(p, loopId, targets, body, queue) && |queue| > 0
    requires queue[|queue| - 1] != loopId && queue[..|queue| - 1] <= q
    requires forall x :: x in q && x !in queue[..|queue| - 1]
               ==> x in TargetIds(p) && ReachedFromBody(p, loopId, x)
    requires forall y :: (queue[|queue| - 1], y) in BodyEdges(p, loopId)
               ==> y in body || y == queue[|queue| - 1] || y in q
    ensures BodyWalk(p, loopId, targets, body + {queue[|queue| - 1]}, q)
  {
    hide ReachedFromBody;
    assert forall x :: x in queue <==> x in queue[..|queue| - 1] || x == queue[|queue| - 1];
    PrefixMembers(queue[..|queue| - 1], q);
  }

  lemma PrefixMembers(a: seq<Id>, b: seq<Id>)
    requires a <= b
    ensures forall x :: x in a ==> x in b
  {
  }

  lemma WalkBounds(p: PipelineDef, loopId: Id, targets: seq<Id>, body: set<Id>, queue: seq<Id>)
    requires BodyWalk(p, loopId, targets, body, queue) && |queue| > 0
    ensures body <= TargetIds(p) && queue[|queue| - 1] in TargetIds(p)
    ensures queue[|queue| - 1] != loopId ==> ReachedFromBody(p, loopId, queue[|queue| - 1])
  {
  }

  lemma OneFewer(universe: set<Id>, body: set<Id>, x: Id)
    requires x in universe
    ensures x in body ==> body + {x} == body
    ensures x !in body ==> universe - (body + {x}) < universe - body
  {
    if x !in body {
      assert x in universe - body;
    }
  }

  lemma WalkDone(p: PipelineDef, loopId: Id, targets: seq<Id>, body: set<Id>)
    requires AreTargets(p, loopId, targets)
    requires BodyWalk(p, loopId, targets, body, [])
    ensures IsLeastBody(p, loopId, body)
  {
    hide ReachedFromBody;
    forall s | HoldsBody(p, loopId, s)
      ensures body <= s
    {
      forall x | x in body
        ensures x in s
      {
        ReachedIsForced(p, loopId, x, s);
      }
    }
  }

  /** The worklist of the body walk. */
  method CollectBody(p: PipelineDef, loopId: Id, targets: seq<Id>) returns (body: set<Id>)
    requires HasType(p, loopId, Loop)
    requires AreTargets(p, loopId, targets)
    ensures IsLeastBody(p, loopId, body)
  {
    hide AreTargets, IsLeastBody, BodyWalk, IsBodyTarget, HasType, TargetIds, BodyEdges, ReachedFromBody;
    body := {};
    var queue := targets;
    StartWalk(p, loopId, targets);
    while queue != []
      invariant BodyWalk(p, loopId, targets, body, queue)
      decreases TargetIds(p) - body, |queue|
    {
      WalkBounds(p, loopId, targets, body, queue);
      ghost var before := queue;
      var current := queue[|queue| - 1];
      queue := queue[..|queue| - 1];
      if current == loopId {
        DropLast(p, loopId, targets, body, before);
        continue;
      }
      if HasType(p, current, Loop) {
        NoEdgeOutOfLoop(p, loopId, current);
        TakeLast(p, loopId, targets, body, before, queue);
        OneFewer(TargetIds(p), body, current);
        body := body + {current};
        continue;
      }
      if current in body {
        DropLast(p, loopId, targets, body, before);
        continue;
      }
      queue := PushTargets(p, loopId, current, body + {current}, queue);
      TakeLast(p, loopId, targets, body, before, queue);
      OneFewer(TargetIds(p), body, current);
      body := body + {current};
    }
    WalkDone(p, loopId, targets, body);
  }

  /** Pushes the targets of `current` that the body does not hold yet. */
  method PushTargets(p: PipelineDef, loopId: Id, current: Id, body: set<Id>, queue: seq<Id>) returns (q: seq<Id>)
    requires !HasType(p, current, Loop) && ReachedFromBody(p, loopId, current)
    ensures queue <= q
    ensures forall x :: x in q && x !in queue ==> x in TargetIds(p) && ReachedFromBody(p, loopId, x)
    ensures forall y :: (current, y) in BodyEdges(p, loopId) ==> y in body || y in q
  {
    hide ReachedFromBody;
    q := queue;
    for i := 0 to |p.edges|
      invariant queue <= q
      invariant forall x :: x in q && x !in queue ==> x in TargetIds(p) && ReachedFromBody(p, loopId, x)
      invariant forall j :: 0 <= j < i && p.edges[j].source.node == current && p.edges[j].target.node != loopId
                  ==> p.edges[j].target.node in body || p.edges[j].target.node in q
    {
      var edge := p.edges[i];
      if edge.source.node == current && edge.target.node != loopId && edge.target.node !in body {
        assert edge in p.edges && (current, edge.target.node) in BodyEdges(p, loopId);
        ReachedStep(p, loopId, current, edge.target.node);
        q := q + [edge.target.node];
      }
    }
  }
}
