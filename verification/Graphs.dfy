/** Finite directed graphs as edge sets, and what it means to reach a node.
    Every traversal of the pipeline is specified against this one notion. */
module Graphs {

  type Id = string
  type EdgeSet = set<(Id, Id)>

  ghost predicate IsPath(g: EdgeSet, p: seq<Id>) {
    |p| > 0 && forall i :: 0 <= i < |p| - 1 ==> (p[i], p[i + 1]) in g
  }

  ghost predicate Joins(g: EdgeSet, p: seq<Id>, u: Id, v: Id) {
    IsPath(g, p) && p[0] == u && p[|p| - 1] == v
  }

  /** `v` is reachable from `u` along zero or more edges. */
  ghost predicate Reaches(g: EdgeSet, u: Id, v: Id) {
    exists p :: Joins(g, p, u, v)
  }

  /** `u` lies on a closed walk of at least one edge. */
  ghost predicate OnClosedWalk(g: EdgeSet, u: Id) {
    exists w :: (u, w) in g && Reaches(g, w, u)
  }

  /** Each of the two nodes reaches the other. */
  ghost predicate Mutual(g: EdgeSet, u: Id, v: Id) {
    Reaches(g, u, v) && Reaches(g, v, u)
  }

  ghost predicate ClosedUnder(g: EdgeSet, s: set<Id>) {
    forall x, y :: (x, y) in g && x in s ==> y in s
  }

  lemma ReachesSelf(g: EdgeSet, u: Id)
    ensures Reaches(g, u, u)
  {
    assert Joins(g, [u], u, u);
  }

  lemma ReachesTransitive(g: EdgeSet, u: Id, v: Id, w: Id)
    requires Reaches(g, u, v) && Reaches(g, v, w)
    ensures Reaches(g, u, w)
  {
    var p :| Joins(g, p, u, v);
    var q :| Joins(g, q, v, w);
    assert Joins(g, p + q[1..], u, w);
  }

  lemma ReachesByEdge(g: EdgeSet, u: Id, v: Id)
    requires (u, v) in g
    ensures Reaches(g, u, v)
  {
    assert Joins(g, [u, v], u, v);
  }

  /** A walk that starts inside a set and ends outside it crosses an edge that
      leaves the set. */
  lemma {:induction false} LeavingEdge(g: EdgeSet, s: set<Id>, u: Id, v: Id) returns (x: Id, y: Id)
    requires u in s && v !in s && Reaches(g, u, v)
    ensures x in s && y !in s && (x, y) in g
    ensures Reaches(g, u, x) && Reaches(g, y, v)
  {
    var p :| Joins(g, p, u, v);
    var i := 0;
    while p[i + 1] in s
      invariant 0 <= i < |p| - 1 && p[i] in s
      decreases |p| - i
    {
      i := i + 1;
    }
    x, y := p[i], p[i + 1];
    assert Joins(g, p[..i + 1], u, x);
    assert Joins(g, p[i + 1..], y, v);
  }

  lemma ClosedHoldsReach(g: EdgeSet, s: set<Id>, u: Id, v: Id)
    requires ClosedUnder(g, s) && u in s && Reaches(g, u, v)
    ensures v in s
  {
    if v !in s {
      var x, y := LeavingEdge(g, s, u, v);
    }
  }

  /** A nonempty walk starts with an edge. */
  lemma FirstStep(g: EdgeSet, u: Id, v: Id) returns (w: Id)
    requires Reaches(g, u, v) && u != v
    ensures (u, w) in g && Reaches(g, w, v)
  {
    var p :| Joins(g, p, u, v);
    w := p[1];
    assert Joins(g, p[1..], w, v);
  }

  /** Reachability only grows with the edge set. */
  lemma ReachesMonotone(g: EdgeSet, h: EdgeSet, u: Id, v: Id)
    requires g <= h && Reaches(g, u, v)
    ensures Reaches(h, u, v)
  {
    var p :| Joins(g, p, u, v);
    assert Joins(h, p, u, v);
  }

  lemma ClosedWalkMonotone(g: EdgeSet, h: EdgeSet, u: Id)
    requires g <= h && OnClosedWalk(g, u)
    ensures OnClosedWalk(h, u)
  {
    var w :| (u, w) in g && Reaches(g, w, u);
    ReachesMonotone(g, h, w, u);
  }
}
