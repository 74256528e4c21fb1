/** Cycle detection over the declared graph: the components Tarjan's search
    emits, filtered to the real cycles and put in node order. */
module DetectCycles {
  import opened Graphs
  import opened Pipeline
  import opened Sorting
  import opened Tarjan

  // ---------------------------------------------------------------------------
  // What the result means

  ghost predicate Together(cycles: seq<seq<Id>>, u: Id, v: Id) {
    exists c :: c in cycles && u in c && v in c
  }

  ghost predicate InSome(cycles: seq<seq<Id>>, u: Id) {
    exists c :: c in cycles && u in c
  }

  /** Strictly increasing positions in the node list: declared nodes, each once. */
  ghost predicate InNodeOrder(p: PipelineDef, c: seq<Id>)
    requires UniqueIds(p)
  {
    && (forall x :: x in c ==> x in NodeIds(p))
    && (forall i, j :: 0 <= i < j < |c| ==> Position(p, c[i]) < Position(p, c[j]))
  }

  /** Two nodes are listed together iff each reaches the other, and a node is
      listed iff it lies on a closed walk. */
  ghost predicate ListsTheCycles(p: PipelineDef, cycles: seq<seq<Id>>) {
    var g := DeclaredEdges(p);
    && (forall u, v :: u in NodeIds(p) && v in NodeIds(p) && u != v
          ==> (Together(cycles, u, v) <==> Mutual(g, u, v)))
    && (forall u :: u in NodeIds(p) ==> (InSome(cycles, u) <==> OnClosedWalk(g, u)))
  }

  /** No node is in two cycles; members and cycles come in node order. */
  ghost predicate InCanonicalOrder(p: PipelineDef, cycles: seq<seq<Id>>)
    requires UniqueIds(p)
  {
    && (forall c :: c in cycles ==> |c| > 0 && InNodeOrder(p, c))
    && (forall c, d, x :: c in cycles && d in cycles && x in c && x in d ==> c == d)
    && (forall i, j :: 0 <= i < j < |cycles| ==> FirstBefore(p, cycles[i], cycles[j]))
  }

  ghost predicate FirstBefore(p: PipelineDef, c: seq<Id>, d: seq<Id>)
    requires UniqueIds(p)
  {
    && |c| > 0 && |d| > 0 && c[0] in NodeIds(p) && d[0] in NodeIds(p)
    && Position(p, c[0]) < Position(p, d[0])
  }

  /** The specification of the result, free of any search order. */
  ghost predicate IsCycleList(p: PipelineDef, cycles: seq<seq<Id>>)
    requires UniqueIds(p)
  {
    ListsTheCycles(p, cycles) && InCanonicalOrder(p, cycles)
  }

  ghost function Position(p: PipelineDef, id: Id): (i: nat)
    requires UniqueIds(p) && id in NodeIds(p)
    ensures i < |p.nodes| && p.nodes[i].id == id
  {
    var i: nat :| i < |p.nodes| && p.nodes[i].id == id;
    i
  }

  // ---------------------------------------------------------------------------
  // The steps of the computation

  /** Missing ids sort last. */
  function KeyOf(order: map<Id, nat>, id: Id): nat {
    if id in order then order[id] else 0xFFFF_FFFF_FFFF_FFFF
  }

  function FirstKey(order: map<Id, nat>, c: seq<Id>): nat {
    if |c| > 0 then KeyOf(order, c[0]) else 0xFFFF_FFFF_FFFF_FFFF
  }

  function IsCycle(c: seq<Id>, selfEdge: set<Id>): bool {
    |c| >= 2 || (|c| > 0 && c[0] in selfEdge)
  }

  function SortMembers(order: map<Id, nat>, c: seq<Id>): (r: seq<Id>)
    ensures multiset(r) == multiset(c)
  {
    Sort(c, (x, y) => KeyOf(order, x) <= KeyOf(order, y))
  }

  /** Keeps the real cycles, with their members in node order. */
  function RealCycles(order: map<Id, nat>, selfEdge: set<Id>, sccs: seq<seq<Id>>): seq<seq<Id>> {
    if sccs == [] then []
    else (if IsCycle(sccs[0], selfEdge) then [SortMembers(order, sccs[0])] else [])
         + RealCycles(order, selfEdge, sccs[1..])
  }

  function SortCycles(order: map<Id, nat>, cycles: seq<seq<Id>>): (r: seq<seq<Id>>)
    ensures multiset(r) == multiset(cycles)
  {
    Sort(cycles, (c, d) => FirstKey(order, c) <= FirstKey(order, d))
  }

  method NodeOrder(p: PipelineDef) returns (order: map<Id, nat>)
    requires UniqueIds(p)
    ensures order.Keys == NodeIds(p)
    ensures forall x :: x in order ==> order[x] == Position(p, x)
  {
    order := map[];
    for i := 0 to |p.nodes|
      invariant forall x :: x in order <==> exists j :: 0 <= j < i && p.nodes[j].id == x
      invariant forall j :: 0 <= j < i ==> p.nodes[j].id in order && order[p.nodes[j].id] == j
    {
      order := order[p.nodes[i].id := i];
    }
    forall x | x in NodeIds(p)
      ensures x in order
    {
      assert p.nodes[Position(p, x)].id == x;
    }
  }

  /** The pipeline cut down to its first `k` edges. */
  ghost function FirstEdges(p: PipelineDef, k: nat): PipelineDef
    requires k <= |p.edges|
  {
    p.(edges := p.edges[..k])
  }

  lemma OneMoreEdge(p: PipelineDef, k: nat)
    requires k < |p.edges|
    ensures var e := p.edges[k];
            DeclaredEdges(FirstEdges(p, k + 1))
            == DeclaredEdges(FirstEdges(p, k))
               + if e.source.node in NodeIds(p) && e.target.node in NodeIds(p)
                 then {(e.source.node, e.target.node)} else {}
  {
    assert p.edges[..k + 1] == p.edges[..k] + [p.edges[k]];
    assert forall e :: e in p.edges[..k + 1] <==> e in p.edges[..k] || e == p.edges[k];
  }

  lemma OneMoreTarget(adj: Adjacency, v: Id, w: Id)
    ensures EdgesOf(adj[v := Targets(adj, v) + [w]]) == EdgesOf(adj) + {(v, w)}
  {
  }

  method BuildGraph(p: PipelineDef, order: map<Id, nat>)
    returns (adj: Adjacency, selfEdge: set<Id>)
    requires order.Keys == NodeIds(p)
    ensures EdgesOf(adj) == DeclaredEdges(p)
    ensures forall x :: x in selfEdge <==> (x, x) in DeclaredEdges(p)
  {
    adj, selfEdge := map[], {};
    for k := 0 to |p.edges|
      invariant EdgesOf(adj) == DeclaredEdges(FirstEdges(p, k))
      invariant forall x :: x in selfEdge <==> (x, x) in DeclaredEdges(FirstEdges(p, k))
    {
      var s, t := p.edges[k].source.node, p.edges[k].target.node;
      OneMoreEdge(p, k);
      if s in order && t in order {
        if s == t {
          selfEdge := selfEdge + {s};
        }
        OneMoreTarget(adj, s, t);
        adj := adj[s := Targets(adj, s) + [t]];
      }
    }
    assert FirstEdges(p, |p.edges|) == p;
  }

  /** All components of the declared graph, by one search from each unseen node. */
  method Components(p: PipelineDef, adj: Adjacency) returns (sccs: seq<seq<Id>>)
    requires EdgesOf(adj) == DeclaredEdges(p)
    ensures forall c :: c in sccs ==> IsComponent(DeclaredEdges(p), c)
    ensures forall x :: x in NodeIds(p) <==> InComponent(sccs, x)
    ensures forall i, j, x :: 0 <= i < j < |sccs| && x in sccs[i] ==> x !in sccs[j]
  {
    ghost var g, all := DeclaredEdges(p), NodeIds(p);
    var search := new Search(adj);
    for i := 0 to |p.nodes|
      invariant Inv(g, all, search.Snap()) && search.open == {}
      invariant search.adj == adj
      invariant forall j :: 0 <= j < i ==> p.nodes[j].id in search.index
    {
      var id := p.nodes[i].id;
      if id !in search.index {
        search.StrongConnect(id, all);
      }
    }
    ghost var s := search.Snap();
    EmptyStack(g, s);
    forall x
      ensures x in all <==> InComponent(s.sccs, x)
    {
      if x in all {
        var n :| n in p.nodes && n.id == x;
        assert x in s.index && x !in s.onStack;
      }
    }
    sccs := search.sccs;
  }

  /** With no call in progress nothing is left on the stack. */
  lemma EmptyStack(g: EdgeSet, s: Snapshot)
    requires StackOk(s) && StackReach(g, s) && s.open == {}
    ensures s.onStack == {}
  {
    forall y
      ensures y !in s.onStack
    {
      if y in s.index {
        assert !ReachesOpenBelow(g, s.open, s.index, y);
      }
    }
  }

  // ---------------------------------------------------------------------------
  // From components to the cycle list

  /** Distinct components covering exactly the declared nodes. */
  ghost predicate IsPartition(p: PipelineDef, sccs: seq<seq<Id>>) {
    && (forall c :: c in sccs ==> IsComponent(DeclaredEdges(p), c))
    && (forall x :: x in NodeIds(p) <==> InComponent(sccs, x))
    && (forall i, j, x :: 0 <= i < j < |sccs| && x in sccs[i] ==> x !in sccs[j])
  }

  lemma SameMembers(order: map<Id, nat>, c: seq<Id>)
    ensures |SortMembers(order, c)| == |c|
    ensures forall x :: x in SortMembers(order, c) <==> x in c
  {
    var r := SortMembers(order, c);
    assert |multiset(r)| == |multiset(c)|;
    assert forall x :: x in r <==> x in multiset(r);
    assert forall x :: x in c <==> x in multiset(c);
  }

  ghost predicate FromCycle(order: map<Id, nat>, selfEdge: set<Id>, sccs: seq<seq<Id>>, d: seq<Id>) {
    exists c :: c in sccs && IsCycle(c, selfEdge) && d == SortMembers(order, c)
  }

  lemma {:induction false} RealCyclesAre(order: map<Id, nat>, selfEdge: set<Id>, sccs: seq<seq<Id>>)
    ensures forall d :: d in RealCycles(order, selfEdge, sccs) <==> FromCycle(order, selfEdge, sccs, d)
  {
    if sccs != [] {
      RealCyclesAre(order, selfEdge, sccs[1..]);
      assert sccs == [sccs[0]] + sccs[1..];
      forall d
        ensures d in RealCycles(order, selfEdge, sccs) <==> FromCycle(order, selfEdge, sccs, d)
      {
        if d in RealCycles(order, selfEdge, sccs[1..]) {
          var c :| c in sccs[1..] && IsCycle(c, selfEdge) && d == SortMembers(order, c);
          assert c in sccs;
        }
      }
    }
  }

  lemma {:induction false} RealCyclesOnce(order: map<Id, nat>, selfEdge: set<Id>, sccs: seq<seq<Id>>)
    requires forall c :: c in sccs ==> |c| > 0
    requires forall i, j, x :: 0 <= i < j < |sccs| && x in sccs[i] ==> x !in sccs[j]
    ensures NoRepeats(RealCycles(order, selfEdge, sccs))
  {
    if sccs != [] {
      RealCyclesOnce(order, selfEdge, sccs[1..]);
      HeadNotRepeated(order, selfEdge, sccs);
      HeadThenRest(SortMembers(order, sccs[0]), RealCycles(order, selfEdge, sccs[1..]));
      hide SortMembers;
      assert [] + RealCycles(order, selfEdge, sccs[1..]) == RealCycles(order, selfEdge, sccs[1..]);
    }
  }

  lemma HeadThenRest(d: seq<Id>, rest: seq<seq<Id>>)
    requires NoRepeats(rest) && d !in rest
    ensures NoRepeats([d] + rest)
  {
  }

  lemma HeadNotRepeated(order: map<Id, nat>, selfEdge: set<Id>, sccs: seq<seq<Id>>)
    requires |sccs| > 0 && |sccs[0]| > 0
    requires forall i, j, x :: 0 <= i < j < |sccs| && x in sccs[i] ==> x !in sccs[j]
    ensures SortMembers(order, sccs[0]) !in RealCycles(order, selfEdge, sccs[1..])
  {
    RealCyclesAre(order, selfEdge, sccs[1..]);
    SameMembers(order, sccs[0]);
    var x := sccs[0][0];
    assert x in SortMembers(order, sccs[0]);
    hide RealCycles, SortMembers;
    forall d | FromCycle(order, selfEdge, sccs[1..], d)
      ensures x !in d
    {
      var c :| c in sccs[1..] && IsCycle(c, selfEdge) && d == SortMembers(order, c);
      SameMembers(order, c);
      var j :| 0 <= j < |sccs[1..]| && sccs[1..][j] == c;
      assert sccs[j + 1] == c;
    }
  }

  /** A component is a cycle exactly when its members lie on closed walks. */
  lemma CycleIffClosedWalk(g: EdgeSet, c: seq<Id>, selfEdge: set<Id>, u: Id)
    requires IsComponent(g, c) && u in c
    requires forall x :: x in selfEdge <==> (x, x) in g
    ensures IsCycle(c, selfEdge) <==> OnClosedWalk(g, u)
  {
    hide Reaches;
    if |c| >= 2 {
      var y := if c[0] == u then c[1] else c[0];
      assert y in c;
      assert Mutual(g, u, y);
      var w := FirstStep(g, u, y);
      ReachesTransitive(g, w, y, u);
    } else {
      assert c[0] == u;
      if OnClosedWalk(g, u) {
        var w :| (u, w) in g && Reaches(g, w, u);
        ReachesByEdge(g, u, w);
        assert Mutual(g, u, w);
        assert w in c;
      }
      ReachesSelf(g, u);
    }
  }

  lemma ListedIsCycle(p: PipelineDef, order: map<Id, nat>, selfEdge: set<Id>, sccs: seq<seq<Id>>,
                      cycles: seq<seq<Id>>, u: Id)
    requires IsPartition(p, sccs) && u in NodeIds(p)
    requires forall d :: d in cycles <==> FromCycle(order, selfEdge, sccs, d)
    requires forall x :: x in selfEdge <==> (x, x) in DeclaredEdges(p)
    ensures InSome(cycles, u) <==> OnClosedWalk(DeclaredEdges(p), u)
  {
    var g := DeclaredEdges(p);
    assert InComponent(sccs, u);
    var i :| 0 <= i < |sccs| && u in sccs[i];
    CycleIffClosedWalk(g, sccs[i], selfEdge, u);
    SameMembers(order, sccs[i]);
    if OnClosedWalk(g, u) {
      assert FromCycle(order, selfEdge, sccs, SortMembers(order, sccs[i]));
    }
    if InSome(cycles, u) {
      var d :| d in cycles && u in d;
      var c :| c in sccs && IsCycle(c, selfEdge) && d == SortMembers(order, c);
      SameMembers(order, c);
      CycleIffClosedWalk(g, c, selfEdge, u);
    }
  }

  lemma TogetherIsMutual(p: PipelineDef, order: map<Id, nat>, selfEdge: set<Id>, sccs: seq<seq<Id>>,
                         cycles: seq<seq<Id>>, u: Id, v: Id)
    requires IsPartition(p, sccs) && u in NodeIds(p) && v in NodeIds(p) && u != v
    requires forall d :: d in cycles <==> FromCycle(order, selfEdge, sccs, d)
    ensures Together(cycles, u, v) <==> Mutual(DeclaredEdges(p), u, v)
  {
    hide Mutual;
    var g := DeclaredEdges(p);
    if Mutual(g, u, v) {
      assert InComponent(sccs, u);
      var i :| 0 <= i < |sccs| && u in sccs[i];
      var c := sccs[i];
      assert IsComponent(g, c);
      assert v in c;
      var a :| 0 <= a < |c| && c[a] == u;
      var b :| 0 <= b < |c| && c[b] == v;
      assert |c| >= 2;
      SameMembers(order, c);
      assert FromCycle(order, selfEdge, sccs, SortMembers(order, c));
    }
    if Together(cycles, u, v) {
      var d :| d in cycles && u in d && v in d;
      var c :| c in sccs && IsCycle(c, selfEdge) && d == SortMembers(order, c);
      SameMembers(order, c);
      assert IsComponent(g, c);
    }
  }

  ghost predicate OrderOf(p: PipelineDef, order: map<Id, nat>)
    requires UniqueIds(p)
  {
    order.Keys == NodeIds(p) && forall x :: x in order ==> order[x] == Position(p, x)
  }

  lemma SortedMembersInOrder(p: PipelineDef, order: map<Id, nat>, c: seq<Id>)
    requires UniqueIds(p) && OrderOf(p, order)
    requires NoRepeats(c) && forall x :: x in c ==> x in NodeIds(p)
    ensures InNodeOrder(p, SortMembers(order, c))
  {
    var r := SortMembers(order, c);
    SameMembers(order, c);
    PermutationNoRepeats(c, r);
    forall i, j | 0 <= i < j < |r|
      ensures Position(p, r[i]) < Position(p, r[j])
    {
      assert r[i] in c && r[j] in c && r[i] != r[j];
      assert KeyOf(order, r[i]) <= KeyOf(order, r[j]);
    }
  }

  /** Two listed cycles that share a member are the same one. */
  lemma ListedDisjoint(p: PipelineDef, order: map<Id, nat>, selfEdge: set<Id>, sccs: seq<seq<Id>>,
                       d: seq<Id>, e: seq<Id>, x: Id)
    requires IsPartition(p, sccs)
    requires FromCycle(order, selfEdge, sccs, d) && FromCycle(order, selfEdge, sccs, e)
    requires x in d && x in e
    ensures d == e
  {
    var c :| c in sccs && IsCycle(c, selfEdge) && d == SortMembers(order, c);
    var b :| b in sccs && IsCycle(b, selfEdge) && e == SortMembers(order, b);
    SameMembers(order, c);
    SameMembers(order, b);
    var i :| 0 <= i < |sccs| && sccs[i] == c;
    var j :| 0 <= j < |sccs| && sccs[j] == b;
  }

  lemma ListedShape(p: PipelineDef, order: map<Id, nat>, selfEdge: set<Id>, sccs: seq<seq<Id>>, d: seq<Id>)
    requires UniqueIds(p) && OrderOf(p, order) && IsPartition(p, sccs)
    requires FromCycle(order, selfEdge, sccs, d)
    ensures |d| > 0 && InNodeOrder(p, d)
  {
    var c :| c in sccs && IsCycle(c, selfEdge) && d == SortMembers(order, c);
    var i :| 0 <= i < |sccs| && sccs[i] == c;
    SameMembers(order, c);
    assert IsComponent(DeclaredEdges(p), c);
    forall x | x in c
      ensures x in NodeIds(p)
    {
      assert InComponent(sccs, x);
    }
    SortedMembersInOrder(p, order, c);
  }

  lemma SortedCyclesInOrder(p: PipelineDef, order: map<Id, nat>, selfEdge: set<Id>,
                            sccs: seq<seq<Id>>, cycles: seq<seq<Id>>, i: nat, j: nat)
    requires UniqueIds(p) && OrderOf(p, order) && IsPartition(p, sccs)
    requires forall d :: d in cycles ==> FromCycle(order, selfEdge, sccs, d)
    requires NoRepeats(cycles) && SortedBy(cycles, (c, d) => FirstKey(order, c) <= FirstKey(order, d))
    requires i < j < |cycles|
    ensures FirstBefore(p, cycles[i], cycles[j])
  {
    var c, d := cycles[i], cycles[j];
    ListedShape(p, order, selfEdge, sccs, c);
    ListedShape(p, order, selfEdge, sccs, d);
    assert FirstKey(order, c) <= FirstKey(order, d);
    if c[0] == d[0] {
      ListedDisjoint(p, order, selfEdge, sccs, c, d, c[0]);
      assert false;
    }
  }

  lemma MeaningOk(p: PipelineDef, order: map<Id, nat>, selfEdge: set<Id>, sccs: seq<seq<Id>>,
                  cycles: seq<seq<Id>>)
    requires IsPartition(p, sccs)
    requires forall x :: x in selfEdge <==> (x, x) in DeclaredEdges(p)
    requires forall d :: d in cycles <==> FromCycle(order, selfEdge, sccs, d)
    ensures ListsTheCycles(p, cycles)
  {
    hide Mutual, IsPartition, OnClosedWalk, InSome, Together, FromCycle;
    forall u, v | u in NodeIds(p) && v in NodeIds(p) && u != v
      ensures Together(cycles, u, v) <==> Mutual(DeclaredEdges(p), u, v)
    {
      TogetherIsMutual(p, order, selfEdge, sccs, cycles, u, v);
    }
    forall u | u in NodeIds(p)
      ensures InSome(cycles, u) <==> OnClosedWalk(DeclaredEdges(p), u)
    {
      ListedIsCycle(p, order, selfEdge, sccs, cycles, u);
    }
  }

  lemma OrderOk(p: PipelineDef, order: map<Id, nat>, selfEdge: set<Id>, sccs: seq<seq<Id>>,
                cycles: seq<seq<Id>>)
    requires UniqueIds(p) && OrderOf(p, order) && IsPartition(p, sccs)
    requires forall d :: d in cycles ==> FromCycle(order, selfEdge, sccs, d)
    requires NoRepeats(cycles) && SortedBy(cycles, (c, d) => FirstKey(order, c) <= FirstKey(order, d))
    ensures InCanonicalOrder(p, cycles)
  {
    hide IsPartition, FromCycle, FirstBefore, InNodeOrder;
    forall c | c in cycles
      ensures |c| > 0 && InNodeOrder(p, c)
    {
      ListedShape(p, order, selfEdge, sccs, c);
    }
    forall c, d, x | c in cycles && d in cycles && x in c && x in d
      ensures c == d
    {
      ListedDisjoint(p, order, selfEdge, sccs, c, d, x);
    }
    forall i, j | 0 <= i < j < |cycles|
      ensures FirstBefore(p, cycles[i], cycles[j])
    {
      SortedCyclesInOrder(p, order, selfEdge, sccs, cycles, i, j);
    }
  }

  lemma CycleListOk(p: PipelineDef, order: map<Id, nat>, selfEdge: set<Id>, sccs: seq<seq<Id>>,
                    cycles: seq<seq<Id>>)
    requires UniqueIds(p) && OrderOf(p, order) && IsPartition(p, sccs)
    requires forall x :: x in selfEdge <==> (x, x) in DeclaredEdges(p)
    requires cycles == SortCycles(order, RealCycles(order, selfEdge, sccs))
    ensures IsCycleList(p, cycles)
  {
    hide FromCycle, ListsTheCycles, InCanonicalOrder;
    var kept := RealCycles(order, selfEdge, sccs);
    ComponentsNonempty(p, sccs);
    RealCyclesAre(order, selfEdge, sccs);
    RealCyclesOnce(order, selfEdge, sccs);
    PermutationNoRepeats(kept, cycles);
    assert forall d :: d in cycles <==> FromCycle(order, selfEdge, sccs, d) by {
      assert forall d :: d in cycles <==> d in multiset(cycles);
      assert forall d :: d in kept <==> d in multiset(kept);
    }
    MeaningOk(p, order, selfEdge, sccs, cycles);
    OrderOk(p, order, selfEdge, sccs, cycles);
  }

  lemma ComponentsNonempty(p: PipelineDef, sccs: seq<seq<Id>>)
    requires IsPartition(p, sccs)
    ensures forall c :: c in sccs ==> |c| > 0
  {
    forall c | c in sccs
      ensures |c| > 0
    {
      assert IsComponent(DeclaredEdges(p), c);
    }
  }

  /** The cycles of the declared graph: exactly the strongly connected components
      of two or more nodes or with a self-edge, in node order. */
  method DetectCycles(p: PipelineDef) returns (cycles: seq<seq<Id>>)
    requires UniqueIds(p)
    ensures IsCycleList(p, cycles)
  {
    var order := NodeOrder(p);
    var adj, selfEdge := BuildGraph(p, order);
    var sccs := Components(p, adj);
    cycles := SortCycles(order, RealCycles(order, selfEdge, sccs));
    CycleListOk(p, order, selfEdge, sccs, cycles);
  }

  /** An empty list means an acyclic declared graph, and conversely. */
  lemma NoCyclesMeansAcyclic(p: PipelineDef, cycles: seq<seq<Id>>)
    requires UniqueIds(p) && IsCycleList(p, cycles)
    ensures cycles == [] <==> forall u :: u in NodeIds(p) ==> !OnClosedWalk(DeclaredEdges(p), u)
  {
    if cycles != [] {
      var u := cycles[0][0];
      assert u in cycles[0] && InSome(cycles, u);
    }
    forall u | u in NodeIds(p)
      ensures cycles == [] ==> !OnClosedWalk(DeclaredEdges(p), u)
    {
      assert InSome(cycles, u) <==> OnClosedWalk(DeclaredEdges(p), u);
    }
  }

  // ---------------------------------------------------------------------------
  // The specification has one solution

  /** Increasing sequences with the same elements are equal. */
  lemma {:induction false} IncreasingUnique<T(!new)>(a: seq<T>, b: seq<T>, key: map<T, int>)
    requires forall x :: x in a <==> x in b
    requires forall x :: x in a ==> x in key
    requires forall i, j :: 0 <= i < j < |a| ==> key[a[i]] < key[a[j]]
    requires forall i, j :: 0 <= i < j < |b| ==> key[b[i]] < key[b[j]]
    ensures a == b
  {
    if a == [] {
      HeadIsElement(b);
    } else {
      var m := |a| - 1;
      assert a[m] in b;
      var n := |b| - 1;
      SameLast(a, b, key);
      forall x
        ensures x in a[..m] <==> x in b[..n]
      {
        assert x in a <==> x in a[..m] || x == a[m];
        assert x in b <==> x in b[..n] || x == b[n];
        assert a[m] !in a[..m] && b[n] !in b[..n];
      }
      IncreasingUnique(a[..m], b[..n], key);
      assert a == a[..m] + [a[m]] && b == b[..n] + [b[n]];
    }
  }

  lemma HeadIsElement<T(!new)>(s: seq<T>)
    ensures s == [] || s[0] in s
  {
  }

  lemma SameLast<T(!new)>(a: seq<T>, b: seq<T>, key: map<T, int>)
    requires |a| > 0 && |b| > 0 && forall x :: x in a <==> x in b
    requires forall x :: x in a ==> x in key
    requires forall i, j :: 0 <= i < j < |a| ==> key[a[i]] < key[a[j]]
    requires forall i, j :: 0 <= i < j < |b| ==> key[b[i]] < key[b[j]]
    ensures a[|a| - 1] == b[|b| - 1]
  {
    assert a[|a| - 1] in b && b[|b| - 1] in a;
    var i :| 0 <= i < |b| && b[i] == a[|a| - 1];
    var j :| 0 <= j < |a| && a[j] == b[|b| - 1];
  }

  /** A cycle of one list is a cycle of the other. */
  lemma CycleOfOther(p: PipelineDef, a: seq<seq<Id>>, b: seq<seq<Id>>, c: seq<Id>)
    requires UniqueIds(p) && IsCycleList(p, a) && IsCycleList(p, b) && c in a
    ensures c in b
  {
    hide Mutual, OnClosedWalk;
    assert InNodeOrder(p, c);
    var x := c[0];
    assert x in c && InSome(a, x);
    assert InSome(b, x);
    var d :| d in b && x in d;
    assert InNodeOrder(p, d);
    forall y | y in NodeIds(p)
      ensures y in c <==> y in d
    {
      if y != x {
        TogetherInOne(p, a, c, x, y);
        TogetherInOne(p, b, d, x, y);
      }
    }
    var key: map<Id, int> := map y | y in NodeIds(p) :: Position(p, y);
    IncreasingUnique(c, d, key);
  }

  lemma TogetherInOne(p: PipelineDef, cycles: seq<seq<Id>>, c: seq<Id>, x: Id, y: Id)
    requires UniqueIds(p) && IsCycleList(p, cycles) && c in cycles && x in c
    requires x in NodeIds(p) && y in NodeIds(p) && x != y
    ensures y in c <==> Mutual(DeclaredEdges(p), x, y)
  {
    hide Mutual, OnClosedWalk;
    assert Together(cycles, x, y) <==> Mutual(DeclaredEdges(p), x, y);
    if Together(cycles, x, y) {
      var d :| d in cycles && x in d && y in d;
      assert d == c;
    }
  }

  /** The declared graph alone determines the cycle list: the search order of the
      algorithm leaves no trace in it. */
  lemma CycleListUnique(p: PipelineDef, a: seq<seq<Id>>, b: seq<seq<Id>>)
    requires UniqueIds(p) && IsCycleList(p, a) && IsCycleList(p, b)
    ensures a == b
  {
    forall c
      ensures c in a <==> c in b
    {
      if c in a { CycleOfOther(p, a, b, c); }
      if c in b { CycleOfOther(p, b, a, c); }
    }
    hide ListsTheCycles;
    assert forall c :: c in a ==> |c| > 0 && c[0] in NodeIds(p);
    var key: map<seq<Id>, int> := map c | c in a :: Position(p, c[0]);
    assert forall i, j :: 0 <= i < j < |a| ==> FirstBefore(p, a[i], a[j]);
    assert forall i, j :: 0 <= i < j < |b| ==> FirstBefore(p, b[i], b[j]);
    IncreasingUnique(a, b, key);
  }
}
