/** Tarjan's strongly connected components, in the source's imperative form.
    The proof works on snapshots of the object's fields: each step of the
    algorithm is one lemma about a snapshot and its successor. */
module Tarjan {
  import opened Graphs

  type Adjacency = map<Id, seq<Id>>

  ghost function EdgesOf(adj: Adjacency): EdgeSet {
    set v, w | v in adj && w in adj[v] :: (v, w)
  }

  function Targets(adj: Adjacency, v: Id): seq<Id> {
    if v in adj then adj[v] else []
  }

  ghost function Elems(s: seq<Id>): set<Id> {
    set x | x in s
  }

  /** The fields of the search, plus `open`: the nodes whose call is in progress. */
  datatype Snapshot = Snapshot(
    index: map<Id, nat>, lowlink: map<Id, nat>, onStack: set<Id>,
    stack: seq<Id>, nextIndex: nat, sccs: seq<seq<Id>>, open: set<Id>)

  /** A component is listed without repetition and is a whole equivalence class
      of mutual reachability. */
  ghost predicate IsComponent(g: EdgeSet, c: seq<Id>) {
    && |c| > 0
    && (forall i, j :: 0 <= i < j < |c| ==> c[i] != c[j])
    && (forall x, y :: x in c ==> (y in c <==> Mutual(g, x, y)))
  }

  // ---------------------------------------------------------------------------
  // The invariant of the search, in four parts

  ghost predicate StackOk(s: Snapshot) {
    && s.onStack == Elems(s.stack)
    && s.onStack <= s.index.Keys
    && s.lowlink.Keys == s.index.Keys
    && s.open <= s.onStack
    && (forall x :: x in s.index ==> s.index[x] < s.nextIndex)
    && (forall i, j :: 0 <= i < j < |s.stack| ==> s.index[s.stack[i]] < s.index[s.stack[j]])
  }

  /** No finished node has an edge into unexplored territory. */
  ghost predicate NoFinishedToNew(g: EdgeSet, s: Snapshot) {
    forall x, y :: x in s.index && x !in s.open && (x, y) in g ==> y in s.index
  }

  /** An open node reaches everything stacked at or above it, and everything on
      the stack reaches some open node at or below it. */
  ghost predicate StackReach(g: EdgeSet, s: Snapshot)
    requires StackOk(s)
  {
    && (forall x, y :: x in s.open && y in s.onStack && s.index[x] <= s.index[y] ==> Reaches(g, x, y))
    && (forall y {:trigger ReachesOpenBelow(g, s.open, s.index, y)} ::
          y in s.onStack ==> ReachesOpenBelow(g, s.open, s.index, y))
  }

  ghost predicate ReachesOpenBelow(g: EdgeSet, open: set<Id>, index: map<Id, nat>, y: Id)
    requires open <= index.Keys && y in index
  {
    exists x :: x in open && index[x] <= index[y] && Reaches(g, y, x)
  }

  ghost predicate InComponent(sccs: seq<seq<Id>>, x: Id) {
    exists i :: 0 <= i < |sccs| && x in sccs[i]
  }

  /** The emitted components partition the nodes that were explored and popped. */
  ghost predicate ComponentsOk(g: EdgeSet, s: Snapshot) {
    && (forall i :: 0 <= i < |s.sccs| ==> IsComponent(g, s.sccs[i]))
    && (forall i, x :: 0 <= i < |s.sccs| && x in s.sccs[i] ==> x in s.index && x !in s.onStack)
    && (forall x {:trigger InComponent(s.sccs, x)} :: x in s.index && x !in s.onStack ==> InComponent(s.sccs, x))
    && (forall i, j, x :: 0 <= i < j < |s.sccs| && x in s.sccs[i] ==> x !in s.sccs[j])
  }

  ghost predicate Inv(g: EdgeSet, all: set<Id>, s: Snapshot) {
    && (forall x, y :: (x, y) in g ==> y in all)
    && s.index.Keys <= all
    && StackOk(s)
    && NoFinishedToNew(g, s)
    && StackReach(g, s)
    && ComponentsOk(g, s)
  }

  /** `t` continues the search from `s`: what was recorded stays recorded, and
      what is new was numbered later. */
  ghost predicate Grows(s: Snapshot, t: Snapshot) {
    && s.index.Keys <= t.index.Keys
    && s.lowlink.Keys <= t.lowlink.Keys
    && (forall x :: x in s.index ==> t.index[x] == s.index[x])
    && (forall x :: x in t.index && x !in s.index ==> s.nextIndex <= t.index[x])
    && (forall x :: x in s.lowlink ==> t.lowlink[x] == s.lowlink[x])
    && s.stack <= t.stack
    && s.nextIndex <= t.nextIndex
  }

  /** `low` is the index of a stack node that `v` reaches. */
  ghost predicate LowIsReached(g: EdgeSet, onStack: set<Id>, index: map<Id, nat>, v: Id, low: nat)
    requires onStack <= index.Keys
  {
    exists y :: y in onStack && index[y] == low && Reaches(g, v, y)
  }

  /** `low` bounds the old stack nodes that `x` has an edge to. */
  ghost predicate LowBounds(g: EdgeSet, older: set<Id>, index: map<Id, nat>, x: Id, low: nat) {
    forall y :: (x, y) in g && y in older && y in index ==> low <= index[y]
  }

  /** What a finished call on `v` tells its caller: `v`'s lowlink is the index of
      a node `v` reaches, and bounds from below every old stack node that the
      call's leftovers have an edge to. */
  ghost predicate Finished(g: EdgeSet, s: Snapshot, t: Snapshot, v: Id)
    requires StackOk(t)
  {
    && Grows(s, t) && t.open == s.open
    && v in t.index && v !in s.index
    && (v in t.onStack ==> t.lowlink[v] < t.index[v] && LowIsReached(g, t.onStack, t.index, v, t.lowlink[v]))
    && (v !in t.onStack ==> t.lowlink[v] == t.index[v] && t.stack == s.stack)
    && (forall i :: |s.stack| <= i < |t.stack| ==> LowBounds(g, s.onStack, t.index, t.stack[i], t.lowlink[v]))
  }

  /** A processed target of `v` is explored, and bounds `low` if it is old. */
  ghost predicate Seen(older: set<Id>, index: map<Id, nat>, w: Id, low: nat) {
    w in index && (w in older ==> low <= index[w])
  }

  /** The state between two targets of `v`: `k` targets are processed since the
      state `s` in which `v` had not been visited. */
  ghost predicate Scanning(g: EdgeSet, s: Snapshot, t: Snapshot, v: Id, targets: seq<Id>, k: nat)
    requires StackOk(t)
  {
    && k <= |targets|
    && Grows(s, t)
    && t.open == s.open + {v}
    && v in t.onStack && v !in s.index && t.index[v] == s.nextIndex
    && |s.stack| < |t.stack| && t.stack[|s.stack|] == v
    && t.lowlink[v] <= t.index[v]
    && LowIsReached(g, t.onStack, t.index, v, t.lowlink[v])
    && (forall i :: |s.stack| < i < |t.stack| ==> LowBounds(g, s.onStack, t.index, t.stack[i], t.lowlink[v]))
    && (forall j :: 0 <= j < k ==> Seen(s.onStack, t.index, targets[j], t.lowlink[v]))
  }

  // ---------------------------------------------------------------------------
  // Opening a node

  ghost function Pushed(s: Snapshot, v: Id): Snapshot {
    s.(index := s.index[v := s.nextIndex], lowlink := s.lowlink[v := s.nextIndex],
       nextIndex := s.nextIndex + 1, stack := s.stack + [v],
       onStack := s.onStack + {v}, open := s.open + {v})
  }

  lemma OpenInv(g: EdgeSet, all: set<Id>, s: Snapshot, v: Id)
    requires Inv(g, all, s) && v in all && v !in s.index
    requires forall x :: x in s.open ==> Reaches(g, x, v)
    ensures Inv(g, all, Pushed(s, v))
  {
    hide Reaches, IsComponent;
    var t := Pushed(s, v);
    assert StackOk(t);
    OpenStackReach(g, s, t, v);
    assert ComponentsOk(g, t);
  }

  lemma OpenStackReach(g: EdgeSet, s: Snapshot, t: Snapshot, v: Id)
    requires StackOk(s) && StackReach(g, s) && v !in s.index && StackOk(t) && t == Pushed(s, v)
    requires forall x :: x in s.open ==> Reaches(g, x, v)
    ensures StackReach(g, t)
  {
    hide Reaches, ReachesOpenBelow;
    ReachesSelf(g, v);
    forall y | y in t.onStack
      ensures ReachesOpenBelow(g, t.open, t.index, y)
    {
      OpenReachesBelow(g, s, t, v, y);
    }
  }

  lemma OpenReachesBelow(g: EdgeSet, s: Snapshot, t: Snapshot, v: Id, y: Id)
    requires s.open <= s.onStack <= s.index.Keys && v !in s.index && t == Pushed(s, v)
    requires y in t.onStack && (y in s.onStack ==> ReachesOpenBelow(g, s.open, s.index, y))
    ensures ReachesOpenBelow(g, t.open, t.index, y)
  {
    hide Reaches;
    if y == v {
      ReachesSelf(g, v);
      assert v in t.open;
    } else {
      var x :| x in s.open && s.index[x] <= s.index[y] && Reaches(g, y, x);
      assert x in t.open && t.index[x] <= t.index[y];
    }
  }

  lemma OpenScanning(g: EdgeSet, s: Snapshot, v: Id, targets: seq<Id>)
    requires StackOk(s) && v !in s.index && StackOk(Pushed(s, v))
    ensures Scanning(g, s, Pushed(s, v), v, targets, 0)
  {
    hide Reaches;
    var t := Pushed(s, v);
    ReachesSelf(g, v);
    assert v in t.onStack && t.index[v] == t.lowlink[v];
  }

  // ---------------------------------------------------------------------------
  // One target of the open node

  /** Before descending: every open node reaches the unexplored target. */
  lemma OpenReachTarget(g: EdgeSet, s: Snapshot, t: Snapshot, v: Id, targets: seq<Id>, k: nat)
    requires StackOk(s) && StackOk(t) && StackReach(g, t) && Scanning(g, s, t, v, targets, k)
    requires k < |targets| && (v, targets[k]) in g
    ensures forall x :: x in t.open ==> Reaches(g, x, targets[k])
  {
    hide Reaches;
    ReachesByEdge(g, v, targets[k]);
    forall x | x in t.open
      ensures Reaches(g, x, targets[k])
    {
      assert t.index[x] <= t.index[v];
      ReachesTransitive(g, x, v, targets[k]);
    }
  }

  ghost function WithLow(t: Snapshot, v: Id, low: nat): Snapshot {
    t.(lowlink := t.lowlink[v := low])
  }

  /** Lowering a lowlink leaves the invariant alone. */
  lemma WithLowInv(g: EdgeSet, all: set<Id>, t: Snapshot, v: Id, low: nat)
    requires Inv(g, all, t) && v in t.index
    ensures Inv(g, all, WithLow(t, v, low))
  {
    hide Reaches;
    var t' := WithLow(t, v, low);
    assert StackOk(t');
    assert StackReach(g, t');
    assert ComponentsOk(g, t');
  }

  /** After the recursive call on an unexplored target. */
  lemma AbsorbCall(g: EdgeSet, s: Snapshot, t: Snapshot, u: Snapshot, u': Snapshot, v: Id,
                   targets: seq<Id>, k: nat, low: nat)
    requires StackOk(s) && StackOk(t) && Scanning(g, s, t, v, targets, k)
    requires k < |targets| && (v, targets[k]) in g && targets[k] !in t.index
    requires StackOk(u) && Finished(g, t, u, targets[k]) && v in u.lowlink
    requires low == if u.lowlink[v] < u.lowlink[targets[k]] then u.lowlink[v] else u.lowlink[targets[k]]
    requires u' == WithLow(u, v, low) && StackOk(u')
    ensures Scanning(g, s, u', v, targets, k + 1)
  {
    hide Reaches, LowIsReached, LowBounds;
    var w := targets[k];
    StackGrows(t, u);
    StackGrows(s, t);
    GrowsOn(s, t, u, u', v, low);
    LowAfterCall(g, t, u, v, w, low);
    assert LowIsReached(g, u'.onStack, u'.index, v, low);
    BoundsAfterCall(g, s, t, u, v, w, low);
    SeenAfterCall(s, t, u, w, targets, k, t.lowlink[v], low);
    hide Seen, Grows;
  }

  lemma SeenAfterCall(s: Snapshot, t: Snapshot, u: Snapshot, w: Id, targets: seq<Id>, k: nat, was: nat, low: nat)
    requires s.onStack <= s.index.Keys <= t.index.Keys && w !in t.index
    requires Grows(t, u) && w in u.index && k < |targets| && targets[k] == w && low <= was
    requires forall j :: 0 <= j < k ==> Seen(s.onStack, t.index, targets[j], was)
    ensures forall j :: 0 <= j < k + 1 ==> Seen(s.onStack, u.index, targets[j], low)
  {
    forall j | 0 <= j < k + 1
      ensures Seen(s.onStack, u.index, targets[j], low)
    {
      if j < k {
        assert Seen(s.onStack, t.index, targets[j], was);
      }
    }
  }

  lemma GrowsOn(s: Snapshot, t: Snapshot, u: Snapshot, u': Snapshot, v: Id, low: nat)
    requires StackOk(s) && Grows(s, t) && Grows(t, u) && v !in s.index
    requires u' == WithLow(u, v, low)
    ensures Grows(s, u')
  {
  }

  lemma BoundsAfterCall(g: EdgeSet, s: Snapshot, t: Snapshot, u: Snapshot, v: Id, w: Id, low: nat)
    requires StackOk(s) && StackOk(t) && StackOk(u) && s.onStack <= t.onStack
    requires Grows(s, t) && v in t.onStack && Finished(g, t, u, w)
    requires forall i :: |s.stack| < i < |t.stack| ==> LowBounds(g, s.onStack, t.index, t.stack[i], t.lowlink[v])
    requires low <= t.lowlink[v] && low <= u.lowlink[w]
    ensures forall i :: |s.stack| < i < |u.stack| ==> LowBounds(g, s.onStack, u.index, u.stack[i], low)
  {
    forall i | |s.stack| < i < |u.stack|
      ensures LowBounds(g, s.onStack, u.index, u.stack[i], low)
    {
      if i < |t.stack| {
        assert u.stack[i] == t.stack[i];
        assert LowBounds(g, s.onStack, t.index, t.stack[i], t.lowlink[v]);
      } else {
        assert LowBounds(g, t.onStack, u.index, u.stack[i], u.lowlink[w]);
      }
    }
  }

  lemma LowAfterCall(g: EdgeSet, t: Snapshot, u: Snapshot, v: Id, w: Id, low: nat)
    requires StackOk(t) && StackOk(u) && t.onStack <= u.onStack
    requires v in t.onStack && LowIsReached(g, t.onStack, t.index, v, t.lowlink[v]) && t.lowlink[v] <= t.index[v]
    requires (v, w) in g && Finished(g, t, u, w)
    requires low == if u.lowlink[v] < u.lowlink[w] then u.lowlink[v] else u.lowlink[w]
    ensures LowIsReached(g, u.onStack, u.index, v, low)
  {
    hide Reaches;
    if low == u.lowlink[v] {
      var y :| y in t.onStack && t.index[y] == t.lowlink[v] && Reaches(g, v, y);
      assert y in u.onStack && u.index[y] == low;
    } else {
      assert w in u.onStack;
      var y :| y in u.onStack && u.index[y] == u.lowlink[w] && Reaches(g, w, y);
      ReachesByEdge(g, v, w);
      ReachesTransitive(g, v, w, y);
    }
  }

  lemma StackGrows(t: Snapshot, u: Snapshot)
    requires StackOk(t) && StackOk(u) && t.stack <= u.stack
    ensures t.onStack <= u.onStack
  {
    forall x | x in t.onStack
      ensures x in u.onStack
    {
      var i :| 0 <= i < |t.stack| && t.stack[i] == x;
      assert u.stack[i] == x;
    }
  }

  /** After looking at a target that was already explored. */
  lemma AbsorbSeen(g: EdgeSet, s: Snapshot, t: Snapshot, t': Snapshot, v: Id,
                   targets: seq<Id>, k: nat, low: nat)
    requires StackOk(s) && StackOk(t) && Scanning(g, s, t, v, targets, k)
    requires k < |targets| && (v, targets[k]) in g && targets[k] in t.index
    requires low == if targets[k] in t.onStack && t.index[targets[k]] < t.lowlink[v]
                    then t.index[targets[k]] else t.lowlink[v]
    requires t' == WithLow(t, v, low) && StackOk(t')
    ensures Scanning(g, s, t', v, targets, k + 1)
  {
    hide Reaches, LowIsReached, LowBounds;
    var w := targets[k];
    StackGrows(s, t);
    GrowsOn(s, t, t, t', v, low);
    LowAfterSeen(g, t, v, w, low);
    LowerBounds(g, s, t, v, low);
    forall j | 0 <= j < k + 1
      ensures Seen(s.onStack, t'.index, targets[j], low)
    {
      if j < k {
        assert Seen(s.onStack, t.index, targets[j], t.lowlink[v]);
      }
    }
  }

  lemma LowAfterSeen(g: EdgeSet, t: Snapshot, v: Id, w: Id, low: nat)
    requires StackOk(t) && v in t.onStack && w in t.index && (v, w) in g
    requires LowIsReached(g, t.onStack, t.index, v, t.lowlink[v])
    requires low == if w in t.onStack && t.index[w] < t.lowlink[v] then t.index[w] else t.lowlink[v]
    ensures LowIsReached(g, t.onStack, t.index, v, low)
  {
    hide Reaches;
    if low != t.lowlink[v] {
      ReachesByEdge(g, v, w);
    }
  }

  lemma LowerBounds(g: EdgeSet, s: Snapshot, t: Snapshot, v: Id, low: nat)
    requires v in t.lowlink && low <= t.lowlink[v]
    requires forall i :: |s.stack| < i < |t.stack| ==> LowBounds(g, s.onStack, t.index, t.stack[i], t.lowlink[v])
    ensures forall i :: |s.stack| < i < |t.stack| ==> LowBounds(g, s.onStack, t.index, t.stack[i], low)
  {
    forall i | |s.stack| < i < |t.stack|
      ensures LowBounds(g, s.onStack, t.index, t.stack[i], low)
    {
      assert LowBounds(g, s.onStack, t.index, t.stack[i], t.lowlink[v]);
    }
  }

  // ---------------------------------------------------------------------------
  // Closing a node that is not the root of its component

  lemma LeaveOnStack(g: EdgeSet, all: set<Id>, s: Snapshot, t: Snapshot, t': Snapshot, v: Id, targets: seq<Id>)
    requires Inv(g, all, s) && Inv(g, all, t) && Scanning(g, s, t, v, targets, |targets|)
    requires forall y :: (v, y) in g ==> y in targets
    requires t.lowlink[v] < t.index[v] && t' == t.(open := s.open)
    ensures Inv(g, all, t') && Finished(g, s, t', v)
  {
    hide Reaches, LowIsReached, LowBounds, IsComponent, ReachesOpenBelow;
    AllSeen(g, s, t, v, targets);
    StackGrows(s, t);
    assert StackOk(t');
    forall y | y in t'.onStack
      ensures ReachesOpenBelow(g, t'.open, t'.index, y)
    {
      assert ReachesOpenBelow(g, t.open, t.index, y);
      assert LowIsReached(g, t.onStack, t.index, v, t.lowlink[v]);
      ReachesOlder(g, s, t, v, y);
    }
    assert StackReach(g, t');
    assert LowBounds(g, s.onStack, t.index, v, t.lowlink[v]) by { BoundsOfSeen(g, s, t, v); }
  }

  lemma AllSeen(g: EdgeSet, s: Snapshot, t: Snapshot, v: Id, targets: seq<Id>)
    requires StackOk(t) && Scanning(g, s, t, v, targets, |targets|)
    requires forall y :: (v, y) in g ==> y in targets
    ensures forall y :: (v, y) in g ==> Seen(s.onStack, t.index, y, t.lowlink[v])
    ensures forall y :: (v, y) in g ==> y in t.index
  {
  }

  lemma BoundsOfSeen(g: EdgeSet, s: Snapshot, t: Snapshot, v: Id)
    requires v in t.lowlink
    requires forall y :: (v, y) in g ==> Seen(s.onStack, t.index, y, t.lowlink[v])
    ensures LowBounds(g, s.onStack, t.index, v, t.lowlink[v])
  {
  }

  /** With `v` closed, its way down the stack goes through the node its lowlink names. */
  lemma ReachesOlder(g: EdgeSet, s: Snapshot, t: Snapshot, v: Id, y: Id)
    requires StackOk(t) && StackReach(g, t) && t.open == s.open + {v} && v in t.onStack && y in t.onStack
    requires t.lowlink[v] < t.index[v] && LowIsReached(g, t.onStack, t.index, v, t.lowlink[v])
    requires ReachesOpenBelow(g, t.open, t.index, y)
    ensures ReachesOpenBelow(g, s.open, t.index, y)
  {
    hide Reaches;
    var x :| x in t.open && t.index[x] <= t.index[y] && Reaches(g, y, x);
    if x == v {
      var z :| z in t.onStack && t.index[z] == t.lowlink[v] && Reaches(g, v, z);
      assert ReachesOpenBelow(g, t.open, t.index, z);
      var x' :| x' in t.open && t.index[x'] <= t.index[z] && Reaches(g, z, x');
      ReachesTransitive(g, y, v, z);
      ReachesTransitive(g, y, z, x');
      assert x' in s.open;
    }
  }

  // ---------------------------------------------------------------------------
  // Closing the root of a component

  /** The nodes stacked at and above `v` are mutually reachable with `v`. */
  lemma LeftoversAreMutual(g: EdgeSet, s: Snapshot, t: Snapshot, v: Id, y: Id)
    requires StackOk(t) && StackReach(g, t) && t.open == s.open + {v} && v in t.onStack
    requires y in t.onStack && t.index[v] <= t.index[y]
    requires forall x :: x in s.open ==> x in t.index && t.index[x] < t.index[v]
    ensures Mutual(g, v, y)
  {
    hide Reaches;
    assert ReachesOpenBelow(g, t.open, t.index, y);
    var x :| x in t.open && t.index[x] <= t.index[y] && Reaches(g, y, x);
    ReachesTransitive(g, y, x, v);
  }

  /** Nothing else is mutually reachable with `v`: a walk out of the leftovers
      would enter an emitted component or lower `v`'s lowlink. */
  lemma MutualIsLeftover(g: EdgeSet, all: set<Id>, s: Snapshot, t: Snapshot, v: Id, z: Id, part: set<Id>)
    requires Inv(g, all, t) && v in t.onStack && t.open <= s.onStack + {v}
    requires part == t.onStack - s.onStack && v in part
    requires t.lowlink[v] == t.index[v]
    requires forall y :: y in s.onStack ==> y in t.index && t.index[y] < t.index[v]
    requires forall x :: x in part ==> LowBounds(g, s.onStack, t.index, x, t.lowlink[v])
    requires forall y :: (v, y) in g ==> y in t.index
    requires Mutual(g, v, z)
    ensures z in part
  {
    if z !in part {
      hide Reaches;
      var x, y := LeavingEdge(g, part, v, z);
      assert y in t.index;
      if y in s.onStack {
        assert false;
      }
      assert y !in t.onStack;
      ReachesTransitive(g, y, z, v);
      ReachesByEdge(g, x, y);
      ReachesTransitive(g, v, x, y);
      assert InComponent(t.sccs, y);
      var i :| 0 <= i < |t.sccs| && y in t.sccs[i];
      assert false;
    }
  }

  ghost predicate IsReverse(c: seq<Id>, s: seq<Id>) {
    |c| == |s| && forall i :: 0 <= i < |c| ==> c[i] == s[|s| - 1 - i]
  }

  /** Of the grown stack, the old stack's nodes are the ones below its height. */
  lemma OldPart(s: Snapshot, t: Snapshot, i: nat)
    requires StackOk(s) && StackOk(t) && s.stack <= t.stack && i < |t.stack|
    ensures t.stack[i] in s.onStack <==> i < |s.stack|
  {
    if i < |s.stack| {
      assert s.stack[i] == t.stack[i];
    } else {
      assert forall j :: 0 <= j < |s.stack| ==> s.stack[j] == t.stack[j] && t.stack[j] != t.stack[i];
    }
  }

  /** The stack splits at `v` into the old stack and the leftovers. */
  lemma Leftovers(s: Snapshot, t: Snapshot, v: Id)
    requires StackOk(s) && StackOk(t) && s.stack <= t.stack
    requires |s.stack| < |t.stack| && t.stack[|s.stack|] == v
    ensures s.onStack <= t.onStack && v in t.onStack - s.onStack
    ensures forall x :: x in t.onStack - s.onStack ==> t.index[v] <= t.index[x]
    ensures forall x :: x in s.onStack ==> t.index[x] < t.index[v]
  {
    StackGrows(s, t);
    OldPart(s, t, |s.stack|);
    forall x | x in t.onStack
      ensures if x in s.onStack then t.index[x] < t.index[v] else t.index[v] <= t.index[x]
    {
      var i :| 0 <= i < |t.stack| && t.stack[i] == x;
      OldPart(s, t, i);
    }
  }

  /** What is popped is what is on the stack and was not before. */
  lemma PoppedElems(s: Snapshot, t: Snapshot, c: seq<Id>)
    requires StackOk(s) && StackOk(t) && s.stack <= t.stack
    requires IsReverse(c, t.stack[|s.stack|..])
    ensures forall x :: x in c <==> x in t.onStack - s.onStack
  {
    hide StackOk;
    var n := |t.stack|;
    forall x | x in c
      ensures x in t.onStack - s.onStack
    {
      var i :| 0 <= i < |c| && c[i] == x;
      StackedAt(t, n - 1 - i);
      OldPart(s, t, n - 1 - i);
    }
    forall x | x in t.onStack - s.onStack
      ensures x in c
    {
      var i := StackIndex(t, x);
      OldPart(s, t, i);
      assert c[n - 1 - i] == x;
    }
  }

  lemma StackIndex(t: Snapshot, x: Id) returns (i: nat)
    requires StackOk(t) && x in t.onStack
    ensures i < |t.stack| && t.stack[i] == x
  {
    i :| i < |t.stack| && t.stack[i] == x;
  }

  lemma StackedAt(t: Snapshot, i: nat)
    requires StackOk(t) && i < |t.stack|
    ensures t.stack[i] in t.onStack
  {
  }

  lemma PoppedIsComponent(g: EdgeSet, all: set<Id>, s: Snapshot, t: Snapshot, v: Id,
                          targets: seq<Id>, c: seq<Id>)
    requires Inv(g, all, s) && Inv(g, all, t) && Scanning(g, s, t, v, targets, |targets|)
    requires forall y :: (v, y) in g ==> y in targets
    requires t.lowlink[v] == t.index[v]
    requires IsReverse(c, t.stack[|s.stack|..])
    ensures IsComponent(g, c)
    ensures forall x :: x in c <==> x in t.onStack - s.onStack
  {
    Leftovers(s, t, v);
    PoppedElems(s, t, c);
    assert |c| > 0;
    assert forall i, j :: 0 <= i < j < |c| ==> c[i] != c[j] by { ReverseDistinct(s, t, c); }
    var part := t.onStack - s.onStack;
    LeftoversBounded(g, s, t, v, targets);
    forall z
      ensures z in part <==> Mutual(g, v, z)
    {
      if z in part {
        LeftoversAreMutual(g, s, t, v, z);
      } else if Mutual(g, v, z) {
        MutualIsLeftover(g, all, s, t, v, z, part);
      }
    }
    hide Mutual, Inv, Scanning, StackOk;
    forall x, y | x in c
      ensures y in c <==> Mutual(g, x, y)
    {
      MutualClass(g, v, x, y);
    }
  }

  lemma ReverseDistinct(s: Snapshot, t: Snapshot, c: seq<Id>)
    requires StackOk(t) && |s.stack| <= |t.stack| && IsReverse(c, t.stack[|s.stack|..])
    ensures forall i, j :: 0 <= i < j < |c| ==> c[i] != c[j]
  {
    var n := |t.stack|;
    forall i, j | 0 <= i < j < |c|
      ensures c[i] != c[j]
    {
      assert c[i] == t.stack[n - 1 - i] && c[j] == t.stack[n - 1 - j];
    }
  }

  /** What the scan of `v` knows about the edges of everything left on the stack. */
  lemma LeftoversBounded(g: EdgeSet, s: Snapshot, t: Snapshot, v: Id, targets: seq<Id>)
    requires StackOk(s) && StackOk(t) && Scanning(g, s, t, v, targets, |targets|)
    requires forall y :: (v, y) in g ==> y in targets
    ensures forall x :: x in t.onStack - s.onStack ==> LowBounds(g, s.onStack, t.index, x, t.lowlink[v])
    ensures forall y :: (v, y) in g ==> y in t.index
  {
    AllSeen(g, s, t, v, targets);
    BoundsOfSeen(g, s, t, v);
    hide LowBounds, LowIsReached, Seen;
    forall x | x in t.onStack - s.onStack
      ensures LowBounds(g, s.onStack, t.index, x, t.lowlink[v])
    {
      var i :| 0 <= i < |t.stack| && t.stack[i] == x;
      OldPart(s, t, i);
    }
  }

  lemma MutualClass(g: EdgeSet, v: Id, x: Id, y: Id)
    requires Mutual(g, v, x)
    ensures Mutual(g, v, y) <==> Mutual(g, x, y)
  {
    hide Reaches;
    if Mutual(g, v, y) {
      ReachesTransitive(g, x, v, y);
      ReachesTransitive(g, y, v, x);
    }
    if Mutual(g, x, y) {
      ReachesTransitive(g, v, x, y);
      ReachesTransitive(g, y, x, v);
    }
  }

  lemma CloseComponent(g: EdgeSet, all: set<Id>, s: Snapshot, t: Snapshot, t': Snapshot, v: Id,
                       targets: seq<Id>, c: seq<Id>)
    requires Inv(g, all, s) && Inv(g, all, t) && Scanning(g, s, t, v, targets, |targets|)
    requires forall y :: (v, y) in g ==> y in targets
    requires t.lowlink[v] == t.index[v]
    requires IsReverse(c, t.stack[|s.stack|..])
    requires t' == t.(stack := s.stack, onStack := s.onStack, open := s.open, sccs := t.sccs + [c])
    ensures Inv(g, all, t') && Finished(g, s, t', v)
  {
    hide Reaches, LowIsReached, LowBounds, IsComponent, ReachesOpenBelow;
    Leftovers(s, t, v);
    PoppedIsComponent(g, all, s, t, v, targets, c);
    AllSeen(g, s, t, v, targets);
    assert StackOk(t');
    assert NoFinishedToNew(g, t');
    forall y | y in t'.onStack
      ensures ReachesOpenBelow(g, t'.open, t'.index, y)
    {
      assert ReachesOpenBelow(g, t.open, t.index, y);
      StillReachesOpen(g, s, t, v, y);
    }
    assert StackReach(g, t');
    ComponentsAfterPop(g, s, t, t', c);
  }

  lemma StillReachesOpen(g: EdgeSet, s: Snapshot, t: Snapshot, v: Id, y: Id)
    requires StackOk(t) && t.open == s.open + {v} && y in t.index && v in t.index
    requires t.index[y] < t.index[v] && ReachesOpenBelow(g, t.open, t.index, y)
    ensures ReachesOpenBelow(g, s.open, t.index, y)
  {
  }

  lemma ComponentsAfterPop(g: EdgeSet, s: Snapshot, t: Snapshot, t': Snapshot, c: seq<Id>)
    requires StackOk(t) && ComponentsOk(g, t) && IsComponent(g, c) && s.onStack <= t.onStack
    requires forall x :: x in c <==> x in t.onStack - s.onStack
    requires t'.index == t.index && t'.onStack == s.onStack && t'.sccs == t.sccs + [c]
    ensures ComponentsOk(g, t')
  {
    hide IsComponent;
    forall x | x in t'.index && x !in t'.onStack
      ensures InComponent(t'.sccs, x)
    {
      if x in c {
        assert x in t'.sccs[|t.sccs|];
      } else {
        assert InComponent(t.sccs, x);
        var i :| 0 <= i < |t.sccs| && x in t.sccs[i];
        assert x in t'.sccs[i];
      }
    }
  }

  // ---------------------------------------------------------------------------
  // The search object

  lemma InvStackOk(g: EdgeSet, all: set<Id>, s: Snapshot)
    requires Inv(g, all, s)
    ensures StackOk(s)
  {
  }

  class Search {
    const adj: Adjacency
    var index: map<Id, nat>
    var lowlink: map<Id, nat>
    var onStack: set<Id>
    var stack: seq<Id>
    var nextIndex: nat
    var sccs: seq<seq<Id>>
    ghost var open: set<Id>

    constructor (adjacency: Adjacency)
      ensures adj == adjacency
      ensures Snap() == Snapshot(map[], map[], {}, [], 0, [], {})
    {
      adj := adjacency;
      index, lowlink, onStack, stack, nextIndex, sccs, open := map[], map[], {}, [], 0, [], {};
    }

    ghost function Snap(): Snapshot
      reads this
    {
      Snapshot(index, lowlink, onStack, stack, nextIndex, sccs, open)
    }

    /** Explores everything reachable from `v`: afterwards `v` is numbered, the
        invariant still holds, and the lowlink of `v` says whether `v`'s component
        was emitted or waits for an older node. */
    method StrongConnect(v: Id, ghost all: set<Id>)
      requires Inv(EdgesOf(adj), all, Snap())
      requires v in all && v !in index
      requires forall x :: x in open ==> Reaches(EdgesOf(adj), x, v)
      modifies this
      ensures Inv(EdgesOf(adj), all, Snap())
      ensures Finished(EdgesOf(adj), old(Snap()), Snap(), v)
      decreases all - index.Keys, 0
    {
      hide Reaches, ReachesOpenBelow, StackReach, ComponentsOk, NoFinishedToNew, LowIsReached, LowBounds, Seen;
      ghost var s := Snap();
      var targets := Targets(adj, v);
      Open(v, all, targets);
      for k := 0 to |targets|
        invariant Inv(EdgesOf(adj), all, Snap())
        invariant Scanning(EdgesOf(adj), s, Snap(), v, targets, k)
      {
        Visit(v, targets[k], all, s, k);
      }
      Close(v, all, s);
    }

    /** Numbers `v` and pushes it. */
    method Open(v: Id, ghost all: set<Id>, ghost targets: seq<Id>)
      requires Inv(EdgesOf(adj), all, Snap())
      requires v in all && v !in index
      requires forall x :: x in open ==> Reaches(EdgesOf(adj), x, v)
      modifies this
      ensures Snap() == Pushed(old(Snap()), v)
      ensures Inv(EdgesOf(adj), all, Snap())
      ensures Scanning(EdgesOf(adj), old(Snap()), Snap(), v, targets, 0)
    {
      hide Inv, Scanning;
      OpenInv(EdgesOf(adj), all, Snap(), v);
      assert StackOk(Snap()) && StackOk(Pushed(Snap(), v)) by {
        InvStackOk(EdgesOf(adj), all, Snap());
        InvStackOk(EdgesOf(adj), all, Pushed(Snap(), v));
      }
      OpenScanning(EdgesOf(adj), Snap(), v, targets);
      index := index[v := nextIndex];
      lowlink := lowlink[v := nextIndex];
      nextIndex := nextIndex + 1;
      stack := stack + [v];
      onStack := onStack + {v};
      open := open + {v};
    }

    /** One edge `v -> w`: descend into an unexplored `w`, or lower `v`'s lowlink
        to the index of a `w` that is still on the stack. */
    method Visit(v: Id, w: Id, ghost all: set<Id>, ghost s: Snapshot, ghost k: nat)
      requires Inv(EdgesOf(adj), all, Snap()) && StackOk(s)
      requires Scanning(EdgesOf(adj), s, Snap(), v, Targets(adj, v), k)
      requires k < |Targets(adj, v)| && Targets(adj, v)[k] == w
      modifies this
      ensures Inv(EdgesOf(adj), all, Snap())
      ensures Scanning(EdgesOf(adj), s, Snap(), v, Targets(adj, v), k + 1)
      decreases all - index.Keys, 1
    {
      hide Reaches, ReachesOpenBelow, StackReach, ComponentsOk, NoFinishedToNew, LowIsReached, LowBounds, Seen;
      ghost var g, targets, t := EdgesOf(adj), Targets(adj, v), Snap();
      assert (v, w) in g;
      if w !in index {
        OpenReachTarget(g, s, t, v, targets, k);
        StrongConnect(w, all);
        ghost var u := Snap();
        var low := if lowlink[v] < lowlink[w] then lowlink[v] else lowlink[w];
        WithLowInv(g, all, u, v, low);
        lowlink := lowlink[v := low];
        AbsorbCall(g, s, t, u, Snap(), v, targets, k, low);
      } else {
        var low := if w in onStack && index[w] < lowlink[v] then index[w] else lowlink[v];
        WithLowInv(g, all, t, v, low);
        if w in onStack {
          lowlink := lowlink[v := low];
        }
        assert Snap() == WithLow(t, v, low);
        AbsorbSeen(g, s, t, Snap(), v, targets, k, low);
      }
    }

    /** After the last edge of `v`: emit its component if `v` is the root of one. */
    method Close(v: Id, ghost all: set<Id>, ghost s: Snapshot)
      requires Inv(EdgesOf(adj), all, s) && Inv(EdgesOf(adj), all, Snap())
      requires Scanning(EdgesOf(adj), s, Snap(), v, Targets(adj, v), |Targets(adj, v)|)
      modifies this
      ensures Inv(EdgesOf(adj), all, Snap())
      ensures Finished(EdgesOf(adj), s, Snap(), v)
    {
      hide Reaches, ReachesOpenBelow, StackReach, ComponentsOk, NoFinishedToNew, LowIsReached, LowBounds, Seen;
      ghost var g, t := EdgesOf(adj), Snap();
      ghost var targets := Targets(adj, v);
      assert forall y :: (v, y) in g ==> y in targets;
      if lowlink[v] == index[v] {
        PopComponent(v, s.stack, s.onStack);
        open := s.open;
        CloseComponent(g, all, s, t, Snap(), v, targets, sccs[|sccs| - 1]);
      } else {
        open := s.open;
        LeaveOnStack(g, all, s, t, Snap(), v, targets);
      }
    }

    /** Pops the stack down to and including `v`, and emits what was popped. */
    method PopComponent(v: Id, ghost below: seq<Id>, ghost belowSet: set<Id>)
      requires below <= stack && |below| < |stack| && stack[|below|] == v
      requires forall i, j :: 0 <= i < j < |stack| ==> stack[i] != stack[j]
      requires onStack == Elems(stack) && belowSet == Elems(below)
      modifies this`stack, this`onStack, this`sccs
      ensures stack == below && onStack == belowSet
      ensures |sccs| == |old(sccs)| + 1 && sccs[..|old(sccs)|] == old(sccs)
      ensures IsReverse(sccs[|old(sccs)|], old(stack)[|below|..])
    {
      var component: seq<Id> := [];
      ghost var was := stack;
      while true
        invariant |below| < |stack| && stack <= was && |component| == |was| - |stack|
        invariant onStack == Elems(stack)
        invariant forall i :: 0 <= i < |component| ==> component[i] == was[|was| - 1 - i]
        invariant sccs == old(sccs)
        decreases |stack|
      {
        var w := stack[|stack| - 1];
        ghost var before := stack;
        stack := stack[..|stack| - 1];
        onStack := onStack - {w};
        component := component + [w];
        assert forall x :: x in before ==> x in stack || x == w;
        assert w !in stack;
        assert onStack == Elems(stack);
        if w == v {
          break;
        }
      }
      assert stack == below;
      sccs := sccs + [component];
    }
  }
}
