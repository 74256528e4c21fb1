/** Which outgoing edges fire when a node's artifact leaves it. */
module EdgeRouter {
  import opened Condition
  import opened Options
  import opened Pipeline

  predicate Matched(e: Edge, ctx: EvalContext) {
    e.when.Some? && EvaluateWithIter(e.when.value, ctx)
  }

  ghost predicate PortMatched(outgoing: seq<Edge>, ctx: EvalContext, port: string) {
    exists e :: e in outgoing && Matched(e, ctx) && port in e.source.ports
  }

  /** The declarative rule: a guarded edge fires iff its guard holds, an else edge
      iff no matched edge carries one of its ports, any other edge always. */
  ghost predicate Fires(outgoing: seq<Edge>, ctx: EvalContext, e: Edge) {
    if e.when.Some? then Matched(e, ctx)
    else e.isElse ==> forall port :: port in e.source.ports ==> !PortMatched(outgoing, ctx, port)
  }

  /** The edges of `edges` that fire, in order. */
  ghost function Firing(outgoing: seq<Edge>, ctx: EvalContext, edges: seq<Edge>): seq<Edge> {
    if edges == [] then []
    else
      var k := |edges| - 1;
      Firing(outgoing, ctx, edges[..k]) + if Fires(outgoing, ctx, edges[k]) then [edges[k]] else []
  }

  method FiredEdges(outgoing: seq<Edge>, ctx: EvalContext) returns (fired: seq<Edge>)
    ensures fired == Firing(outgoing, ctx, outgoing)
  {
    var guardMatched: seq<bool> := [];
    var matchedPorts: set<string> := {};
    for i := 0 to |outgoing|
      invariant |guardMatched| == i
      invariant forall j :: 0 <= j < i ==> guardMatched[j] == Matched(outgoing[j], ctx)
      invariant forall port :: port in matchedPorts <==> PortMatched(outgoing[..i], ctx, port)
    {
      var matched := Matched(outgoing[i], ctx);
      assert forall e :: e in outgoing[..i + 1] <==> e in outgoing[..i] || e == outgoing[i];
      if matched {
        matchedPorts := matchedPorts + set port | port in outgoing[i].source.ports;
      }
      guardMatched := guardMatched + [matched];
    }
    assert outgoing[..|outgoing|] == outgoing;

    fired := [];
    for i := 0 to |outgoing|
      invariant fired == Firing(outgoing, ctx, outgoing[..i])
    {
      var edge := outgoing[i];
      assert outgoing[..i + 1][..i] == outgoing[..i];
      var fires :=
        if edge.when.Some? then guardMatched[i]
        else if edge.isElse then !exists port :: port in edge.source.ports && port in matchedPorts
        else true;
      assert fires == Fires(outgoing, ctx, edge);
      if fires {
        fired := fired + [edge];
      }
    }
  }

  // ---------------------------------------------------------------------------
  // Consequences

  /** `picks` are increasing positions of `whole` that spell `part`. */
  ghost predicate Spells(part: seq<Edge>, whole: seq<Edge>, picks: seq<nat>) {
    && |picks| == |part|
    && (forall i :: 0 <= i < |picks| ==> picks[i] < |whole| && whole[picks[i]] == part[i])
    && (forall i, j :: 0 <= i < j < |picks| ==> picks[i] < picks[j])
  }

  /** The fired edges are a subsequence of the outgoing ones. */
  lemma {:induction false} FiringIsSubsequence(outgoing: seq<Edge>, ctx: EvalContext, edges: seq<Edge>)
    returns (picks: seq<nat>)
    ensures Spells(Firing(outgoing, ctx, edges), edges, picks)
  {
    picks := [];
    if edges != [] {
      var k := |edges| - 1;
      picks := FiringIsSubsequence(outgoing, ctx, edges[..k]);
      if Fires(outgoing, ctx, edges[k]) {
        picks := picks + [k];
      }
    }
  }

  /** An edge fires as often as it occurs, or not at all. */
  lemma {:induction false} FiringCounts(outgoing: seq<Edge>, ctx: EvalContext, edges: seq<Edge>, e: Edge)
    ensures multiset(Firing(outgoing, ctx, edges))[e]
            == if Fires(outgoing, ctx, e) then multiset(edges)[e] else 0
  {
    if edges != [] {
      var k := |edges| - 1;
      assert edges == edges[..k] + [edges[k]];
      FiringCounts(outgoing, ctx, edges[..k], e);
    }
  }

  lemma FiringMembers(outgoing: seq<Edge>, ctx: EvalContext, e: Edge)
    requires e in outgoing
    ensures e in Firing(outgoing, ctx, outgoing) <==> Fires(outgoing, ctx, e)
  {
    FiringCounts(outgoing, ctx, outgoing, e);
    assert e in multiset(outgoing);
    var fired := Firing(outgoing, ctx, outgoing);
    assert e in fired <==> e in multiset(fired);
  }

  /** A fallback is never lost: it fires, or an edge that shares a port with it does. */
  lemma ElseFiresOrIsCovered(outgoing: seq<Edge>, ctx: EvalContext, e: Edge)
    requires e in outgoing && e.when.None?
    ensures var fired := Firing(outgoing, ctx, outgoing);
            e in fired || exists f, port :: f in fired && Matched(f, ctx)
                                            && port in f.source.ports && port in e.source.ports
  {
    FiringMembers(outgoing, ctx, e);
    if !Fires(outgoing, ctx, e) {
      var port :| port in e.source.ports && PortMatched(outgoing, ctx, port);
      var f :| f in outgoing && Matched(f, ctx) && port in f.source.ports;
      FiringMembers(outgoing, ctx, f);
    }
  }

  /** No fired else edge shares a port with a matched one. */
  lemma ElseExcludesMatched(outgoing: seq<Edge>, ctx: EvalContext, e: Edge, f: Edge, port: string)
    requires e in outgoing && f in outgoing && e.when.None? && e.isElse && Matched(f, ctx)
    requires port in e.source.ports && port in f.source.ports
    ensures e !in Firing(outgoing, ctx, outgoing) && f in Firing(outgoing, ctx, outgoing)
  {
    FiringMembers(outgoing, ctx, e);
    FiringMembers(outgoing, ctx, f);
    assert PortMatched(outgoing, ctx, port);
  }

  /** Permuting the outgoing edges only permutes the fired ones. */
  lemma PermutationOnlyPermutes(a: seq<Edge>, b: seq<Edge>, ctx: EvalContext)
    requires multiset(a) == multiset(b)
    ensures multiset(Firing(a, ctx, a)) == multiset(Firing(b, ctx, b))
  {
    assert forall e :: e in a <==> e in multiset(a);
    assert forall e :: e in b <==> e in multiset(b);
    assert forall port :: PortMatched(a, ctx, port) <==> PortMatched(b, ctx, port);
    forall e
      ensures multiset(Firing(a, ctx, a))[e] == multiset(Firing(b, ctx, b))[e]
    {
      FiringCounts(a, ctx, a, e);
      FiringCounts(b, ctx, b, e);
    }
  }

  /** An edge whose guard is met in the context. */
  ghost predicate GuardMet(e: Edge, ctx: EvalContext) {
    match e.when
    case Some(when) => EvaluateWithIter(when, ctx)
    case None => false
  }

  /** Said of the edges themselves: a guarded edge fires iff its guard is met, an else
      edge iff no edge whose guard is met shares a port with it, any other edge always. */
  lemma FiredIff(outgoing: seq<Edge>, ctx: EvalContext, e: Edge)
    ensures e in Firing(outgoing, ctx, outgoing)
            <==> && e in outgoing
                 && (e.when.Some? ==> GuardMet(e, ctx))
                 && (e.when.None? && e.isElse ==>
                       forall f, port :: f in outgoing && GuardMet(f, ctx) ==>
                         !(port in f.source.ports && port in e.source.ports))
  {
    FiringCounts(outgoing, ctx, outgoing, e);
    var fired := Firing(outgoing, ctx, outgoing);
    assert e in fired <==> multiset(fired)[e] > 0;
    assert e in outgoing <==> multiset(outgoing)[e] > 0;
    forall f
      ensures Matched(f, ctx) <==> GuardMet(f, ctx)
    {
    }
    hide EvaluateWithIter, Matched, GuardMet;
    if e in outgoing && e.when.None? && e.isElse && !Fires(outgoing, ctx, e) {
      var port :| port in e.source.ports && PortMatched(outgoing, ctx, port);
      var f :| f in outgoing && Matched(f, ctx) && port in f.source.ports;
    }
    if f, port :| f in outgoing && GuardMet(f, ctx) && port in f.source.ports && port in e.source.ports {
      assert PortMatched(outgoing, ctx, port);
    }
  }
}
