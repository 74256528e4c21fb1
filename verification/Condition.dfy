/** The predicate language of `when` clauses. */
module Condition {
  import opened Options
  import opened StringOrder
  import opened Yaml

  datatype EvalContext = EvalContext(iter: int, fields: map<string, Value>, variables: map<string, Value>)

  // ---------------------------------------------------------------------------
  // Operands

  function UntagSmaller(v: Value): (u: Value)
    ensures u == Untag(v) && (u == v || u < v) && !u.Tagged?
  {
    match v
    case Tagged(_, inner) => UntagSmaller(inner)
    case _ => v
  }

  predicate IsVariable(s: string) {
    |s| > 0 && s[0] == '$'
  }

  /** A `$name` operand reads a variable; a sequence resolves item by item. */
  function ResolveValue(operand: Value, vars: map<string, Value>): Option<Value>
    decreases operand, 1
  {
    match UntagSmaller(operand)
    case Str(s) =>
      if IsVariable(s) then (if s[1..] in vars then Some(vars[s[1..]]) else None) else Some(operand)
    case Sequence(items) =>
      (match ResolveAll(items, vars)
       case None => None
       case Some(resolved) => Some(Sequence(resolved)))
    case _ => Some(operand)
  }

  function ResolveAll(items: seq<Value>, vars: map<string, Value>): (r: Option<seq<Value>>)
    ensures r.Some? ==> |r.value| == |items|
    decreases items, 0
  {
    if items == [] then Some([])
    else
      match ResolveValue(items[0], vars)
      case None => None
      case Some(v) =>
        match ResolveAll(items[1..], vars)
        case None => None
        case Some(rest) => Some([v] + rest)
  }

  // ---------------------------------------------------------------------------
  // Comparisons

  datatype Ordering = Less | Equal | Greater

  function CompareNumbers(a: Number, b: Number): Option<Ordering> {
    match (a, b)
    case (NaN, _) => None
    case (_, NaN) => None
    case (Finite(x), Finite(y)) => Some(if x < y then Less else if x == y then Equal else Greater)
    case (NegInf, NegInf) => Some(Equal)
    case (PosInf, PosInf) => Some(Equal)
    case (NegInf, _) => Some(Less)
    case (_, PosInf) => Some(Less)
    case (PosInf, _) => Some(Greater)
    case (_, NegInf) => Some(Greater)
  }

  function CompareStrings(a: string, b: string): Ordering {
    if a == b then Equal else if LexLe(a, b) then Less else Greater
  }

  function ValuesEqual(a: Value, b: Value): bool {
    match (a, b)
    case (Num(x), Num(y)) => CompareNumbers(x, y) == Some(Equal)
    case (Str(x), Str(y)) => x == y
    case (Bool(x), Bool(y)) => x == y
    case (Null, Null) => true
    case _ => false
  }

  function ValCmp(field: Option<Value>, operand: Value): Option<Ordering> {
    if field.None? then None
    else
      match (field.value, operand)
      case (Num(x), Num(y)) => CompareNumbers(x, y)
      case (Str(x), Str(y)) => Some(CompareStrings(x, y))
      case _ => None
  }

  function ValEq(field: Option<Value>, operand: Value): bool {
    field.Some? && ValuesEqual(field.value, operand)
  }

  function ValIn(field: Option<Value>, operand: Value): bool {
    && field.Some?
    && AsSequence(operand).Some?
    && SomeItemEquals(field.value, AsSequence(operand).value)
  }

  predicate SomeItemEquals(value: Value, items: seq<Value>) {
    exists i :: 0 <= i < |items| && ValuesEqual(value, items[i])
  }

  function ApplyOp(op: string, field: Option<Value>, operand: Value): bool {
    var cmp := ValCmp(field, operand);
    if op == "eq" then ValEq(field, operand)
    else if op == "neq" then !ValEq(field, operand)
    else if op == "lt" then cmp == Some(Less)
    else if op == "lte" then cmp == Some(Less) || cmp == Some(Equal)
    else if op == "gt" then cmp == Some(Greater)
    else if op == "gte" then cmp == Some(Greater) || cmp == Some(Equal)
    else if op == "in" then ValIn(field, operand)
    else if op == "not_in" then !ValIn(field, operand)
    else false
  }

  // ---------------------------------------------------------------------------
  // Clauses

  function EvaluatePredicate(predicate_: Value, field: Option<Value>, vars: map<string, Value>): bool {
    match AsMapping(predicate_)
    case None => false
    case Some(entries) => AllOpsHold(entries, field, vars)
  }

  function OpHolds(entry: (Value, Value), field: Option<Value>, vars: map<string, Value>): bool {
    match AsStr(entry.0)
    case None => false
    case Some(op) =>
      match ResolveValue(entry.1, vars)
      case None => false
      case Some(operand) => ApplyOp(op, field, operand)
  }

  /** Entries are tried in order, up to the first that fails. */
  function AllOpsHold(entries: seq<(Value, Value)>, field: Option<Value>, vars: map<string, Value>): bool {
    entries == [] || (OpHolds(entries[0], field, vars) && AllOpsHold(entries[1..], field, vars))
  }

  function FieldOf(ctx: EvalContext, name: string): Option<Value> {
    if name == "iter" then Some(Num(Finite(ctx.iter as real)))
    else if name in ctx.fields then Some(ctx.fields[name])
    else None
  }

  function EvaluateWithIter(when: Value, ctx: EvalContext): bool
    decreases when, 2
  {
    match UntagSmaller(when)
    case Mapping(entries) => AllEntriesHold(entries, ctx)
    case _ => false
  }

  function AllEntriesHold(entries: seq<(Value, Value)>, ctx: EvalContext): bool
    decreases entries, 1
  {
    entries == [] || (EntryHolds(entries[0], ctx) && AllEntriesHold(entries[1..], ctx))
  }

  function EntryHolds(entry: (Value, Value), ctx: EvalContext): bool
    decreases entry, 0
  {
    match AsStr(entry.0)
    case None => false
    case Some(name) =>
      if name == "any" then EvaluateAnyWithIter(entry.1, ctx)
      else EvaluatePredicate(entry.1, FieldOf(ctx, name), ctx.variables)
  }

  function EvaluateAnyWithIter(clauses: Value, ctx: EvalContext): bool
    decreases clauses, 2
  {
    match UntagSmaller(clauses)
    case Sequence(items) => SomeClauseHolds(items, ctx)
    case _ => false
  }

  function SomeClauseHolds(items: seq<Value>, ctx: EvalContext): bool
    decreases items, 1
  {
    items != [] && (EvaluateWithIter(items[0], ctx) || SomeClauseHolds(items[1..], ctx))
  }

  // ---------------------------------------------------------------------------
  // Key order

  /** The same value up to the order of mapping entries, at any depth. */
  ghost predicate SameUpToOrder(v: Value, w: Value)
    decreases v, 2
  {
    match v
    case Mapping(entries) => w.Mapping? && SameEntries(entries, w.entries)
    case Sequence(items) => w.Sequence? && SameItems(items, w.items)
    case Tagged(tag, inner) => w.Tagged? && w.tag == tag && SameUpToOrder(inner, w.inner)
    case _ => v == w
  }

  ghost predicate SameItems(a: seq<Value>, b: seq<Value>)
    decreases a, 1
  {
    if a == [] then b == []
    else b != [] && SameUpToOrder(a[0], b[0]) && SameItems(a[1..], b[1..])
  }

  /** Some entry of `b` has the first key of `a` and a like value, and the rest
      match up in turn. */
  ghost predicate SameEntries(a: seq<(Value, Value)>, b: seq<(Value, Value)>)
    decreases a, 1
  {
    if a == [] then b == []
    else exists j :: 0 <= j < |b| && SameEntry(a[0], b[j]) && SameEntries(a[1..], Without(b, j))
  }

  ghost predicate SameEntry(x: (Value, Value), y: (Value, Value))
    decreases x, 0
  {
    x.0 == y.0 && SameUpToOrder(x.1, y.1)
  }

  function Without<T>(s: seq<T>, j: nat): (r: seq<T>)
    requires j < |s|
    ensures |r| == |s| - 1
  {
    s[..j] + s[j + 1..]
  }

  lemma {:induction false} SameReflexive(v: Value)
    ensures SameUpToOrder(v, v)
    decreases v, 2
  {
    match v
    case Mapping(entries) => SameEntriesReflexive(entries);
    case Sequence(items) => SameItemsReflexive(items);
    case Tagged(_, inner) => SameReflexive(inner);
    case _ =>
  }

  lemma {:induction false} SameItemsReflexive(a: seq<Value>)
    ensures SameItems(a, a)
    decreases a, 1
  {
    if a != [] {
      SameReflexive(a[0]);
      SameItemsReflexive(a[1..]);
    }
  }

  lemma {:induction false} SameEntriesReflexive(a: seq<(Value, Value)>)
    ensures SameEntries(a, a)
    decreases a, 1
  {
    if a != [] {
      SameEntryReflexive(a[0]);
      SameEntriesReflexive(a[1..]);
      assert Without(a, 0) == a[1..];
    }
  }

  lemma {:induction false} SameEntryReflexive(x: (Value, Value))
    ensures SameEntry(x, x)
    decreases x, 0
  {
    SameReflexive(x.1);
  }

  lemma {:induction false} SameUntagged(v: Value, w: Value)
    requires SameUpToOrder(v, w)
    ensures SameUpToOrder(Untag(v), Untag(w))
  {
    if v.Tagged? {
      SameUntagged(v.inner, w.inner);
    }
  }

  /** Like operands resolve alike. */
  lemma {:induction false} SameResolved(v: Value, w: Value, vars: map<string, Value>)
    requires SameUpToOrder(v, w)
    ensures ResolveValue(v, vars).Some? <==> ResolveValue(w, vars).Some?
    ensures ResolveValue(v, vars).Some? ==> SameUpToOrder(ResolveValue(v, vars).value, ResolveValue(w, vars).value)
    decreases v, 1
  {
    SameUntagged(v, w);
    match UntagSmaller(v)
    case Sequence(items) =>
      SameItemsResolved(items, UntagSmaller(w).items, vars);
    case Str(s) =>
      if IsVariable(s) && s[1..] in vars {
        SameReflexive(vars[s[1..]]);
      }
    case _ =>
  }

  lemma {:induction false} SameItemsResolved(a: seq<Value>, b: seq<Value>, vars: map<string, Value>)
    requires SameItems(a, b)
    ensures ResolveAll(a, vars).Some? <==> ResolveAll(b, vars).Some?
    ensures ResolveAll(a, vars).Some? ==> SameItems(ResolveAll(a, vars).value, ResolveAll(b, vars).value)
    decreases a, 0
  {
    if a != [] {
      SameResolved(a[0], b[0], vars);
      SameItemsResolved(a[1..], b[1..], vars);
    }
  }

  /** Comparisons cannot tell like operands apart. */
  lemma SameCompared(op: string, field: Option<Value>, v: Value, w: Value)
    requires SameUpToOrder(v, w)
    ensures ApplyOp(op, field, v) == ApplyOp(op, field, w)
  {
    SameIn(field, v, w);
    assert ValCmp(field, v) == ValCmp(field, w);
    assert ValEq(field, v) == ValEq(field, w);
  }

  lemma SameIn(field: Option<Value>, v: Value, w: Value)
    requires SameUpToOrder(v, w)
    ensures ValIn(field, v) == ValIn(field, w)
  {
    SameUntagged(v, w);
    if field.Some? && Untag(v).Sequence? {
      SameSomeItem(field.value, Untag(v).items, Untag(w).items);
    }
  }

  lemma SameSomeItem(value: Value, a: seq<Value>, b: seq<Value>)
    requires SameItems(a, b)
    ensures SomeItemEquals(value, a) == SomeItemEquals(value, b)
  {
    SameItemsIndexed(a, b);
    hide SameItems;
    forall i | 0 <= i < |a|
      ensures ValuesEqual(value, a[i]) == ValuesEqual(value, b[i])
    {
      assert SameUpToOrder(a[i], b[i]);
    }
  }

  lemma {:induction false} SameItemsIndexed(a: seq<Value>, b: seq<Value>)
    requires SameItems(a, b)
    ensures |a| == |b| && forall i :: 0 <= i < |a| ==> SameUpToOrder(a[i], b[i])
  {
    if a != [] {
      SameItemsIndexed(a[1..], b[1..]);
      forall i | 0 <= i < |a|
        ensures SameUpToOrder(a[i], b[i])
      {
        assert i > 0 ==> a[i] == a[1..][i - 1] && b[i] == b[1..][i - 1];
      }
    }
  }

  /** Any one operator may be tried first. */
  lemma {:induction false} OpFirst(b: seq<(Value, Value)>, j: nat, field: Option<Value>, vars: map<string, Value>)
    requires j < |b|
    ensures AllOpsHold(b, field, vars) == (OpHolds(b[j], field, vars) && AllOpsHold(Without(b, j), field, vars))
  {
    if j == 0 {
      assert Without(b, 0) == b[1..];
    } else {
      OpFirst(b[1..], j - 1, field, vars);
      assert Without(b, j)[1..] == Without(b[1..], j - 1);
    }
  }

  lemma {:induction false} SameOps(a: seq<(Value, Value)>, b: seq<(Value, Value)>,
                                   field: Option<Value>, vars: map<string, Value>)
    requires SameEntries(a, b)
    ensures AllOpsHold(a, field, vars) == AllOpsHold(b, field, vars)
  {
    if a != [] {
      var j :| 0 <= j < |b| && SameEntry(a[0], b[j]) && SameEntries(a[1..], Without(b, j));
      OpFirst(b, j, field, vars);
      SameOps(a[1..], Without(b, j), field, vars);
      SameResolved(a[0].1, b[j].1, vars);
      var r := ResolveValue(a[0].1, vars);
      if AsStr(a[0].0).Some? && r.Some? {
        SameCompared(AsStr(a[0].0).value, field, r.value, ResolveValue(b[j].1, vars).value);
      }
    }
  }

  /** Any one entry may be tried first. */
  lemma {:induction false} EntryFirst(b: seq<(Value, Value)>, j: nat, ctx: EvalContext)
    requires j < |b|
    ensures AllEntriesHold(b, ctx) == (EntryHolds(b[j], ctx) && AllEntriesHold(Without(b, j), ctx))
  {
    if j == 0 {
      assert Without(b, 0) == b[1..];
    } else {
      EntryFirst(b[1..], j - 1, ctx);
      assert Without(b, j)[1..] == Without(b[1..], j - 1);
    }
  }

  /** The order of mapping keys, at any depth, never changes a verdict. */
  lemma {:induction false} KeyOrderIrrelevant(v: Value, w: Value, ctx: EvalContext)
    requires SameUpToOrder(v, w)
    ensures EvaluateWithIter(v, ctx) == EvaluateWithIter(w, ctx)
    decreases v, 2
  {
    SameUntagged(v, w);
    match UntagSmaller(v)
    case Mapping(entries) => SameEntriesHold(entries, UntagSmaller(w).entries, ctx);
    case _ =>
  }

  lemma {:induction false} SameEntriesHold(a: seq<(Value, Value)>, b: seq<(Value, Value)>, ctx: EvalContext)
    requires SameEntries(a, b)
    ensures AllEntriesHold(a, ctx) == AllEntriesHold(b, ctx)
    decreases a, 1
  {
    if a != [] {
      var j :| 0 <= j < |b| && SameEntry(a[0], b[j]) && SameEntries(a[1..], Without(b, j));
      EntryFirst(b, j, ctx);
      SameEntriesHold(a[1..], Without(b, j), ctx);
      SameEntryHolds(a[0], b[j], ctx);
    }
  }

  lemma {:induction false} SameEntryHolds(x: (Value, Value), y: (Value, Value), ctx: EvalContext)
    requires SameEntry(x, y)
    ensures EntryHolds(x, ctx) == EntryHolds(y, ctx)
    decreases x, 0
  {
    SameUntagged(x.1, y.1);
    if AsStr(x.0) == Some("any") {
      match UntagSmaller(x.1)
      case Sequence(items) => SameClauses(items, UntagSmaller(y.1).items, ctx);
      case _ =>
    } else if AsStr(x.0).Some? && Untag(x.1).Mapping? {
      SameOps(Untag(x.1).entries, Untag(y.1).entries, FieldOf(ctx, AsStr(x.0).value), ctx.variables);
    }
  }

  lemma {:induction false} SameClauses(a: seq<Value>, b: seq<Value>, ctx: EvalContext)
    requires SameItems(a, b)
    ensures SomeClauseHolds(a, ctx) == SomeClauseHolds(b, ctx)
    decreases a, 1
  {
    if a != [] {
      KeyOrderIrrelevant(a[0], b[0], ctx);
      SameClauses(a[1..], b[1..], ctx);
    }
  }

  // ---------------------------------------------------------------------------
  // Membership as alternatives

  function Clause(field: string, op: string, operand: Value): Value {
    Mapping([(Str(field), Mapping([(Str(op), operand)]))])
  }

  /** `any: [{f: {eq: v}}, ...]` over the values of a list. */
  function EqualAlternatives(field: string, items: seq<Value>): seq<Value> {
    if items == [] then [] else [Clause(field, "eq", items[0])] + EqualAlternatives(field, items[1..])
  }

  function AnyEqual(field: string, items: seq<Value>): Value {
    Mapping([(Str("any"), Sequence(EqualAlternatives(field, items)))])
  }

  /** A one-operator clause is the operator applied to the resolved operand. */
  lemma ClauseMeans(field: string, op: string, operand: Value, ctx: EvalContext)
    requires field != "any"
    ensures EvaluateWithIter(Clause(field, op, operand), ctx)
            == (ResolveValue(operand, ctx.variables).Some?
                && ApplyOp(op, FieldOf(ctx, field), ResolveValue(operand, ctx.variables).value))
  {
    var inner := [(Str(op), operand)];
    var outer := [(Str(field), Mapping(inner))];
    assert inner[1..] == [] && outer[1..] == [];
    assert AllOpsHold(inner, FieldOf(ctx, field), ctx.variables)
           == OpHolds(inner[0], FieldOf(ctx, field), ctx.variables);
    assert AllEntriesHold(outer, ctx) == EntryHolds(outer[0], ctx);
  }

  ghost predicate EqualTo(field: Option<Value>, item: Value, vars: map<string, Value>) {
    ResolveValue(item, vars).Some? && ValEq(field, ResolveValue(item, vars).value)
  }

  /** Some item that resolves equals the field. */
  ghost predicate SomeEqualTo(field: Option<Value>, items: seq<Value>, vars: map<string, Value>) {
    exists i :: 0 <= i < |items| && EqualTo(field, items[i], vars)
  }

  lemma {:induction false} AlternativesMean(field: string, items: seq<Value>, ctx: EvalContext)
    requires field != "any"
    ensures SomeClauseHolds(EqualAlternatives(field, items), ctx)
            <==> SomeEqualTo(FieldOf(ctx, field), items, ctx.variables)
  {
    if items != [] {
      var tail := items[1..];
      AlternativesMean(field, tail, ctx);
      ClauseMeans(field, "eq", items[0], ctx);
      assert EqualAlternatives(field, items)[1..] == EqualAlternatives(field, tail);
      if i :| 0 <= i < |items| && EqualTo(FieldOf(ctx, field), items[i], ctx.variables) {
        assert i > 0 ==> tail[i - 1] == items[i];
      }
      if i :| 0 <= i < |tail| && EqualTo(FieldOf(ctx, field), tail[i], ctx.variables) {
        assert items[i + 1] == tail[i];
      }
    }
  }

  lemma {:induction false} ResolveAllIndexed(items: seq<Value>, vars: map<string, Value>)
    ensures ResolveAll(items, vars).Some? <==> forall i :: 0 <= i < |items| ==> ResolveValue(items[i], vars).Some?
    ensures ResolveAll(items, vars).Some? ==>
              forall i :: 0 <= i < |items| ==> ResolveValue(items[i], vars) == Some(ResolveAll(items, vars).value[i])
  {
    if items != [] {
      ResolveAllIndexed(items[1..], vars);
      assert forall i :: 1 <= i < |items| ==> items[i] == items[1..][i - 1];
    }
  }

  /** `{f: {in: L}}` and `any` over `{f: {eq: v}}` agree exactly when every item of
      the list resolves, or no item that does resolve equals the field. */
  lemma MembershipIsAlternatives(field: string, items: seq<Value>, ctx: EvalContext)
    requires field != "any"
    ensures (EvaluateWithIter(Clause(field, "in", Sequence(items)), ctx)
             == EvaluateWithIter(AnyEqual(field, items), ctx))
            <==> (ResolveAll(items, ctx.variables).Some?
                  || !SomeEqualTo(FieldOf(ctx, field), items, ctx.variables))
  {
    InMeans(field, items, ctx);
    AnyMeans(field, items, ctx);
    hide EvaluateWithIter, ResolveAll;
  }

  lemma InMeans(field: string, items: seq<Value>, ctx: EvalContext)
    requires field != "any"
    ensures EvaluateWithIter(Clause(field, "in", Sequence(items)), ctx)
            <==> (ResolveAll(items, ctx.variables).Some?
                  && SomeEqualTo(FieldOf(ctx, field), items, ctx.variables))
  {
    hide EvaluateWithIter, FieldOf, SomeEqualTo, SomeItemEquals;
    var vars, fv := ctx.variables, FieldOf(ctx, field);
    ClauseMeans(field, "in", Sequence(items), ctx);
    ResolveAllIndexed(items, vars);
    if ResolveAll(items, vars).Some? {
      ResolvedMembership(fv, items, ResolveAll(items, vars).value, vars);
    }
  }

  lemma ResolvedMembership(field: Option<Value>, items: seq<Value>, resolved: seq<Value>, vars: map<string, Value>)
    requires ResolveAll(items, vars) == Some(resolved)
    ensures field.Some? && SomeItemEquals(field.value, resolved)
            <==> SomeEqualTo(field, items, vars)
  {
    ResolveAllIndexed(items, vars);
    hide ResolveAll, ResolveValue;
    if SomeEqualTo(field, items, vars) {
      var i :| 0 <= i < |items| && EqualTo(field, items[i], vars);
      assert ValuesEqual(field.value, resolved[i]);
    }
    if field.Some? && SomeItemEquals(field.value, resolved) {
      var i :| 0 <= i < |resolved| && ValuesEqual(field.value, resolved[i]);
      assert EqualTo(field, items[i], vars);
    }
  }

  lemma OneEntry(entry: (Value, Value), ctx: EvalContext)
    ensures EvaluateWithIter(Mapping([entry]), ctx) == EntryHolds(entry, ctx)
  {
    hide EntryHolds;
    assert [entry][1..] == [];
    assert AllEntriesHold([entry], ctx) == EntryHolds(entry, ctx);
  }

  lemma OneAny(clauses: seq<Value>, ctx: EvalContext)
    ensures EntryHolds((Str("any"), Sequence(clauses)), ctx) == SomeClauseHolds(clauses, ctx)
  {
    hide SomeClauseHolds;
    assert AsStr(Str("any")) == Some("any");
    assert EvaluateAnyWithIter(Sequence(clauses), ctx) == SomeClauseHolds(clauses, ctx);
  }

  lemma AnyMeans(field: string, items: seq<Value>, ctx: EvalContext)
    requires field != "any"
    ensures EvaluateWithIter(AnyEqual(field, items), ctx)
            <==> SomeEqualTo(FieldOf(ctx, field), items, ctx.variables)
  {
    var clauses := EqualAlternatives(field, items);
    OneEntry((Str("any"), Sequence(clauses)), ctx);
    OneAny(clauses, ctx);
    AlternativesMean(field, items, ctx);
    hide EvaluateWithIter, EntryHolds, SomeClauseHolds;
  }

  /** No variable anywhere in the operand. */
  predicate IsLiteral(v: Value)
    decreases v, 1
  {
    match UntagSmaller(v)
    case Str(s) => !IsVariable(s)
    case Sequence(items) => AllLiteral(items)
    case _ => true
  }

  predicate AllLiteral(items: seq<Value>)
    decreases items, 0
  {
    items == [] || (IsLiteral(items[0]) && AllLiteral(items[1..]))
  }

  lemma {:induction false} LiteralResolves(v: Value, vars: map<string, Value>)
    requires IsLiteral(v)
    ensures ResolveValue(v, vars).Some?
    decreases v, 1
  {
    match UntagSmaller(v)
    case Sequence(items) => LiteralsResolve(items, vars);
    case _ =>
  }

  lemma {:induction false} LiteralsResolve(items: seq<Value>, vars: map<string, Value>)
    requires AllLiteral(items)
    ensures ResolveAll(items, vars).Some?
    decreases items, 0
  {
    if items != [] {
      LiteralResolves(items[0], vars);
      LiteralsResolve(items[1..], vars);
    }
  }

  /** Over a list of literals, membership is the alternatives. */
  lemma LiteralMembership(field: string, items: seq<Value>, ctx: EvalContext)
    requires field != "any" && AllLiteral(items)
    ensures EvaluateWithIter(Clause(field, "in", Sequence(items)), ctx)
            == EvaluateWithIter(AnyEqual(field, items), ctx)
  {
    LiteralsResolve(items, ctx.variables);
    MembershipIsAlternatives(field, items, ctx);
  }

  // ---------------------------------------------------------------------------
  // Negation

  /** `neq` and `not_in` are the negations of `eq` and `in` exactly when the operand
      resolves; a missing field is no exception. */
  lemma NegationsAreExact(field: string, operand: Value, ctx: EvalContext)
    requires field != "any"
    ensures (EvaluateWithIter(Clause(field, "neq", operand), ctx)
             == !EvaluateWithIter(Clause(field, "eq", operand), ctx))
            <==> ResolveValue(operand, ctx.variables).Some?
    ensures (EvaluateWithIter(Clause(field, "not_in", operand), ctx)
             == !EvaluateWithIter(Clause(field, "in", operand), ctx))
            <==> ResolveValue(operand, ctx.variables).Some?
  {
    ClauseMeans(field, "neq", operand, ctx);
    ClauseMeans(field, "eq", operand, ctx);
    ClauseMeans(field, "not_in", operand, ctx);
    ClauseMeans(field, "in", operand, ctx);
  }

  // ---------------------------------------------------------------------------
  // Order, conjunction and alternatives

  /** On comparable values exactly one of `lt`, `eq` and `gt` holds, `lte` and `gte`
      are their unions with `eq`, and exchanging the sides exchanges `lt` and `gt`. */
  lemma OrderOperators(a: Value, b: Value)
    requires ValCmp(Some(a), b).Some?
    ensures var lt, eq, gt := ApplyOp("lt", Some(a), b), ApplyOp("eq", Some(a), b), ApplyOp("gt", Some(a), b);
            && (lt || eq || gt) && !(lt && eq) && !(lt && gt) && !(eq && gt)
            && ApplyOp("lte", Some(a), b) == (lt || eq) && ApplyOp("gte", Some(a), b) == (gt || eq)
            && ApplyOp("gt", Some(b), a) == lt && ApplyOp("lt", Some(b), a) == gt
    ensures a.Num? && a.n.Finite? && b.n.Finite? ==> (ApplyOp("lt", Some(a), b) <==> a.n.r < b.n.r)
    ensures a.Str? ==> (ApplyOp("lte", Some(a), b) <==> LexLe(a.s, b.s))
  {
    if a.Str? {
      LexTotal(a.s, b.s);
      LexTotal(a.s, a.s);
    }
  }

  /** A missing field satisfies the two negative operators and no other. */
  lemma MissingField(op: string, operand: Value)
    ensures ApplyOp(op, None, operand) <==> op == "neq" || op == "not_in"
  {
  }

  lemma {:induction false} EntriesAreConjunction(entries: seq<(Value, Value)>, ctx: EvalContext)
    ensures AllEntriesHold(entries, ctx) <==> forall i :: 0 <= i < |entries| ==> EntryHolds(entries[i], ctx)
  {
    if entries != [] {
      EntriesAreConjunction(entries[1..], ctx);
      assert forall i :: 1 <= i < |entries| ==> entries[i] == entries[1..][i - 1];
    }
  }

  lemma {:induction false} ClausesAreAlternatives(items: seq<Value>, ctx: EvalContext)
    ensures SomeClauseHolds(items, ctx) <==> exists i :: 0 <= i < |items| && EvaluateWithIter(items[i], ctx)
  {
    if items != [] {
      var tail := items[1..];
      ClausesAreAlternatives(tail, ctx);
      if i :| 0 <= i < |items| && EvaluateWithIter(items[i], ctx) {
        assert i > 0 ==> tail[i - 1] == items[i];
      }
      if i :| 0 <= i < |tail| && EvaluateWithIter(tail[i], ctx) {
        assert items[i + 1] == tail[i];
      }
    }
  }

  // ---------------------------------------------------------------------------
  // What a one-operator clause says of the data

  /** The value a clause on this name looks at: the iteration for `iter`, otherwise the
      source's field of that name. */
  ghost predicate LooksAt(ctx: EvalContext, name: string, x: Option<Value>) {
    if name == "iter" then x == Some(Num(Finite(ctx.iter as real)))
    else if name in ctx.fields then x == Some(ctx.fields[name])
    else x == None
  }

  /** The operand a scalar stands for: the variable it names, or itself. */
  ghost predicate StandsFor(ctx: EvalContext, operand: Value, w: Value) {
    match operand
    case Str(s) =>
      if s != "" && s[0] == '$' then s[1..] in ctx.variables && w == ctx.variables[s[1..]] else w == operand
    case Null => w == operand
    case Bool(_) => w == operand
    case Num(_) => w == operand
    case _ => false
  }

  /** Scalars of one kind and the same value; NaN is like nothing. */
  ghost predicate Alike(x: Value, w: Value) {
    (x.Null? || x.Bool? || x.Str? || (x.Num? && !x.n.NaN?)) && x == w
  }

  /** Numbers in their order, with the infinities at its ends, and texts at their first
      difference. */
  ghost predicate Below(x: Value, w: Value) {
    match (x, w)
    case (Num(Finite(a)), Num(Finite(b))) => a < b
    case (Num(Finite(_)), Num(PosInf)) => true
    case (Num(NegInf), Num(n)) => n.Finite? || n.PosInf?
    case (Str(a), Str(b)) =>
      (a <= b && a != b) || exists k :: 0 <= k < |a| && k < |b| && a[..k] == b[..k] && a[k] < b[k]
    case _ => false
  }

  lemma EqualIsAlike(x: Value, w: Value)
    ensures ValuesEqual(x, w) <==> Alike(x, w)
  {
  }

  lemma LessIsBelow(x: Value, w: Value)
    ensures ValCmp(Some(x), w) == Some(Less) <==> Below(x, w)
    ensures ValCmp(Some(x), w) == Some(Greater) <==> Below(w, x)
    ensures ValCmp(Some(x), w) == Some(Equal) <==> Alike(x, w) && (x.Num? || x.Str?)
  {
    if x.Str? && w.Str? {
      LexTotal(x.s, w.s);
      LexTotal(x.s, x.s);
      LexLeIff(x.s, w.s);
      LexLeIff(w.s, x.s);
    }
  }

  lemma StandsForResolved(ctx: EvalContext, operand: Value, w: Value)
    requires StandsFor(ctx, operand, w)
    ensures ResolveValue(operand, ctx.variables) == Some(w)
  {
  }

  /** Equality, on the value looked at and the operand stood for. */
  lemma EqualityMeans(name: string, operand: Value, ctx: EvalContext, x: Option<Value>, w: Value)
    requires name != "any" && LooksAt(ctx, name, x) && StandsFor(ctx, operand, w)
    ensures EvaluateWithIter(Clause(name, "eq", operand), ctx) <==> x.Some? && Alike(x.value, w)
    ensures EvaluateWithIter(Clause(name, "neq", operand), ctx) <==> !(x.Some? && Alike(x.value, w))
  {
    ClauseMeans(name, "eq", operand, ctx);
    ClauseMeans(name, "neq", operand, ctx);
    StandsForResolved(ctx, operand, w);
    if x.Some? {
      EqualIsAlike(x.value, w);
    }
    hide EvaluateWithIter, ResolveValue, ValuesEqual, ValCmp, Alike, StandsFor;
  }

  /** The four order operators, likewise. */
  lemma OrderMeans(name: string, operand: Value, ctx: EvalContext, x: Option<Value>, w: Value)
    requires name != "any" && LooksAt(ctx, name, x) && StandsFor(ctx, operand, w)
    ensures EvaluateWithIter(Clause(name, "lt", operand), ctx) <==> x.Some? && Below(x.value, w)
    ensures EvaluateWithIter(Clause(name, "gt", operand), ctx) <==> x.Some? && Below(w, x.value)
    ensures EvaluateWithIter(Clause(name, "lte", operand), ctx)
            <==> x.Some? && (Below(x.value, w) || (Alike(x.value, w) && (w.Num? || w.Str?)))
    ensures EvaluateWithIter(Clause(name, "gte", operand), ctx)
            <==> x.Some? && (Below(w, x.value) || (Alike(x.value, w) && (w.Num? || w.Str?)))
  {
    ClauseMeans(name, "lt", operand, ctx);
    ClauseMeans(name, "gt", operand, ctx);
    ClauseMeans(name, "lte", operand, ctx);
    ClauseMeans(name, "gte", operand, ctx);
    StandsForResolved(ctx, operand, w);
    hide EvaluateWithIter, ResolveValue, ValuesEqual, StandsFor;
    if x.Some? {
      LessIsBelow(x.value, w);
      assert Alike(x.value, w) ==> x.value == w;
    }
    hide ValCmp, Below, Alike;
  }

  /** Membership in a list of scalars: some item stands for a value like the one looked
      at. */
  lemma MembershipMeans(name: string, items: seq<Value>, ctx: EvalContext, x: Option<Value>, ws: seq<Value>)
    requires name != "any" && LooksAt(ctx, name, x)
    requires |ws| == |items| && forall i :: 0 <= i < |items| ==> StandsFor(ctx, items[i], ws[i])
    ensures EvaluateWithIter(Clause(name, "in", Sequence(items)), ctx)
            <==> x.Some? && exists i :: 0 <= i < |ws| && Alike(x.value, ws[i])
    ensures EvaluateWithIter(Clause(name, "not_in", Sequence(items)), ctx)
            <==> !(x.Some? && exists i :: 0 <= i < |ws| && Alike(x.value, ws[i]))
  {
    ClauseMeans(name, "in", Sequence(items), ctx);
    ClauseMeans(name, "not_in", Sequence(items), ctx);
    ResolveAllIndexed(items, ctx.variables);
    forall i | 0 <= i < |items|
      ensures ResolveValue(items[i], ctx.variables) == Some(ws[i])
    {
      StandsForResolved(ctx, items[i], ws[i]);
    }
    var resolved := ResolveAll(items, ctx.variables).value;
    assert resolved == ws;
    assert ResolveValue(Sequence(items), ctx.variables) == Some(Sequence(ws));
    hide EvaluateWithIter, ResolveValue, ResolveAll, ValuesEqual, Alike;
    if x.Some? {
      forall i | 0 <= i < |ws|
        ensures ValuesEqual(x.value, ws[i]) <==> Alike(x.value, ws[i])
      {
        EqualIsAlike(x.value, ws[i]);
      }
    }
  }

  /** A clause with an operator there is none of, or with an undefined variable as its
      operand or in its list, is never met. */
  lemma NeverMet(name: string, op: string, operand: Value, ctx: EvalContext, x: string)
    requires name != "any"
    ensures op !in ["eq", "neq", "lt", "lte", "gt", "gte", "in", "not_in"] ==>
              !EvaluateWithIter(Clause(name, op, operand), ctx)
    ensures x !in ctx.variables
            && (operand == Str("$" + x) || (operand.Sequence? && Str("$" + x) in operand.items)) ==>
              !EvaluateWithIter(Clause(name, op, operand), ctx)
  {
    ClauseMeans(name, op, operand, ctx);
    assert ("$" + x)[1..] == x;
    assert x !in ctx.variables ==> ResolveValue(Str("$" + x), ctx.variables) == None;
    hide EvaluateWithIter;
    if operand.Sequence? && Str("$" + x) in operand.items {
      ResolveAllIndexed(operand.items, ctx.variables);
    }
  }

  // ---------------------------------------------------------------------------
  // How clauses combine

  /** One entry of a condition, on its own: alternatives under `any`, otherwise all
      operators of the field's mapping, one clause each. */
  ghost predicate EntryMet(key: string, body: Value, ctx: EvalContext) {
    if key == "any" then
      body.Sequence? && exists i :: 0 <= i < |body.items| && EvaluateWithIter(body.items[i], ctx)
    else
      && body.Mapping?
      && forall j :: 0 <= j < |body.entries| ==>
           && Untag(body.entries[j].0).Str?
           && EvaluateWithIter(Clause(key, Untag(body.entries[j].0).s, body.entries[j].1), ctx)
  }

  lemma {:induction false} OpsIndexed(entries: seq<(Value, Value)>, field: Option<Value>, vars: map<string, Value>)
    ensures AllOpsHold(entries, field, vars)
            <==> forall j :: 0 <= j < |entries| ==> OpHolds(entries[j], field, vars)
  {
    if entries != [] {
      OpsIndexed(entries[1..], field, vars);
      assert forall j :: 1 <= j < |entries| ==> entries[j] == entries[1..][j - 1];
    }
  }

  lemma EntryIs(entry: (Value, Value), ctx: EvalContext)
    ensures EntryHolds(entry, ctx)
            <==> Untag(entry.0).Str? && EntryMet(Untag(entry.0).s, Untag(entry.1), ctx)
  {
    var body := UntagSmaller(entry.1);
    if Untag(entry.0).Str? {
      var key := Untag(entry.0).s;
      if key == "any" {
        if body.Sequence? {
          ClausesAreAlternatives(body.items, ctx);
        }
      } else if body.Mapping? {
        OpsIndexed(body.entries, FieldOf(ctx, key), ctx.variables);
        forall j | 0 <= j < |body.entries| && Untag(body.entries[j].0).Str?
          ensures OpHolds(body.entries[j], FieldOf(ctx, key), ctx.variables)
                  <==> EvaluateWithIter(Clause(key, Untag(body.entries[j].0).s, body.entries[j].1), ctx)
        {
          ClauseMeans(key, Untag(body.entries[j].0).s, body.entries[j].1, ctx);
        }
      }
    }
  }

  /** A condition is met exactly when it is a mapping, tags aside, whose keys are all
      texts and whose entries are all met. */
  lemma ConditionMeans(when: Value, ctx: EvalContext)
    ensures EvaluateWithIter(when, ctx)
            <==> && Untag(when).Mapping?
                 && forall i :: 0 <= i < |Untag(when).entries| ==>
                      && Untag(Untag(when).entries[i].0).Str?
                      && EntryMet(Untag(Untag(when).entries[i].0).s, Untag(Untag(when).entries[i].1), ctx)
  {
    if UntagSmaller(when).Mapping? {
      var entries := UntagSmaller(when).entries;
      EntriesAreConjunction(entries, ctx);
      hide EntryMet, EntryHolds;
      forall i | 0 <= i < |entries|
        ensures EntryHolds(entries[i], ctx)
                <==> Untag(entries[i].0).Str? && EntryMet(Untag(entries[i].0).s, Untag(entries[i].1), ctx)
      {
        EntryIs(entries[i], ctx);
      }
    }
  }
}
