/** Parsing one field of a cron expression into the sorted values it matches. */
module CronFields {
  import opened Options
  import opened Text

  datatype Result<+T> = Ok(value: T) | Err(error: CronError)

  datatype FieldFault = InvalidStep(text: string) | ZeroStep | NotANumber(text: string) | OutOfRange(text: string)

  datatype CronError = FieldCount(n: nat) | Field(field: string, fault: FieldFault)

  /** One comma-separated part: a range and a step. */
  datatype Part = Part(lo: nat, hi: nat, step: nat)

  predicate PartOk(p: Part, min: nat, max: nat) {
    min <= p.lo <= p.hi <= max && 0 < p.step < U32_LIMIT
  }

  /** Stepping from `lo` stays below 2^32, as long as the values stay below 60. */
  predicate NoWrap(p: Part) {
    p.lo + p.step < U32_LIMIT
  }

  ghost function Nth(lo: int, stride: int, j: nat): int {
    lo + j * stride
  }

  /** The values a part denotes on paper: from `lo` by `step`, up to `hi`. */
  ghost predicate Denotes(p: Part, v: int) {
    v <= p.hi && exists j: nat :: v == Nth(p.lo, p.step, j)
  }

  /** The distance between two values of the 32-bit loop: where the step wraps
      around, the loop walks down by what the step falls short of 2^32. */
  ghost function Stride(p: Part): int {
    if NoWrap(p) then p.step else p.step - U32_LIMIT
  }

  /** The values the 32-bit loop inserts. */
  ghost predicate Inserted(p: Part, v: int) {
    0 <= v <= p.hi && exists j: nat :: v == Nth(p.lo, Stride(p), j)
  }

  lemma NthFrom(lo: int, stride: int, i: nat, j: nat)
    requires i <= j
    ensures stride >= 0 ==> Nth(lo, stride, i) <= Nth(lo, stride, j)
    ensures stride <= 0 ==> Nth(lo, stride, i) >= Nth(lo, stride, j)
  {
    assert (j - i) * stride == j * stride - i * stride;
  }

  /** A part contributes exactly what it denotes iff its step does not wrap. */
  lemma InsertedIsDenoted(p: Part)
    requires p.lo <= p.hi && 0 < p.step < U32_LIMIT
    ensures (forall v :: Inserted(p, v) <==> Denotes(p, v)) <==> NoWrap(p)
  {
    if NoWrap(p) {
      forall v | Denotes(p, v)
        ensures Inserted(p, v)
      {
        var j: nat :| v == Nth(p.lo, p.step, j);
        NthFrom(p.lo, p.step, 0, j);
      }
    } else {
      var v := Nth(p.lo, Stride(p), 1);
      assert Inserted(p, v);
      forall j: nat
        ensures v != Nth(p.lo, p.step, j)
      {
        NthFrom(p.lo, p.step, 0, j);
      }
      assert !Denotes(p, v);
    }
  }

  function ParseNum(s: string, field: string): Result<nat> {
    match ParseU32(s)
    case Some(n) => Ok(n)
    case None => Err(Field(field, NotANumber(s)))
  }

  function ReadRange(field: string, range: string, min: nat, max: nat): Result<(nat, nat)> {
    if range == "*" then Ok((min, max))
    else
      match SplitOnce(range, '-')
      case Some((a, b)) =>
        (match ParseNum(a, field)
         case Err(e) => Err(e)
         case Ok(lo) =>
           match ParseNum(b, field)
           case Err(e) => Err(e)
           case Ok(hi) => Ok((lo, hi)))
      case None =>
        match ParseNum(range, field)
        case Err(e) => Err(e)
        case Ok(v) => Ok((v, v))
  }

  function ReadStep(field: string, part: string): Result<(string, nat)> {
    match SplitOnce(part, '/')
    case None => Ok((part, 1))
    case Some((r, s)) =>
      match ParseU32(s)
      case None => Err(Field(field, InvalidStep(s)))
      case Some(step) => if step == 0 then Err(Field(field, ZeroStep)) else Ok((r, step))
  }

  function ReadPart(field: string, part: string, min: nat, max: nat): (r: Result<Part>)
    ensures r.Ok? ==> PartOk(r.value, min, max)
  {
    match ReadStep(field, part)
    case Err(e) => Err(e)
    case Ok((range, step)) =>
      match ReadRange(field, range, min, max)
      case Err(e) => Err(e)
      case Ok((lo, hi)) =>
        if lo < min || hi > max || lo > hi then Err(Field(field, OutOfRange(range)))
        else Ok(Part(lo, hi, step))
  }

  /** All parts of a field, or the error of the first part that has one. */
  function ReadParts(field: string, texts: seq<string>, min: nat, max: nat): (r: Result<seq<Part>>)
    ensures r.Ok? ==> |r.value| == |texts| && forall p :: p in r.value ==> PartOk(p, min, max)
  {
    if texts == [] then Ok([])
    else
      match ReadParts(field, texts[..|texts| - 1], min, max)
      case Err(e) => Err(e)
      case Ok(parts) =>
        match ReadPart(field, texts[|texts| - 1], min, max)
        case Err(e) => Err(e)
        case Ok(p) => Ok(parts + [p])
  }

  // ---------------------------------------------------------------------------
  // Sorted sets of small numbers

  ghost predicate StrictlySorted(s: seq<nat>) {
    forall i, j :: 0 <= i < j < |s| ==> s[i] < s[j]
  }

  /** The elements of `values` below `n`, in increasing order. */
  function SortedBelow(values: set<nat>, n: nat): (s: seq<nat>)
    ensures StrictlySorted(s)
    ensures forall v :: v in s <==> v in values && v < n
  {
    if n == 0 then []
    else
      var below := SortedBelow(values, n - 1);
      assert forall i :: 0 <= i < |below| ==> below[i] in below;
      if n - 1 in values then below + [n - 1] else below
  }

  // ---------------------------------------------------------------------------
  // The field

  ghost predicate Before(p: Part, j: nat, v: int) {
    0 <= v <= p.hi && exists i: nat :: i < j && v == Nth(p.lo, Stride(p), i)
  }

  /** Where the 32-bit loop goes from its `j`-th value. */
  lemma NextValue(p: Part, j: nat, v: nat)
    requires p.lo <= p.hi < 60 && 0 < p.step < U32_LIMIT
    requires v <= p.hi && v == Nth(p.lo, Stride(p), j)
    ensures var next := Nth(p.lo, Stride(p), j + 1); var w := (v + p.step) % U32_LIMIT;
            && next == v + Stride(p) && (if NoWrap(p) then Stride(p) > 0 else Stride(p) < 0)
            && (if 0 <= next <= p.hi then w == next else w > p.hi)
  {
    assert (j + 1) * Stride(p) == j * Stride(p) + Stride(p);
    if NoWrap(p) && j > 0 {
      NthFrom(p.lo, Stride(p), 1, j);
    }
  }

  lemma BeforeNext(p: Part, j: nat, v: int)
    requires 0 <= v <= p.hi && v == Nth(p.lo, Stride(p), j)
    ensures forall x :: Before(p, j + 1, x) <==> Before(p, j, x) || x == v
  {
    hide Nth, Stride;
    forall x
      ensures Before(p, j + 1, x) <==> Before(p, j, x) || x == v
    {
      if Before(p, j + 1, x) {
        var i: nat :| i < j + 1 && x == Nth(p.lo, Stride(p), i);
        assert i < j ==> Before(p, j, x);
      }
    }
  }

  /** Once a value falls outside the range, all later ones do. */
  lemma NoneAfter(p: Part, j: nat)
    requires p.lo <= p.hi && 0 < p.step < U32_LIMIT
    requires Nth(p.lo, Stride(p), j) < 0 || p.hi < Nth(p.lo, Stride(p), j)
    ensures forall v :: Inserted(p, v) ==> Before(p, j, v)
  {
    forall v | Inserted(p, v)
      ensures Before(p, j, v)
    {
      var i: nat :| v == Nth(p.lo, Stride(p), i);
      NthFrom(p.lo, Stride(p), 0, j);
      if j <= i {
        NthFrom(p.lo, Stride(p), j, i);
      }
    }
  }

  /** The stepping loop over one part, in 32-bit arithmetic. */
  method InsertRange(values: set<nat>, p: Part) returns (r: set<nat>)
    requires p.lo <= p.hi < 60 && 0 < p.step < U32_LIMIT
    ensures forall x: nat :: x in r <==> x in values || Inserted(p, x)
  {
    r := values;
    var v: nat := p.lo;
    ghost var j: nat := 0;
    while v <= p.hi
      invariant v <= p.hi ==> v == Nth(p.lo, Stride(p), j)
      invariant v > p.hi ==> Nth(p.lo, Stride(p), j) < 0 || p.hi < Nth(p.lo, Stride(p), j)
      invariant forall x: nat :: x in r <==> x in values || Before(p, j, x)
      decreases if v > p.hi then 0 else if NoWrap(p) then p.hi - v + 1 else v + 1
    {
      hide Before, Nth, Stride, NoWrap;
      r := r + {v};
      NextValue(p, j, v);
      BeforeNext(p, j, v);
      v := (v + p.step) % U32_LIMIT;
      j := j + 1;
    }
    NoneAfter(p, j);
  }

  ghost predicate SomePartInserts(parts: seq<Part>, v: int) {
    exists p :: p in parts && Inserted(p, v)
  }

  ghost function PartsOf(field: string, min: nat, max: nat): Result<seq<Part>> {
    ReadParts(field, SplitOn(field, ','), min, max)
  }

  /** The sorted values of a field all of whose parts can be read. */
  ghost predicate FieldIs(field: string, min: nat, max: nat, values: seq<nat>) {
    var parts := PartsOf(field, min, max);
    parts.Ok? && StrictlySorted(values) && forall v :: v in values <==> SomePartInserts(parts.value, v)
  }

  /** The sorted weekdays of a field read over 0-7, modulo 7. */
  ghost predicate DowFieldIs(field: string, days: seq<nat>) {
    var parts := PartsOf(field, 0, 7);
    && parts.Ok? && StrictlySorted(days)
    && forall d :: d in days <==> exists v: nat :: v < 8 && SomePartInserts(parts.value, v) && d == v % 7
  }

  /** A field's sorted values, or the first fault in it. */
  method ParseField(field: string, min: nat, max: nat) returns (r: Result<seq<nat>>)
    requires max < 60
    ensures r.Err? ==> PartsOf(field, min, max) == Err(r.error)
    ensures r.Ok? ==> FieldIs(field, min, max, r.value)
  {
    var texts := SplitOn(field, ',');
    var values: set<nat> := {};
    ghost var parts: seq<Part> := [];
    for i := 0 to |texts|
      invariant ReadParts(field, texts[..i], min, max) == Ok(parts)
      invariant forall v :: v in values <==> SomePartInserts(parts, v)
    {
      assert texts[..i + 1][..i] == texts[..i];
      var read := ReadPart(field, texts[i], min, max);
      if read.Err? {
        FirstFault(field, texts, i + 1, min, max);
        return Err(read.error);
      }
      values := InsertRange(values, read.value);
      assert forall p :: p in parts + [read.value] <==> p in parts || p == read.value;
      parts := parts + [read.value];
    }
    assert texts[..|texts|] == texts;
    forall v | v in values
      ensures v < 60
    {
      var p :| p in parts && Inserted(p, v);
    }
    r := Ok(SortedBelow(values, 60));
  }

  /** A faulty prefix decides the whole field. */
  lemma {:induction false} FirstFault(field: string, texts: seq<string>, i: nat, min: nat, max: nat)
    requires i <= |texts| && ReadParts(field, texts[..i], min, max).Err?
    ensures ReadParts(field, texts, min, max) == ReadParts(field, texts[..i], min, max)
  {
    if i == |texts| {
      assert texts[..i] == texts;
    } else {
      assert texts[..|texts| - 1][..i] == texts[..i];
      FirstFault(field, texts[..|texts| - 1], i, min, max);
    }
  }

  // ---------------------------------------------------------------------------
  // What a field means

  /** What a part denotes: the values of its range at a multiple of the step from `lo`. */
  lemma DenotesIff(p: Part, v: int)
    requires 0 < p.step
    ensures Denotes(p, v) <==> p.lo <= v <= p.hi && (v - p.lo) % p.step == 0
  {
    if Denotes(p, v) {
      var j: nat :| v == Nth(p.lo, p.step, j);
      NthFrom(p.lo, p.step, 0, j);
      MultipleMod(j, p.step);
    }
    if p.lo <= v <= p.hi && (v - p.lo) % p.step == 0 {
      assert v == Nth(p.lo, p.step, (v - p.lo) / p.step);
    }
  }

  lemma MultipleMod(j: nat, d: nat)
    requires d > 0
    ensures (j * d) % d == 0
  {
    var n := j * d;
    var q, r := n / d, n % d;
    assert n == q * d + r;
    if q < j {
      AtLeastOnce(j - q, d);
    } else {
      NotLess(q, j, d);
    }
  }

  lemma AtLeastOnce(k: nat, d: nat)
    requires k > 0
    ensures k * d >= d
  {
  }

  lemma NotLess(q: nat, j: nat, d: nat)
    requires q >= j
    ensures q * d >= j * d
  {
  }

  /** The part's step wraps around, and the 32-bit loop walks down to `v`. */
  predicate WrapReaches(p: Part, v: int) {
    && p.step < U32_LIMIT && !NoWrap(p)
    && 0 <= v <= p.lo && (p.lo - v) % (U32_LIMIT - p.step) == 0
  }

  /** What a wrapping part inserts: the values below `lo` at a multiple of what its step
      falls short of 2^32. */
  lemma WrapInsertsIff(p: Part, v: int)
    requires p.lo <= p.hi && 0 < p.step < U32_LIMIT && !NoWrap(p)
    ensures Inserted(p, v) <==> WrapReaches(p, v)
  {
    var d := U32_LIMIT - p.step;
    if Inserted(p, v) {
      var j: nat :| v == Nth(p.lo, Stride(p), j);
      NthFrom(p.lo, Stride(p), 0, j);
      assert p.lo - v == j * d;
      MultipleMod(j, d);
    }
    if 0 <= v <= p.lo && (p.lo - v) % d == 0 {
      var j := (p.lo - v) / d;
      assert v == Nth(p.lo, Stride(p), j);
    }
  }

  ghost predicate SomePartDenotes(parts: seq<Part>, v: int) {
    exists p :: p in parts && Denotes(p, v)
  }

  /** What the wrapping parts insert is denoted by some part of the field. */
  ghost predicate WrapsCovered(parts: seq<Part>) {
    forall p, v :: p in parts && WrapReaches(p, v) ==> SomePartDenotes(parts, v)
  }

  /** A part inserts at least what it denotes, and no more unless its step wraps. */
  lemma DenotedIsInserted(p: Part, v: int)
    requires p.lo <= p.hi < 60 && 0 < p.step < U32_LIMIT
    ensures Denotes(p, v) ==> Inserted(p, v)
    ensures NoWrap(p) && Inserted(p, v) ==> Denotes(p, v)
  {
    if NoWrap(p) {
      InsertedIsDenoted(p);
    } else if Denotes(p, v) {
      var j: nat :| v == Nth(p.lo, p.step, j);
      if j > 0 {
        NthFrom(p.lo, p.step, 1, j);
      }
      LowInserted(p);
    }
  }

  /** The values of an accepted field are exactly what its parts denote iff whatever a
      wrapping part inserts is denoted by some part. They are never empty nor above the
      range, and not below it either when they mean what the parts denote. */
  lemma FieldMeansIff(parts: seq<Part>, values: seq<nat>, min: nat, max: nat)
    requires |parts| > 0 && max < 60
    requires forall p :: p in parts ==> PartOk(p, min, max)
    requires forall v :: v in values <==> SomePartInserts(parts, v)
    ensures (forall v: nat :: v in values <==> SomePartDenotes(parts, v)) <==> WrapsCovered(parts)
    ensures |values| > 0 && forall v :: v in values ==> v <= max
    ensures WrapsCovered(parts) ==> forall v :: v in values ==> min <= v
  {
    hide Inserted, Denotes, NoWrap;
    forall p, v | p in parts
      ensures Denotes(p, v) ==> Inserted(p, v) && min <= v <= max
      ensures NoWrap(p) && Inserted(p, v) ==> Denotes(p, v)
      ensures !NoWrap(p) ==> (Inserted(p, v) <==> WrapReaches(p, v))
    {
      DenotedIsInserted(p, v);
      DenotesIff(p, v);
      if !NoWrap(p) {
        WrapInsertsIff(p, v);
      }
    }
    var some := FieldHasValue(parts, values, min, max);
    forall v: nat
      ensures SomePartDenotes(parts, v) ==> v in values
      ensures v in values ==> v <= max
    {
      if SomePartDenotes(parts, v) {
        var p :| p in parts && Denotes(p, v);
        assert SomePartInserts(parts, v);
      }
      if v in values {
        var p :| p in parts && Inserted(p, v);
        assert NoWrap(p) ==> Denotes(p, v);
      }
    }
    if WrapsCovered(parts) {
      forall v | v in values
        ensures SomePartDenotes(parts, v)
      {
        var p :| p in parts && Inserted(p, v);
        assert NoWrap(p) ==> Denotes(p, v);
      }
    } else {
      var p, v :| p in parts && WrapReaches(p, v) && !SomePartDenotes(parts, v);
      assert SomePartInserts(parts, v);
    }
  }

  /** Whatever the steps, an accepted field holds a value of its range. */
  lemma FieldHasValue(parts: seq<Part>, values: seq<nat>, min: nat, max: nat) returns (some: nat)
    requires |parts| > 0 && forall p :: p in parts ==> PartOk(p, min, max)
    requires forall v :: v in values <==> SomePartInserts(parts, v)
    ensures some in values && min <= some <= max
  {
    hide Inserted;
    var p := parts[0];
    assert PartOk(p, min, max);
    some := p.lo;
    LowInserted(p);
    assert SomePartInserts(parts, some);
  }

  lemma LowInserted(p: Part)
    requires p.lo <= p.hi
    ensures Inserted(p, p.lo)
  {
    assert p.lo == Nth(p.lo, Stride(p), 0);
  }

  function FoldSunday(raw: seq<nat>): (s: set<nat>)
    ensures forall v :: v in s <==> exists i :: 0 <= i < |raw| && v == if raw[i] == 7 then 0 else raw[i]
  {
    if raw == [] then {}
    else
      var n := |raw| - 1;
      FoldSunday(raw[..n]) + {if raw[n] == 7 then 0 else raw[n]}
  }

  /** The weekday field: parsed over 0-7, with 7 folded onto 0. */
  method ParseDow(field: string) returns (r: Result<seq<nat>>)
    ensures r.Err? ==> PartsOf(field, 0, 7) == Err(r.error)
    ensures r.Ok? ==> DowFieldIs(field, r.value) && exists d :: d in r.value && d < 7
  {
    var field' := ParseField(field, 0, 7);
    if field'.Err? {
      return field';
    }
    var raw := field'.value;
    ghost var parts := PartsOf(field, 0, 7).value;
    forall v | v in raw
      ensures v < 8
    {
      var p :| p in parts && Inserted(p, v);
    }
    ghost var some := FieldHasValue(parts, raw, 0, 7);
    var values := FoldSunday(raw);
    ghost var k :| 0 <= k < |raw| && raw[k] == some;
    // An accepted field is never empty, so there is nothing to fall back from.
    assert (if raw[k] == 7 then 0 else raw[k]) in values;
    r := Ok(SortedBelow(values, 60));
    forall d
      ensures d in r.value <==> exists v: nat :: v < 8 && SomePartInserts(parts, v) && d == v % 7
    {
      DowImage(raw, parts, values, d);
    }
    assert (if raw[k] == 7 then 0 else raw[k]) in r.value;
  }

  lemma DowImage(raw: seq<nat>, parts: seq<Part>, values: set<nat>, d: nat)
    requires forall v :: v in raw <==> SomePartInserts(parts, v)
    requires forall v :: v in raw ==> v < 8
    requires values == FoldSunday(raw)
    ensures d in values <==> exists v: nat :: v < 8 && SomePartInserts(parts, v) && d == v % 7
    ensures d in values ==> d < 7
  {
    if d in values {
      var i :| 0 <= i < |raw| && d == if raw[i] == 7 then 0 else raw[i];
      assert raw[i] in raw && d == raw[i] % 7;
    }
    if v: nat :| v < 8 && SomePartInserts(parts, v) && d == v % 7 {
      assert v in raw;
      var i :| 0 <= i < |raw| && raw[i] == v;
      assert d == if raw[i] == 7 then 0 else raw[i];
    }
  }

  // ---------------------------------------------------------------------------
  // Reading back what is printed

  lemma ReadOneMore(field: string, texts: seq<string>, text: string, min: nat, max: nat)
    requires ReadParts(field, texts, min, max).Ok? && ReadPart(field, text, min, max).Ok?
    ensures ReadParts(field, texts + [text], min, max)
            == Ok(ReadParts(field, texts, min, max).value + [ReadPart(field, text, min, max).value])
  {
    hide ReadPart;
    assert (texts + [text])[..|texts|] == texts;
  }

  lemma ReadOne(field: string, text: string, min: nat, max: nat)
    requires ReadPart(field, text, min, max).Ok?
    ensures ReadParts(field, [text], min, max) == Ok([ReadPart(field, text, min, max).value])
  {
    assert ReadParts(field, [], min, max) == Ok([]);
    hide ReadPart, ReadParts;
    ReadOneMore(field, [], text, min, max);
    assert [] + [text] == [text];
    var p := ReadPart(field, text, min, max).value;
    assert [] + [p] == [p];
  }

  lemma ReadTwo(field: string, a: string, b: string, min: nat, max: nat)
    requires ReadPart(field, a, min, max).Ok? && ReadPart(field, b, min, max).Ok?
    ensures ReadParts(field, [a, b], min, max)
            == Ok([ReadPart(field, a, min, max).value, ReadPart(field, b, min, max).value])
  {
    hide ReadPart, ReadParts;
    ReadOne(field, a, min, max);
    ReadOneMore(field, [a], b, min, max);
    assert [a] + [b] == [a, b];
    var p, q := ReadPart(field, a, min, max).value, ReadPart(field, b, min, max).value;
    assert [p] + [q] == [p, q];
  }

  ghost predicate IsNumeral(text: string) {
    text != "" && forall i :: 0 <= i < |text| ==> IsDigit(text[i])
  }

  /** A field that is one number holds that number alone. */
  lemma OneNumber(text: string, n: nat, min: nat, max: nat, values: seq<nat>)
    requires IsNumeral(text) && DecimalValue(text) == n
    requires min <= n <= max < 60 && FieldIs(text, min, max, values)
    ensures forall v :: v in values <==> v == n
  {
    assert !Contains(text, ',') && !Contains(text, '/') && !Contains(text, '-');
    FindNone(text, ',');
    FindNone(text, '/');
    FindNone(text, '-');
    assert text != "*";
    assert ReadPart(text, text, min, max) == Ok(Part(n, n, 1));
    ReadOne(text, text, min, max);
    forall v: nat
      ensures SomePartInserts([Part(n, n, 1)], v) <==> v == n
    {
      DenotesIff(Part(n, n, 1), v);
      InsertedIsDenoted(Part(n, n, 1));
    }
  }

  // ---------------------------------------------------------------------------
  // A step that wraps

  const WRAPPING := "30/4294967295"
  const WRAPPING_PART := Part(30, 30, 4294967295)
  const COVERED := "*,30/4294967295"

  lemma OneMoreDigit(s: string, k: nat)
    requires k < |s| && forall i :: 0 <= i < |s| ==> IsDigit(s[i])
    ensures DecimalValue(s[..k + 1]) == 10 * DecimalValue(s[..k]) + DigitValue(s[k])
  {
    assert s[..k + 1][..k] == s[..k];
  }

  lemma WrappingNumber(s: string)
    requires |s| == 10 && forall i :: 0 <= i < 10 ==> IsDigit(s[i])
    requires forall i :: 0 <= i < 10 ==> DigitValue(s[i]) == [4, 2, 9, 4, 9, 6, 7, 2, 9, 5][i]
    ensures DecimalValue(s) == 4294967295
  {
    assert s[..0] == "" && DecimalValue("") == 0 && s[..10] == s;
    hide DecimalValue, IsDigit, DigitValue;
    OneMoreDigit(s, 0);
    OneMoreDigit(s, 1);
    OneMoreDigit(s, 2);
    OneMoreDigit(s, 3);
    OneMoreDigit(s, 4);
    OneMoreDigit(s, 5);
    OneMoreDigit(s, 6);
    OneMoreDigit(s, 7);
    OneMoreDigit(s, 8);
    OneMoreDigit(s, 9);
  }

  lemma Thirty(s: string)
    requires s == "30"
    ensures IsNumber(s, 30)
  {
    assert s[..0] == "" && DecimalValue("") == 0 && s[..2] == s;
    OneMoreDigit(s, 0);
    OneMoreDigit(s, 1);
    hide DecimalValue;
    assert IsNumeral(s);
  }

  lemma LargeStep(s: string)
    requires s == "4294967295"
    ensures IsNumber(s, 4294967295)
  {
    hide DecimalValue;
    WrappingNumber(s);
    assert IsNumeral(s);
  }

  lemma WrappingStep(field: string)
    ensures ReadPart(field, WRAPPING, 0, 59) == Ok(WRAPPING_PART)
  {
    hide IsNumber, ReadPart;
    Thirty("30");
    LargeStep("4294967295");
    assert IsRange("30", 0, 59, 30, 30);
    PartReads(field, "30", "4294967295", 0, 59, 30, 30);
    assert WRAPPING == "30" + "/" + "4294967295";
  }

  lemma WrappingInserts(v: int)
    ensures Inserted(WRAPPING_PART, v) <==> 0 <= v <= 30
  {
    WrapInsertsIff(WRAPPING_PART, v);
  }

  /** `30/4294967295` on the minutes is accepted, and holds 0 to 30 instead of 30 alone. */
  lemma WrapInsertsBelow(values: seq<nat>)
    requires StrictlySorted(values)
    ensures FieldIs(WRAPPING, 0, 59, values) <==> forall v: nat :: v in values <==> v <= 30
  {
    hide PartsOf, Inserted;
    WrappingReads();
    forall v: int
      ensures SomePartInserts([WRAPPING_PART], v) <==> 0 <= v <= 30
    {
      WrappingInserts(v);
      assert WRAPPING_PART in [WRAPPING_PART];
    }
  }

  lemma WrappingReads()
    ensures PartsOf(WRAPPING, 0, 59) == Ok([WRAPPING_PART])
  {
    hide ReadPart, ReadParts, FindChar;
    assert !Contains(WRAPPING, ',');
    SplitOnIff(WRAPPING, ',', [WRAPPING]);
    WrappingStep(WRAPPING);
    ReadOne(WRAPPING, WRAPPING, 0, 59);
  }

  /** `*,30/4294967295` wraps just the same, but every value is denoted by its star:
      the field holds what it says. */
  lemma CoveredWrap(values: seq<nat>)
    requires StrictlySorted(values)
    ensures PartsOf(COVERED, 0, 59) == Ok([Part(0, 59, 1), WRAPPING_PART])
    ensures FieldIs(COVERED, 0, 59, values)
            <==> forall v: nat :: v in values <==> SomePartDenotes([Part(0, 59, 1), WRAPPING_PART], v)
  {
    hide PartsOf, Inserted, Denotes;
    var parts := [Part(0, 59, 1), WRAPPING_PART];
    CoveredReads();
    forall v: int
      ensures SomePartInserts(parts, v) <==> 0 <= v <= 59
      ensures SomePartDenotes(parts, v) <==> 0 <= v <= 59
    {
      CoveredMeans(parts, v);
    }
  }

  lemma CoveredMeans(parts: seq<Part>, v: int)
    requires parts == [Part(0, 59, 1), WRAPPING_PART]
    ensures SomePartInserts(parts, v) <==> 0 <= v <= 59
    ensures SomePartDenotes(parts, v) <==> 0 <= v <= 59
  {
    DenotesIff(parts[0], v);
    DenotesIff(parts[1], v);
    InsertedIsDenoted(parts[0]);
    WrappingInserts(v);
    hide Inserted, Denotes;
    assert parts[0] in parts && parts[1] in parts;
  }

  lemma CoveredReads()
    ensures PartsOf(COVERED, 0, 59) == Ok([Part(0, 59, 1), WRAPPING_PART])
  {
    hide ReadPart, ReadParts;
    assert !Contains("*", ',') && !Contains(WRAPPING, ',');
    assert ["*", WRAPPING][1..] == [WRAPPING];
    assert JoinOn(["*", WRAPPING], ',') == "*" + [','] + WRAPPING;
    assert COVERED == "*" + [','] + WRAPPING;
    SplitOnIff(COVERED, ',', ["*", WRAPPING]);
    StarReads(COVERED, 0, 59);
    WrappingStep(COVERED);
    ReadTwo(COVERED, "*", WRAPPING, 0, 59);
  }

  /** A part in its full spelling, `lo-hi/step`. */
  function ShowPart(p: Part): string {
    Decimal(p.lo) + "-" + Decimal(p.hi) + "/" + Decimal(p.step)
  }

  /** The printed form of any part of the range is read as that part. */
  lemma PrintedPartReads(field: string, p: Part, min: nat, max: nat)
    requires PartOk(p, min, max) && p.hi < U32_LIMIT
    ensures ReadPart(field, ShowPart(p), min, max) == Ok(p)
  {
    hide ReadPart, IsNumber;
    DecimalIsNumber(p.lo);
    DecimalIsNumber(p.hi);
    DecimalIsNumber(p.step);
    var range := Decimal(p.lo) + "-" + Decimal(p.hi);
    assert IsRange(range, min, max, p.lo, p.hi);
    PartReads(field, range, Decimal(p.step), min, max, p.lo, p.hi);
    assert ShowPart(p) == range + "/" + Decimal(p.step);
  }

  lemma DecimalIsNumber(n: nat)
    requires n < U32_LIMIT
    ensures IsNumber(Decimal(n), n)
  {
    ValueOfDecimal(n);
    assert IsNumeral(Decimal(n));
  }

  ghost function ShowParts(parts: seq<Part>): (texts: seq<string>)
    ensures |texts| == |parts| && forall i :: 0 <= i < |parts| ==> texts[i] == ShowPart(parts[i])
  {
    seq(|parts|, i requires 0 <= i < |parts| => ShowPart(parts[i]))
  }

  lemma ShowPartHasNoComma(p: Part)
    ensures !Contains(ShowPart(p), ',')
  {
  }

  lemma {:induction false} PrintedPartsRead(field: string, parts: seq<Part>, min: nat, max: nat)
    requires forall p :: p in parts ==> PartOk(p, min, max) && p.hi < U32_LIMIT
    ensures ReadParts(field, ShowParts(parts), min, max) == Ok(parts)
  {
    hide ReadPart, ShowPart;
    if parts != [] {
      var k := |parts| - 1;
      assert ShowParts(parts)[..k] == ShowParts(parts[..k]);
      assert parts[k] in parts;
      PrintedPartsRead(field, parts[..k], min, max);
      PrintedPartReads(field, parts[k], min, max);
      assert parts == parts[..k] + [parts[k]];
    }
  }

  /** The printed parts of a field, joined by commas, are read as those parts. */
  lemma PrintedFieldReads(parts: seq<Part>, min: nat, max: nat)
    requires |parts| > 0 && forall p :: p in parts ==> PartOk(p, min, max) && p.hi < U32_LIMIT
    ensures PartsOf(JoinOn(ShowParts(parts), ','), min, max) == Ok(parts)
  {
    hide ShowPart, PartOk;
    var texts := ShowParts(parts);
    forall text | text in texts
      ensures !Contains(text, ',')
    {
      var i :| 0 <= i < |texts| && texts[i] == text;
      ShowPartHasNoComma(parts[i]);
    }
    SplitOnIff(JoinOn(texts, ','), ',', texts);
    PrintedPartsRead(JoinOn(texts, ','), parts, min, max);
  }

  /** A bare star is the whole range of the field. */
  lemma StarReads(field: string, min: nat, max: nat)
    requires min <= max
    ensures ReadPart(field, "*", min, max) == Ok(Part(min, max, 1))
  {
    assert FindChar("*", '/') == 1;
  }

  // ---------------------------------------------------------------------------
  // The grammar of a part

  /** Digits of this value, perhaps after a plus sign. */
  ghost predicate IsNumber(text: string, n: nat) {
    && n < U32_LIMIT
    && exists digits :: IsNumeral(digits) && DecimalValue(digits) == n && (text == digits || text == "+" + digits)
  }

  ghost predicate IsNoNumber(text: string) {
    forall n: nat :: !IsNumber(text, n)
  }

  /** A star, a number, or two numbers with a dash between them. */
  ghost predicate IsRange(text: string, min: nat, max: nat, lo: nat, hi: nat) {
    || (text == "*" && lo == min && hi == max)
    || (IsNumber(text, lo) && hi == lo)
    || exists a, b :: text == a + "-" + b && IsNumber(a, lo) && IsNumber(b, hi)
  }

  lemma NumberParses(text: string, n: nat)
    requires IsNumber(text, n)
    ensures ParseU32(text) == Some(n)
    ensures !Contains(text, '/') && !Contains(text, '-') && text != "*"
  {
    var digits :| IsNumeral(digits) && DecimalValue(digits) == n && (text == digits || text == "+" + digits);
    if text == "+" + digits {
      assert text[1..] == digits;
      assert forall i :: 0 <= i < |digits| ==> text[i + 1] == digits[i];
    }
  }

  lemma SplitOnceAt(head: string, c: char, rest: string)
    requires !Contains(head, c)
    ensures SplitOnce(head + [c] + rest, c) == Some((head, rest))
  {
    FindAfter(head, c, rest);
    var s := head + [c] + rest;
    assert s[..|head|] == head && s[|head| + 1..] == rest;
  }

  lemma RangeReads(field: string, text: string, min: nat, max: nat, lo: nat, hi: nat)
    requires IsRange(text, min, max, lo, hi)
    ensures ReadRange(field, text, min, max) == Ok((lo, hi)) && !Contains(text, '/')
  {
    hide ParseU32, IsNumber, Contains, FindChar;
    if text == "*" && lo == min && hi == max {
      assert !Contains("*", '/') by { StarHasNone('/'); }
    } else if IsNumber(text, lo) && hi == lo {
      NumberParses(text, lo);
      FindNone(text, '-');
    } else {
      var a, b :| text == a + "-" + b && IsNumber(a, lo) && IsNumber(b, hi);
      NumberParses(a, lo);
      NumberParses(b, hi);
      SplitOnceAt(a, '-', b);
      DashHasNone(a, b);
    }
  }

  lemma StarHasNone(c: char)
    ensures c != '*' ==> !Contains("*", c)
  {
  }

  lemma DashHasNone(a: string, b: string)
    requires !Contains(a, '/') && !Contains(b, '/')
    ensures !Contains(a + "-" + b, '/') && a + "-" + b != "*"
  {
    var s := a + "-" + b;
    assert s[|a|] == '-';
    forall i | 0 <= i < |s|
      ensures s[i] != '/'
    {
      assert i > |a| ==> s[i] == b[i - |a| - 1];
      assert i < |a| ==> s[i] == a[i];
    }
  }

  /** A part is a range, perhaps with a slash and a step. It is read when the range lies
      within the field's and the step is positive, and refused for what is wrong with it
      otherwise; the step is looked at first. */
  lemma PartReads(field: string, range: string, step: string, min: nat, max: nat, lo: nat, hi: nat)
    requires IsRange(range, min, max, lo, hi)
    ensures ReadPart(field, range, min, max)
            == if min <= lo <= hi <= max then Ok(Part(lo, hi, 1)) else Err(Field(field, OutOfRange(range)))
    ensures forall n: nat :: IsNumber(step, n) ==>
              ReadPart(field, range + "/" + step, min, max)
              == if n == 0 then Err(Field(field, ZeroStep))
                 else if min <= lo <= hi <= max then Ok(Part(lo, hi, n))
                 else Err(Field(field, OutOfRange(range)))
    ensures IsNoNumber(step) ==>
              ReadPart(field, range + "/" + step, min, max) == Err(Field(field, InvalidStep(step)))
  {
    hide IsNumber, IsRange, Contains, FindChar, ReadRange, DecimalValue;
    RangeReads(field, range, min, max, lo, hi);
    FindNone(range, '/');
    SplitOnceAt(range, '/', step);
    forall n: nat | IsNumber(step, n)
      ensures ParseU32(step) == Some(n)
    {
      NumberParses(step, n);
    }
    if IsNoNumber(step) {
      NoNumberFails(step);
    }
    hide ParseU32, IsNoNumber;
  }

  lemma NoNumberFails(text: string)
    requires IsNoNumber(text)
    ensures ParseU32(text) == None
  {
    if ParseU32(text).Some? {
      var digits := if |text| > 0 && text[0] == '+' then text[1..] else text;
      assert IsNumeral(digits);
      assert text[0] == '+' ==> text == "+" + text[1..];
      assert IsNumber(text, ParseU32(text).value);
    }
  }

  /** What is neither a star nor a number is refused as that; of two texts with a dash
      between them, the first that is no number. */
  lemma RangeRefused(field: string, a: string, b: string, min: nat, max: nat, n: nat)
    requires !Contains(a, '/') && !Contains(b, '/') && !Contains(a, '-')
    ensures a != "*" && IsNoNumber(a) ==> ReadPart(field, a, min, max) == Err(Field(field, NotANumber(a)))
    ensures IsNoNumber(a) ==> ReadPart(field, a + "-" + b, min, max) == Err(Field(field, NotANumber(a)))
    ensures IsNumber(a, n) && IsNoNumber(b) ==>
              ReadPart(field, a + "-" + b, min, max) == Err(Field(field, NotANumber(b)))
  {
    hide IsNumber, Contains, FindChar, IsNoNumber, ParseU32;
    FindNone(a, '/');
    FindNone(a, '-');
    DashHasNone(a, b);
    FindNone(a + "-" + b, '/');
    SplitOnceAt(a, '-', b);
    if IsNoNumber(a) {
      NoNumberFails(a);
    }
    if IsNumber(a, n) && IsNoNumber(b) {
      NumberParses(a, n);
      NoNumberFails(b);
    }
  }
}
