/** The usage ledger of a copilot event journal: the reported total, and its
    ventilation by model and effort. Amounts are in nano-AIU. */
module CopilotJournal {
  import opened Options

  datatype Event =
    | SessionStart(selectedModel: Option<string>, reasoningEffort: Option<string>)
    | ModelChange(newModel: Option<string>, reasoningEffort: Option<string>)
    | Usage(totalNanoAiu: Option<nat>, cacheModels: seq<string>)
    | Other

  /** A journal line, as each of the two readers parses it: one takes the line as
      it stands, the other strips white space around it first. */
  datatype Line = Line(asIs: Option<Event>, trimmed: Option<Event>)
  {
    /** Stripping white space never changes or breaks a line that parses. */
    predicate Ok() {
      asIs.Some? ==> trimmed == asIs
    }
  }

  type Key = (string, Option<string>)

  datatype Group = Group(model: string, effort: Option<string>, nano: nat)
  {
    function Key(): Key {
      (model, effort)
    }
  }

  // ---------------------------------------------------------------------------
  // The reported total

  function Reading(e: Option<Event>): Option<nat> {
    if e.Some? && e.value.Usage? then e.value.totalNanoAiu else None
  }

  function Later(max: Option<nat>, reading: Option<nat>): Option<nat> {
    if reading.None? then max
    else if max.None? || max.value < reading.value then reading
    else max
  }

  /** `m` is the largest of the readings, if there are any. */
  ghost predicate IsMax(readings: seq<Option<nat>>, m: Option<nat>) {
    && (m.Some? ==> m in readings)
    && (forall r :: r in readings && r.Some? ==> m.Some? && r.value <= m.value)
  }

  ghost function TrimmedReadings(lines: seq<Line>): seq<Option<nat>> {
    seq(|lines|, i requires 0 <= i < |lines| => Reading(lines[i].trimmed))
  }

  ghost function AsIsReadings(lines: seq<Line>): seq<Option<nat>> {
    seq(|lines|, i requires 0 <= i < |lines| => Reading(lines[i].asIs))
  }

  method MaxTotalNanoAiu(lines: seq<Line>) returns (max: Option<nat>)
    ensures IsMax(TrimmedReadings(lines), max)
  {
    max := None;
    for i := 0 to |lines|
      invariant IsMax(TrimmedReadings(lines[..i]), max)
    {
      max := Later(max, Reading(lines[i].trimmed));
      assert TrimmedReadings(lines[..i + 1]) == TrimmedReadings(lines[..i]) + [Reading(lines[i].trimmed)];
    }
    assert lines[..|lines|] == lines;
  }

  // ---------------------------------------------------------------------------
  // What each event is charged to

  /** The model and effort in force, and the largest total read so far. */
  datatype Tracker = Tracker(model: Option<string>, effort: Option<string>, prev: nat)

  /** A usage delta and whom it is charged to, if anyone. */
  datatype Charge = Charge(key: Option<Key>, delta: nat)

  function NonEmpty(field: Option<string>): Option<string> {
    if field.Some? && field.value != "" then field else None
  }

  function Or(a: Option<string>, b: Option<string>): Option<string> {
    if a.Some? then a else b
  }

  function RealIds(ids: seq<string>): set<string> {
    set id | id in ids && id != "" && id != "auto"
  }

  /** The one real model a usage event names, if it names exactly one. */
  function SingleCacheModel(ids: seq<string>): (m: Option<string>)
    ensures m.Some? <==> exists id :: RealIds(ids) == {id}
    ensures m.Some? ==> RealIds(ids) == {m.value}
  {
    if ids == [] then
      assert RealIds(ids) == {};
      None
    else
      var rest := RealIds(ids[1..]);
      assert RealIds(ids) == rest + (if ids[0] != "" && ids[0] != "auto" then {ids[0]} else {});
      if ids[0] == "" || ids[0] == "auto" then SingleCacheModel(ids[1..])
      else if rest <= {ids[0]} then Some(ids[0])
      else None
  }

  function Attributed(t: Tracker, ids: seq<string>): Option<string> {
    Or(SingleCacheModel(ids), if t.model == Some("auto") then None else t.model)
  }

  function Track(t: Tracker, e: Option<Event>): Tracker {
    match e
    case Some(SessionStart(m, f)) => t.(model := Or(NonEmpty(m), t.model), effort := Or(NonEmpty(f), t.effort))
    case Some(ModelChange(m, f)) => t.(model := Or(NonEmpty(m), t.model), effort := Or(NonEmpty(f), t.effort))
    case Some(Usage(Some(nano), _)) => if nano > t.prev then t.(prev := nano) else t
    case _ => t
  }

  function ChargeOf(t: Tracker, e: Option<Event>): Option<Charge> {
    match e
    case Some(Usage(Some(nano), ids)) =>
      if nano <= t.prev then None
      else
        var m := Attributed(t, ids);
        Some(Charge(if m.Some? then Some((m.value, t.effort)) else None, nano - t.prev))
    case _ => None
  }

  function TrackAll(lines: seq<Line>): Tracker {
    if lines == [] then Tracker(None, None, 0)
    else Track(TrackAll(lines[..|lines| - 1]), lines[|lines| - 1].asIs)
  }

  /** The charges of a journal, in order. */
  function Charges(lines: seq<Line>): seq<Charge> {
    if lines == [] then []
    else
      var k := |lines| - 1;
      var c := ChargeOf(TrackAll(lines[..k]), lines[k].asIs);
      Charges(lines[..k]) + if c.Some? then [c.value] else []
  }

  /** The total charged to one key, or to no one. */
  ghost function TotalFor(charges: seq<Charge>, key: Option<Key>): nat {
    if charges == [] then 0
    else
      var k := |charges| - 1;
      TotalFor(charges[..k], key) + if charges[k].key == key then charges[k].delta else 0
  }

  ghost function Total(charges: seq<Charge>): nat {
    if charges == [] then 0 else Total(charges[..|charges| - 1]) + charges[|charges| - 1].delta
  }

  /** The keys charged, each once, in the order they first appear. */
  ghost function FirstAppearances(charges: seq<Charge>): seq<Key> {
    if charges == [] then []
    else
      var k := |charges| - 1;
      var before := FirstAppearances(charges[..k]);
      if charges[k].key.None? || charges[k].key.value in before then before
      else before + [charges[k].key.value]
  }

  lemma {:induction false} AppearancesUnique(charges: seq<Charge>)
    ensures var keys := FirstAppearances(charges);
            && (forall i, j :: 0 <= i < j < |keys| ==> keys[i] != keys[j])
            && forall key :: key in keys <==> exists i :: 0 <= i < |charges| && charges[i].key == Some(key)
  {
    if charges != [] {
      var k := |charges| - 1;
      AppearancesUnique(charges[..k]);
      forall key
        ensures key in FirstAppearances(charges) <==> exists i :: 0 <= i < |charges| && charges[i].key == Some(key)
      {
        if key in FirstAppearances(charges[..k]) {
          var i :| 0 <= i < k && charges[..k][i].key == Some(key);
          assert charges[i].key == Some(key);
        }
        if i :| 0 <= i < |charges| && charges[i].key == Some(key) {
          assert i < k ==> charges[..k][i].key == Some(key);
        }
      }
    }
  }

  // ---------------------------------------------------------------------------
  // The ventilation

  ghost function KeysOf(groups: seq<Group>): seq<Key> {
    seq(|groups|, i requires 0 <= i < |groups| => groups[i].Key())
  }

  /** The groups are the charged keys in first-appearance order, each with its total. */
  ghost predicate Ventilates(groups: seq<Group>, charges: seq<Charge>) {
    && KeysOf(groups) == FirstAppearances(charges)
    && forall i :: 0 <= i < |groups| ==> groups[i].nano == TotalFor(charges, Some(groups[i].Key()))
  }

  /** The index map finds each group by its key, and nothing else. */
  ghost predicate IndexOk(groups: seq<Group>, index: map<Key, nat>) {
    && (forall i :: 0 <= i < |groups| ==> groups[i].Key() in index && index[groups[i].Key()] == i)
    && (forall key :: key in index ==> index[key] < |groups| && groups[index[key]].Key() == key)
  }

  lemma {:induction false} NeverCharged(charges: seq<Charge>, key: Key)
    requires key !in FirstAppearances(charges)
    ensures TotalFor(charges, Some(key)) == 0
  {
    if charges != [] {
      NeverCharged(charges[..|charges| - 1], key);
    }
  }

  /** Adding a charge to its group keeps the ventilation. */
  lemma ChargeGroup(groups: seq<Group>, groups': seq<Group>, charges: seq<Charge>, c: Charge, i: nat)
    requires Ventilates(groups, charges) && i < |groups| && c.key == Some(groups[i].Key())
    requires groups' == groups[i := groups[i].(nano := groups[i].nano + c.delta)]
    ensures Ventilates(groups', charges + [c])
  {
    AppearancesUnique(charges);
    assert (charges + [c])[..|charges|] == charges;
    assert KeysOf(groups)[i] == groups[i].Key();
    assert KeysOf(groups') == KeysOf(groups);
    forall j | 0 <= j < |groups'|
      ensures groups'[j].nano == TotalFor(charges + [c], Some(groups'[j].Key()))
    {
      assert KeysOf(groups)[j] == groups[j].Key();
    }
  }

  /** A charge to a new key opens a group at the end. */
  lemma OpenGroup(groups: seq<Group>, charges: seq<Charge>, c: Charge, g: Group)
    requires Ventilates(groups, charges) && c.key == Some(g.Key()) && g.nano == c.delta
    requires forall i :: 0 <= i < |groups| ==> groups[i].Key() != g.Key()
    ensures Ventilates(groups + [g], charges + [c])
  {
    assert (charges + [c])[..|charges|] == charges;
    assert forall i :: 0 <= i < |groups| ==> KeysOf(groups)[i] == groups[i].Key();
    NeverCharged(charges, g.Key());
    assert KeysOf(groups + [g]) == KeysOf(groups) + [g.Key()];
  }

  lemma UnattributedCharge(groups: seq<Group>, charges: seq<Charge>, c: Charge)
    requires Ventilates(groups, charges) && c.key.None?
    ensures Ventilates(groups, charges + [c])
  {
    assert (charges + [c])[..|charges|] == charges;
  }

  lemma OneMoreLine(lines: seq<Line>, i: nat)
    requires i < |lines|
    ensures TrackAll(lines[..i + 1]) == Track(TrackAll(lines[..i]), lines[i].asIs)
    ensures var c := ChargeOf(TrackAll(lines[..i]), lines[i].asIs);
            Charges(lines[..i + 1]) == if c.Some? then Charges(lines[..i]) + [c.value] else Charges(lines[..i])
  {
    assert lines[..i + 1][..i] == lines[..i];
    assert Charges(lines[..i]) + [] == Charges(lines[..i]);
  }

  /** The observed usage of a journal. */
  method ObservedUsage(lines: seq<Line>) returns (groups: seq<Group>)
    ensures Ventilates(groups, Charges(lines))
  {
    var model: Option<string> := None;
    var effort: Option<string> := None;
    var prev: nat := 0;
    groups := [];
    var index: map<Key, nat> := map[];
    for i := 0 to |lines|
      invariant TrackAll(lines[..i]) == Tracker(model, effort, prev)
      invariant Ventilates(groups, Charges(lines[..i]))
      invariant IndexOk(groups, index)
    {
      hide Ventilates, IndexOk, Charges, TrackAll;
      ghost var charges := Charges(lines[..i]);
      OneMoreLine(lines, i);
      match lines[i].asIs {
        case Some(SessionStart(m, f)) =>
          model, effort := Or(NonEmpty(m), model), Or(NonEmpty(f), effort);
        case Some(ModelChange(m, f)) =>
          if NonEmpty(m).Some? {
            model := NonEmpty(m);
          }
          if NonEmpty(f).Some? {
            effort := NonEmpty(f);
          }
        case Some(Usage(Some(nano), ids)) =>
          var delta := if nano > prev then nano - prev else 0;
          var attributed := Attributed(Tracker(model, effort, prev), ids);
          if nano > prev {
            prev := nano;
          }
          if delta == 0 {
            continue;
          }
          if attributed.None? {
            UnattributedCharge(groups, charges, Charge(None, delta));
            continue;
          }
          var key := (attributed.value, effort);
          groups, index := AddCharge(groups, index, key, delta, charges);
        case _ =>
      }
    }
    assert lines[..|lines|] == lines;
  }

  method AddCharge(groups: seq<Group>, index: map<Key, nat>, key: Key, delta: nat, ghost charges: seq<Charge>)
    returns (groups': seq<Group>, index': map<Key, nat>)
    requires Ventilates(groups, charges) && IndexOk(groups, index)
    ensures Ventilates(groups', charges + [Charge(Some(key), delta)]) && IndexOk(groups', index')
  {
    if key in index {
      var i := index[key];
      groups' := groups[i := groups[i].(nano := groups[i].nano + delta)];
      index' := index;
      ChargeGroup(groups, groups', charges, Charge(Some(key), delta), i);
    } else {
      var g := Group(key.0, key.1, delta);
      groups' := groups + [g];
      index' := index[key := |groups|];
      OpenGroup(groups, charges, Charge(Some(key), delta), g);
    }
  }

  // ---------------------------------------------------------------------------
  // What a line is charged to

  /** The line selects this model, or this effort. */
  ghost predicate SelectsModel(line: Line, m: string) {
    && m != ""
    && match line.asIs
       case Some(SessionStart(model, _)) => model == Some(m)
       case Some(ModelChange(model, _)) => model == Some(m)
       case _ => false
  }

  ghost predicate SelectsEffort(line: Line, f: string) {
    && f != ""
    && match line.asIs
       case Some(SessionStart(_, effort)) => effort == Some(f)
       case Some(ModelChange(_, effort)) => effort == Some(f)
       case _ => false
  }

  /** The last model, or effort, selected by these lines, if any. */
  ghost predicate ModelInForce(lines: seq<Line>, m: Option<string>) {
    if m.None? then forall j, x :: 0 <= j < |lines| ==> !SelectsModel(lines[j], x)
    else exists j :: 0 <= j < |lines| && SelectsModel(lines[j], m.value)
                     && forall k, x :: j < k < |lines| ==> !SelectsModel(lines[k], x)
  }

  ghost predicate EffortInForce(lines: seq<Line>, f: Option<string>) {
    if f.None? then forall j, x :: 0 <= j < |lines| ==> !SelectsEffort(lines[j], x)
    else exists j :: 0 <= j < |lines| && SelectsEffort(lines[j], f.value)
                     && forall k, x :: j < k < |lines| ==> !SelectsEffort(lines[k], x)
  }

  ghost predicate Reads(line: Line, n: nat) {
    match line.asIs
    case Some(Usage(total, _)) => total == Some(n)
    case _ => false
  }

  /** The largest total these lines read, or 0. */
  ghost predicate LargestRead(lines: seq<Line>, prev: nat) {
    && (prev > 0 ==> exists j :: 0 <= j < |lines| && Reads(lines[j], prev))
    && forall j, n: nat :: 0 <= j < |lines| && Reads(lines[j], n) ==> n <= prev
  }

  /** The only model id listed that is neither empty nor the picker. */
  ghost predicate NamesOnly(ids: seq<string>, id: string) {
    id in ids && id != "" && id != "auto" && forall x :: x in ids ==> x == id || x == "" || x == "auto"
  }

  ghost predicate NamesNone(ids: seq<string>) {
    forall id :: !NamesOnly(ids, id)
  }

  lemma {:induction false} TrackedInForce(lines: seq<Line>)
    ensures ModelInForce(lines, TrackAll(lines).model)
    ensures EffortInForce(lines, TrackAll(lines).effort)
    ensures LargestRead(lines, TrackAll(lines).prev)
  {
    if lines != [] {
      var k := |lines| - 1;
      hide ModelInForce, EffortInForce, LargestRead, Track;
      var before := lines[..k];
      TrackedInForce(before);
      ModelMoves(before, lines[k], TrackAll(before));
      EffortMoves(before, lines[k], TrackAll(before));
      ReadMoves(before, lines[k], TrackAll(before));
      assert before + [lines[k]] == lines;
    }
  }

  lemma ModelMoves(before: seq<Line>, line: Line, t: Tracker)
    requires ModelInForce(before, t.model)
    ensures ModelInForce(before + [line], Track(t, line.asIs).model)
  {
    var lines := before + [line];
    assert forall j :: 0 <= j < |before| ==> lines[j] == before[j];
    var m, m' := t.model, Track(t, line.asIs).model;
    if m'.Some? && SelectsModel(line, m'.value) {
      assert SelectsModel(lines[|before|], m'.value);
    } else if m.Some? {
      var j :| 0 <= j < |before| && SelectsModel(before[j], m.value)
               && forall k, x :: j < k < |before| ==> !SelectsModel(before[k], x);
      assert SelectsModel(lines[j], m.value);
    }
  }

  lemma EffortMoves(before: seq<Line>, line: Line, t: Tracker)
    requires EffortInForce(before, t.effort)
    ensures EffortInForce(before + [line], Track(t, line.asIs).effort)
  {
    var lines := before + [line];
    assert forall j :: 0 <= j < |before| ==> lines[j] == before[j];
    var f, f' := t.effort, Track(t, line.asIs).effort;
    if f'.Some? && SelectsEffort(line, f'.value) {
      assert SelectsEffort(lines[|before|], f'.value);
    } else if f.Some? {
      var j :| 0 <= j < |before| && SelectsEffort(before[j], f.value)
               && forall k, x :: j < k < |before| ==> !SelectsEffort(before[k], x);
      assert SelectsEffort(lines[j], f.value);
    }
  }

  lemma ReadMoves(before: seq<Line>, line: Line, t: Tracker)
    requires LargestRead(before, t.prev)
    ensures LargestRead(before + [line], Track(t, line.asIs).prev)
  {
    var lines := before + [line];
    assert forall j :: 0 <= j < |before| ==> lines[j] == before[j];
    assert lines[|before|] == line;
  }

  lemma InForceUnique(lines: seq<Line>, m: Option<string>, n: Option<string>)
    ensures ModelInForce(lines, m) && ModelInForce(lines, n) ==> m == n
    ensures EffortInForce(lines, m) && EffortInForce(lines, n) ==> m == n
  {
  }

  /** The next line adds what it reads beyond the largest total so far, charged to the one
      model it names, else to the model in force unless that is the picker, else to no
      one; under the effort in force. A line that reads nothing more adds nothing. */
  lemma ChargeMeans(lines: seq<Line>, line: Line, model: Option<string>, effort: Option<string>, prev: nat)
    requires ModelInForce(lines, model) && EffortInForce(lines, effort) && LargestRead(lines, prev)
    ensures (forall n: nat :: Reads(line, n) ==> n <= prev) ==> Charges(lines + [line]) == Charges(lines)
    ensures forall n: nat, ids, id :: line.asIs == Some(Usage(Some(n), ids)) && n > prev && NamesOnly(ids, id) ==>
              Charges(lines + [line]) == Charges(lines) + [Charge(Some((id, effort)), n - prev)]
    ensures forall n: nat, ids :: line.asIs == Some(Usage(Some(n), ids)) && n > prev && NamesNone(ids) ==>
              Charges(lines + [line]) == Charges(lines)
                + [Charge(if model.Some? && model.value != "auto" then Some((model.value, effort)) else None, n - prev)]
  {
    TrackedInForce(lines);
    var t := TrackAll(lines);
    InForceUnique(lines, model, t.model);
    InForceUnique(lines, effort, t.effort);
    assert t.prev == prev;
    assert (lines + [line])[..|lines|] == lines;
    hide ModelInForce, EffortInForce, LargestRead, TrackAll;
    if line.asIs.Some? && line.asIs.value.Usage? && line.asIs.value.totalNanoAiu.Some? {
      var n, ids := line.asIs.value.totalNanoAiu.value, line.asIs.value.cacheModels;
      assert Reads(line, n);
      OnlyNamed(ids);
    } else {
      assert Charges(lines) + [] == Charges(lines);
    }
  }

  lemma OnlyNamed(ids: seq<string>)
    ensures forall id :: NamesOnly(ids, id) <==> SingleCacheModel(ids) == Some(id)
  {
    forall id
      ensures NamesOnly(ids, id) <==> RealIds(ids) == {id}
    {
      if RealIds(ids) == {id} {
        assert id in RealIds(ids);
        forall x | x in ids
          ensures x == id || x == "" || x == "auto"
        {
          assert x != "" && x != "auto" ==> x in RealIds(ids);
        }
      }
    }
    var m := SingleCacheModel(ids);
    forall id | RealIds(ids) == {id}
      ensures m == Some(id)
    {
      assert m.value in RealIds(ids);
    }
  }

  /** The reported total in terms of the events: the largest total of a usage event that
      the trimming reader parses, and none when there is no such event. */
  lemma ReportedIsLargest(lines: seq<Line>, m: Option<nat>)
    requires IsMax(TrimmedReadings(lines), m)
    ensures m.Some? ==> exists i, ids :: 0 <= i < |lines| && lines[i].trimmed == Some(Usage(Some(m.value), ids))
    ensures forall i, n: nat, ids :: 0 <= i < |lines| && lines[i].trimmed == Some(Usage(Some(n), ids)) ==>
              m.Some? && n <= m.value
  {
    if m.Some? {
      var i :| 0 <= i < |lines| && TrimmedReadings(lines)[i] == m;
      assert lines[i].trimmed == Some(Usage(Some(m.value), lines[i].trimmed.value.cacheModels));
    }
    forall i, n: nat, ids | 0 <= i < |lines| && lines[i].trimmed == Some(Usage(Some(n), ids))
      ensures m.Some? && n <= m.value
    {
      assert TrimmedReadings(lines)[i] == Some(n);
    }
  }

  // ---------------------------------------------------------------------------
  // Conservation

  ghost function NanoSum(groups: seq<Group>): nat {
    if groups == [] then 0 else NanoSum(groups[..|groups| - 1]) + groups[|groups| - 1].nano
  }

  /** The sum over the charged keys of what each was charged. */
  ghost function KeyedSum(keys: seq<Key>, charges: seq<Charge>): nat {
    if keys == [] then 0
    else KeyedSum(keys[..|keys| - 1], charges) + TotalFor(charges, Some(keys[|keys| - 1]))
  }

  lemma {:induction false} NanoSumIsKeyed(groups: seq<Group>, keys: seq<Key>, charges: seq<Charge>)
    requires KeysOf(groups) == keys
    requires forall i :: 0 <= i < |groups| ==> groups[i].nano == TotalFor(charges, Some(groups[i].Key()))
    ensures NanoSum(groups) == KeyedSum(keys, charges)
  {
    assert |keys| == |groups|;
    if groups != [] {
      var k := |groups| - 1;
      assert keys[k] == groups[k].Key();
      assert KeysOf(groups[..k]) == keys[..k];
      NanoSumIsKeyed(groups[..k], keys[..k], charges);
    }
  }

  /** One more charge raises the sum by its delta when its key is counted, once. */
  lemma {:induction false} KeyedSumStep(keys: seq<Key>, charges: seq<Charge>, c: Charge)
    requires forall i, j :: 0 <= i < j < |keys| ==> keys[i] != keys[j]
    ensures KeyedSum(keys, charges + [c])
            == KeyedSum(keys, charges) + if c.key.Some? && c.key.value in keys then c.delta else 0
  {
    assert (charges + [c])[..|charges|] == charges;
    if keys != [] {
      var k := |keys| - 1;
      KeyedSumStep(keys[..k], charges, c);
      assert keys == keys[..k] + [keys[k]];
      assert keys[k] !in keys[..k];
    }
  }

  /** Keyed and keyless charges make up the total. */
  lemma {:induction false} ChargesSplit(charges: seq<Charge>)
    ensures KeyedSum(FirstAppearances(charges), charges) + TotalFor(charges, None) == Total(charges)
  {
    if charges != [] {
      var k := |charges| - 1;
      var before, c := charges[..k], charges[k];
      assert charges == before + [c];
      ChargesSplit(before);
      AppearancesUnique(before);
      KeyedSumStep(FirstAppearances(before), before, c);
      if c.key.Some? && c.key.value !in FirstAppearances(before) {
        NeverCharged(before, c.key.value);
        var keys := FirstAppearances(charges);
        assert keys[..|keys| - 1] == FirstAppearances(before);
      }
    }
  }

  function OrZero(m: Option<nat>): nat {
    if m.Some? then m.value else 0
  }

  /** The deltas telescope to the largest total read. */
  lemma {:induction false} ChargesTelescope(lines: seq<Line>)
    ensures Total(Charges(lines)) == TrackAll(lines).prev
    ensures forall m :: IsMax(AsIsReadings(lines), m) ==> OrZero(m) == TrackAll(lines).prev
  {
    if lines != [] {
      var k := |lines| - 1;
      var before := lines[..k];
      ChargesTelescope(before);
      OneMoreLine(lines, k);
      assert lines[..k + 1] == lines;
      TotalOneMore(Charges(before), ChargeOf(TrackAll(before), lines[k].asIs));
      assert AsIsReadings(lines) == AsIsReadings(before) + [Reading(lines[k].asIs)];
      hide Charges, TrackAll;
      forall m | IsMax(AsIsReadings(lines), m)
        ensures OrZero(m) == TrackAll(lines).prev
      {
        var was := MaxBefore(AsIsReadings(before));
        MaxOneMore(AsIsReadings(before), was, Reading(lines[k].asIs), m);
      }
    }
  }

  lemma TotalOneMore(charges: seq<Charge>, c: Option<Charge>)
    ensures c.Some? ==> Total(charges + [c.value]) == Total(charges) + c.value.delta
  {
    if c.Some? {
      assert (charges + [c.value])[..|charges|] == charges;
    }
  }

  lemma MaxOneMore(readings: seq<Option<nat>>, was: Option<nat>, r: Option<nat>, m: Option<nat>)
    requires IsMax(readings, was) && IsMax(readings + [r], m)
    ensures OrZero(m) == OrZero(Later(was, r))
  {
    assert r in readings + [r];
    assert forall x :: x in readings ==> x in readings + [r];
    assert forall x :: x in readings + [r] ==> x in readings || x == r;
  }

  /** Every sequence of readings has a largest one, or none at all. */
  lemma {:induction false} MaxBefore(readings: seq<Option<nat>>) returns (m: Option<nat>)
    ensures IsMax(readings, m)
  {
    m := None;
    if readings != [] {
      var k := |readings| - 1;
      assert readings == readings[..k] + [readings[k]];
      m := MaxBefore(readings[..k]);
      m := Later(m, readings[k]);
    }
  }

  /** Conservation over the lines one reader sees: groups plus unattributed deltas
      are the largest total read. */
  lemma Conservation(lines: seq<Line>, groups: seq<Group>, max: Option<nat>)
    requires Ventilates(groups, Charges(lines)) && IsMax(AsIsReadings(lines), max)
    ensures NanoSum(groups) + TotalFor(Charges(lines), None) == OrZero(max)
  {
    NanoSumIsKeyed(groups, FirstAppearances(Charges(lines)), Charges(lines));
    ChargesSplit(Charges(lines));
    ChargesTelescope(lines);
  }

  /** The two readers see the same journal except for lines padded with white space
      that JSON does not allow. The reported total is conserved exactly when no
      such line out-reads all the others. */
  lemma ReportedTotalConserved(lines: seq<Line>, groups: seq<Group>, reported: Option<nat>)
    requires forall i :: 0 <= i < |lines| ==> lines[i].Ok()
    requires Ventilates(groups, Charges(lines)) && IsMax(TrimmedReadings(lines), reported)
    ensures NanoSum(groups) + TotalFor(Charges(lines), None) == OrZero(reported)
            <==> forall i :: 0 <= i < |lines| ==> NotOutread(lines, i)
  {
    var max := MaxBefore(AsIsReadings(lines));
    Conservation(lines, groups, max);
    forall i | 0 <= i < |lines|
      ensures OrZero(Reading(lines[i].asIs)) <= OrZero(max)
      ensures OrZero(Reading(lines[i].trimmed)) <= OrZero(reported)
    {
      assert AsIsReadings(lines)[i] == Reading(lines[i].asIs);
      assert TrimmedReadings(lines)[i] == Reading(lines[i].trimmed);
    }
    AsIsBelowReported(lines, max, reported);
    if OrZero(max) < OrZero(reported) {
      var i :| 0 <= i < |lines| && TrimmedReadings(lines)[i] == reported;
      assert !NotOutread(lines, i);
    } else {
      forall i | 0 <= i < |lines|
        ensures NotOutread(lines, i)
      {
        if max.Some? {
          var j :| 0 <= j < |lines| && AsIsReadings(lines)[j] == max;
          assert OrZero(Reading(lines[j].asIs)) == OrZero(max);
        }
      }
    }
  }

  /** One usage line, padded so that only the trimming reader parses it. */
  const PADDED_LINE := Line(None, Some(Usage(Some(5), [])))

  /** An instance: the journal of that one line is reported as 5 and ventilated as nothing. */
  lemma PaddedReadingLost(groups: seq<Group>, reported: Option<nat>)
    requires Ventilates(groups, Charges([PADDED_LINE])) && IsMax(TrimmedReadings([PADDED_LINE]), reported)
    ensures reported == Some(5) && groups == [] && TotalFor(Charges([PADDED_LINE]), None) == 0
  {
    assert [PADDED_LINE][..0] == [];
    assert Charges([PADDED_LINE]) == [];
    assert TrimmedReadings([PADDED_LINE])[0] == Some(5);
    assert |KeysOf(groups)| == 0;
  }

  /** Some line that parses as it stands reads at least as much as line `i` does. */
  ghost predicate NotOutread(lines: seq<Line>, i: nat)
    requires i < |lines|
  {
    OrZero(Reading(lines[i].trimmed)) == 0
    || exists j :: 0 <= j < |lines| && OrZero(Reading(lines[i].trimmed)) <= OrZero(Reading(lines[j].asIs))
  }

  lemma AsIsBelowReported(lines: seq<Line>, max: Option<nat>, reported: Option<nat>)
    requires forall i :: 0 <= i < |lines| ==> lines[i].Ok()
    requires IsMax(AsIsReadings(lines), max) && IsMax(TrimmedReadings(lines), reported)
    ensures OrZero(max) <= OrZero(reported)
  {
    if max.Some? {
      var j :| 0 <= j < |lines| && AsIsReadings(lines)[j] == max;
      assert TrimmedReadings(lines)[j] == max;
    }
  }

  // ---------------------------------------------------------------------------
  // In dollars

  /** The published constant: a nano-AIU is 10^-11 dollars. */
  function NanoAiuToUsd(nano: nat): real {
    nano as real / 1000000000.0 * 0.01
  }

  ghost function UsdSum(groups: seq<Group>): real {
    if groups == [] then 0.0 else UsdSum(groups[..|groups| - 1]) + NanoAiuToUsd(groups[|groups| - 1].nano)
  }

  /** Converting each group and adding is converting the sum. */
  lemma {:induction false} UsdSumConverts(groups: seq<Group>)
    ensures UsdSum(groups) == NanoAiuToUsd(NanoSum(groups))
  {
    if groups != [] {
      UsdSumConverts(groups[..|groups| - 1]);
    }
  }

  /** A hundred thousand million nano-AIU are a dollar, and amounts convert in proportion. */
  lemma DollarInNano(nano: nat)
    ensures NanoAiuToUsd(100_000_000_000) == 1.0
    ensures NanoAiuToUsd(nano) * 100000000000.0 == nano as real
  {
  }
}
