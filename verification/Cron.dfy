/** Cron schedules: parsing the five fields, and the bounded search for the next
    minute that matches. Instants are minutes since 1970-01-01T00:00Z. */
module Cron {
  import opened Calendar
  import opened CronFields
  import opened Options
  import opened Text

  datatype Schedule = Schedule(
    minutes: seq<nat>, hours: seq<nat>, daysOfMonth: seq<nat>, months: seq<nat>, daysOfWeek: seq<nat>,
    domRestricted: bool, dowRestricted: bool)

  const DAY: int := 1440
  const HORIZON: int := 4 * 366 * 1440

  /** Vixie cron's day rule: with both day fields restricted, either one suffices. */
  predicate DayMatches(s: Schedule, day: int) {
    var dom := DateOf(day).day in s.daysOfMonth;
    var dow := Weekday(day) in s.daysOfWeek;
    match (s.domRestricted, s.dowRestricted)
    case (true, true) => dom || dow
    case (true, false) => dom
    case (false, true) => dow
    case (false, false) => true
  }

  predicate TimeMatches(s: Schedule, minuteOfDay: int) {
    minuteOfDay % 60 in s.minutes && minuteOfDay / 60 in s.hours
  }

  predicate Matches(s: Schedule, t: int) {
    && TimeMatches(s, t % DAY)
    && DateOf(t / DAY).month in s.months
    && DayMatches(s, t / DAY)
  }

  // ---------------------------------------------------------------------------
  // Parsing

  /** What parsing guarantees of any schedule: each field holds some value of its
      range, and an unrestricted weekday field holds every weekday. */
  ghost predicate IsParsed(s: Schedule) {
    && (exists v :: v in s.minutes && v < 60)
    && (exists v :: v in s.hours && v < 24)
    && (exists v :: v in s.daysOfMonth && 1 <= v <= 31)
    && (exists v :: v in s.months && 1 <= v <= 12)
    && (exists v :: v in s.daysOfWeek && v < 7)
  }

  /** The error of the first faulty field, reading from the left. */
  ghost function FirstFaultOf(fields: seq<string>): Option<CronError> {
    if |fields| != 5 then Some(FieldCount(|fields|))
    else if PartsOf(fields[0], 0, 59).Err? then Some(PartsOf(fields[0], 0, 59).error)
    else if PartsOf(fields[1], 0, 23).Err? then Some(PartsOf(fields[1], 0, 23).error)
    else if PartsOf(fields[2], 1, 31).Err? then Some(PartsOf(fields[2], 1, 31).error)
    else if PartsOf(fields[3], 1, 12).Err? then Some(PartsOf(fields[3], 1, 12).error)
    else if PartsOf(fields[4], 0, 7).Err? then Some(PartsOf(fields[4], 0, 7).error)
    else None
  }

  /** The schedule holds the values of the five fields, and remembers which of the
      day fields was not a bare star. */
  ghost predicate HoldsFields(s: Schedule, fields: seq<string>) {
    && |fields| == 5
    && FieldIs(fields[0], 0, 59, s.minutes)
    && FieldIs(fields[1], 0, 23, s.hours)
    && FieldIs(fields[2], 1, 31, s.daysOfMonth)
    && FieldIs(fields[3], 1, 12, s.months)
    && DowFieldIs(fields[4], s.daysOfWeek)
    && s.domRestricted == (fields[2] != "*")
    && s.dowRestricted == (fields[4] != "*")
  }

  method Parse(expr: string) returns (r: Result<Schedule>)
    ensures r.Err? ==> FirstFaultOf(SplitWhitespace(expr)) == Some(r.error)
    ensures r.Ok? ==> HoldsFields(r.value, SplitWhitespace(expr))
    ensures r.Ok? ==> IsParsed(r.value)
  {
    hide PartsOf, FieldIs, DowFieldIs, ReadParts, SplitWhitespace;
    var fields := SplitWhitespace(expr);
    if |fields| != 5 {
      return Err(FieldCount(|fields|));
    }
    var minutes := ParseNonempty(fields[0], 0, 59);
    if minutes.Err? { return Err(minutes.error); }
    var hours := ParseNonempty(fields[1], 0, 23);
    if hours.Err? { return Err(hours.error); }
    var doms := ParseNonempty(fields[2], 1, 31);
    if doms.Err? { return Err(doms.error); }
    var months := ParseNonempty(fields[3], 1, 12);
    if months.Err? { return Err(months.error); }
    var dows := ParseDow(fields[4]);
    if dows.Err? { return Err(dows.error); }
    r := Ok(Schedule(minutes.value, hours.value, doms.value, months.value, dows.value,
                     fields[2] != "*", fields[4] != "*"));
  }

  /** `ParseField`, whose values are never outside the search's reach altogether. */
  method ParseNonempty(field: string, min: nat, max: nat) returns (r: Result<seq<nat>>)
    requires max < 60
    ensures r.Err? ==> PartsOf(field, min, max) == Err(r.error)
    ensures r.Ok? ==> PartsOf(field, min, max).Ok? && FieldIs(field, min, max, r.value)
    ensures r.Ok? ==> exists v :: v in r.value && min <= v <= max
  {
    r := ParseField(field, min, max);
    if r.Ok? {
      ghost var v := FieldHasValue(PartsOf(field, min, max).value, r.value, min, max);
    }
  }

  // ---------------------------------------------------------------------------
  // The search

  /** The first minute boundary strictly after an instant given in seconds. */
  function FirstCandidate(now: int): int {
    now / 60 + 1
  }

  /** What the search returns: the earliest match of the next four leap years' worth of
      minutes, or none in them. */
  ghost predicate IsNextFire(s: Schedule, now: int, r: Option<int>) {
    var first := now / 60 + 1;
    match r
    case Some(t) =>
      && first <= t < first + 4 * 366 * 24 * 60 && Matches(s, t)
      && forall t' :: first <= t' < t ==> !Matches(s, t')
    case None => forall t :: first <= t < first + 4 * 366 * 24 * 60 ==> !Matches(s, t)
  }

  /** The earliest matching minute of the horizon, if there is one. */
  method NextFireAfter(s: Schedule, now: int) returns (r: Option<int>)
    ensures IsNextFire(s, now, r)
  {
    var candidate := FirstCandidate(now);
    for i := 0 to HORIZON
      invariant candidate == FirstCandidate(now) + i
      invariant forall t :: FirstCandidate(now) <= t < candidate ==> !Matches(s, t)
    {
      if Matches(s, candidate) {
        return Some(candidate);
      }
      candidate := candidate + 1;
    }
    r := None;
  }

  /** A minute lies at or after the first candidate iff its start is strictly after `now`. */
  lemma CandidatesAreAfterNow(now: int, t: int)
    ensures FirstCandidate(now) <= t <==> now < 60 * t
  {
  }

  // ---------------------------------------------------------------------------
  // What a schedule matches

  /** A day number falls on a weekday, counted from Sunday, 4 January 1970. */
  ghost predicate FallsOn(day: int, weekday: int) {
    0 <= weekday < 7 && exists weeks :: day == DayNumber(Date(1970, 1, 4)) + 7 * weeks + weekday
  }

  lemma WeekdayFalls(day: int, weekday: int)
    requires FallsOn(day, weekday)
    ensures Weekday(day) == weekday
  {
    var weeks :| day == DayNumber(Date(1970, 1, 4)) + 7 * weeks + weekday;
    assert DayNumber(Date(1970, 1, 4)) == 3;
  }

  /** In civil time: a schedule matches a minute exactly when minute, hour and month are
      in their fields and the day is. With both day fields restricted either one will
      do, with one restricted that one counts, with neither every day does. */
  lemma MatchesIff(s: Schedule, d: Date, hour: int, minute: int, weekday: int)
    requires IsDate(d) && 0 <= hour < 24 && 0 <= minute < 60 && FallsOn(DayNumber(d), weekday)
    ensures Matches(s, DayNumber(d) * 1440 + 60 * hour + minute)
            <==> && minute in s.minutes && hour in s.hours && d.month in s.months
                 && (s.domRestricted && s.dowRestricted ==> d.day in s.daysOfMonth || weekday in s.daysOfWeek)
                 && (s.domRestricted && !s.dowRestricted ==> d.day in s.daysOfMonth)
                 && (!s.domRestricted && s.dowRestricted ==> weekday in s.daysOfWeek)
  {
    DateOfDayNumber(d);
    WeekdayFalls(DayNumber(d), weekday);
    hide DateOf, DayNumber, Weekday, FallsOn;
    MinuteOfDay(DayNumber(d), 60 * hour + minute);
    assert (60 * hour + minute) % 60 == minute && (60 * hour + minute) / 60 == hour;
  }

  // ---------------------------------------------------------------------------
  // When a schedule fires

  /** Some day of the year that every year has satisfies the month and day fields. */
  ghost predicate AdmitsOrdinaryDay(s: Schedule) {
    exists m, d :: IsDate(Date(2001, m, d)) && m in s.months
                   && (s.domRestricted && !s.dowRestricted ==> d in s.daysOfMonth)
  }

  /** 29 February satisfies the month and day-of-month fields. */
  ghost predicate AdmitsLeapDay(s: Schedule) {
    2 in s.months && 29 in s.daysOfMonth
  }

  predicate IsLeapDay(day: int) {
    DateOf(day).month == 2 && DateOf(day).day == 29
  }

  /** A day whose date satisfies the fields fires at some minute of that day. */
  lemma SlotOfDay(s: Schedule) returns (slot: int)
    requires IsParsed(s)
    ensures 0 <= slot < DAY && TimeMatches(s, slot)
  {
    var m: nat :| m in s.minutes && m < 60;
    var h: nat :| h in s.hours && h < 24;
    slot := 60 * h + m;
  }

  lemma MinuteOfDay(day: int, slot: int)
    requires 0 <= slot < DAY
    ensures (day * DAY + slot) / DAY == day && (day * DAY + slot) % DAY == slot
  {
  }

  /** A day after today whose month and day match, within 366 days. */
  lemma OrdinaryDayWithinYear(s: Schedule, today: int) returns (day: int)
    requires IsParsed(s) && AdmitsOrdinaryDay(s)
    ensures today < day <= today + 366
    ensures DateOf(day).month in s.months && DayMatches(s, day)
  {
    hide DateOf, Weekday;
    var m, d :| IsDate(Date(2001, m, d)) && m in s.months
                && (s.domRestricted && !s.dowRestricted ==> d in s.daysOfMonth);
    if s.dowRestricted {
      var w: nat :| w in s.daysOfWeek && w < 7;
      day := NextWeekdayInMonth(today, m, w);
    } else {
      day := NextAnniversary(today, m, d);
    }
  }

  /** A schedule that admits an ordinary day fires within 366 days of any minute. */
  lemma FiresWithinYear(s: Schedule, t: int) returns (fire: int)
    requires IsParsed(s) && AdmitsOrdinaryDay(s)
    ensures t < fire <= t + 366 * DAY && Matches(s, fire)
  {
    hide DayMatches, DateOf;
    var slot := SlotOfDay(s);
    // Today still counts when its slot is yet to come.
    var start := if slot > t % DAY then t / DAY - 1 else t / DAY;
    var day := OrdinaryDayWithinYear(s, start);
    MinuteOfDay(day, slot);
    fire := day * DAY + slot;
  }

  /** Without an ordinary day, only 29 February can match. */
  lemma OnlyLeapDays(s: Schedule, t: int)
    requires IsParsed(s) && !AdmitsOrdinaryDay(s)
    ensures Matches(s, t) <==> AdmitsLeapDay(s) && IsLeapDay(t / DAY) && TimeMatches(s, t % DAY)
  {
    NoOrdinaryDay(s);
    if Matches(s, t) && !IsLeapDay(t / DAY) {
      OrdinaryMatch(s, t);
    }
  }

  lemma OrdinaryMatch(s: Schedule, t: int)
    requires Matches(s, t) && !IsLeapDay(t / DAY)
    ensures AdmitsOrdinaryDay(s)
  {
    var date := DateOf(t / DAY);
    assert IsDate(Date(2001, date.month, date.day));
  }

  /** A schedule without an ordinary day restricts the day of the month only. */
  lemma NoOrdinaryDay(s: Schedule)
    requires IsParsed(s) && !AdmitsOrdinaryDay(s)
    ensures s.domRestricted && !s.dowRestricted
  {
    var m: nat :| m in s.months && 1 <= m <= 12;
    assert IsDate(Date(2001, m, 1));
  }

  // ---------------------------------------------------------------------------
  // Leap days and the four-year horizon

  /** The earliest matching minute of a day, from `i` on. */
  function FirstSlotFrom(s: Schedule, i: int): (slot: int)
    requires i <= DAY
    ensures i <= slot <= DAY && (slot < DAY ==> TimeMatches(s, slot))
    ensures forall k :: i <= k < slot ==> !TimeMatches(s, k)
    decreases DAY - i
  {
    if i == DAY || TimeMatches(s, i) then i else FirstSlotFrom(s, i + 1)
  }

  /** The latest matching minute of a day, from `i` down. */
  function LastSlotFrom(s: Schedule, i: int): (slot: int)
    requires -1 <= i < DAY
    ensures -1 <= slot <= i && (slot >= 0 ==> TimeMatches(s, slot))
    ensures forall k :: slot < k <= i ==> !TimeMatches(s, k)
    decreases i
  {
    if i == -1 || TimeMatches(s, i) then i else LastSlotFrom(s, i - 1)
  }

  function FirstSlot(s: Schedule): int {
    FirstSlotFrom(s, 0)
  }

  function LastSlot(s: Schedule): int {
    LastSlotFrom(s, DAY - 1)
  }

  lemma SlotsBound(s: Schedule)
    requires IsParsed(s)
    ensures 0 <= FirstSlot(s) <= LastSlot(s) < DAY
    ensures TimeMatches(s, FirstSlot(s)) && TimeMatches(s, LastSlot(s))
    ensures forall k :: 0 <= k < DAY && TimeMatches(s, k) ==> FirstSlot(s) <= k <= LastSlot(s)
  {
    hide TimeMatches;
    var slot := SlotOfDay(s);
  }

  /** The minute of 29 February of year `y` at a slot of the day. */
  function LeapMinute(y: int, slot: int): int {
    DayNumber(Date(y, 2, 29)) * DAY + slot
  }

  /** A century year without a 29 February. */
  predicate IsSkippedCentury(c: int) {
    c % 100 == 0 && c % 400 != 0
  }

  /** The horizon starts after the last slot of the leap day before the century year
      `c`, and ends by the first slot of the leap day after it. */
  predicate OutrunBy(s: Schedule, now: int, c: int) {
    && IsSkippedCentury(c)
    && LeapMinute(c - 4, LastSlot(s)) < FirstCandidate(now)
    && FirstCandidate(now) + HORIZON <= LeapMinute(c + 4, FirstSlot(s))
  }

  lemma AroundCentury(c: int)
    requires IsSkippedCentury(c)
    ensures IsLeap(c - 4) && IsLeap(c + 4) && !IsLeap(c)
    ensures forall z :: c - 4 < z < c + 4 ==> !IsLeap(z)
    ensures DayNumber(Date(c + 4, 2, 29)) == DayNumber(Date(c - 4, 2, 29)) + 2921
  {
    LeapsAroundCentury(c);
    FourYears(c - 4);
    FourYears(c);
    hide DaysBeforeYear, IsLeap, IsSkippedCentury;
  }

  lemma LeapsAroundCentury(c: int)
    requires IsSkippedCentury(c)
    ensures IsLeap(c - 4) && IsLeap(c + 4)
    ensures forall z :: c - 4 < z < c + 4 ==> !IsLeap(z)
  {
    var k := c / 100;
    LeapBeside(k, -4);
    LeapBeside(k, 4);
    forall z | c - 4 < z < c + 4
      ensures !IsLeap(z)
    {
      NoLeapNear(k, z);
    }
  }

  lemma LeapBeside(k: int, d: int)
    requires d == 4 || d == -4
    ensures IsLeap(100 * k + d)
  {
    assert 100 * k + d == 4 * (25 * k + d / 4);
  }

  lemma NoLeapNear(k: int, z: int)
    requires 100 * k - 4 < z < 100 * k + 4 && (100 * k) % 400 != 0
    ensures !IsLeap(z)
  {
    if z % 4 == 0 {
      assert z == 4 * (z / 4) && 100 * k == 4 * (25 * k);
      assert z == 100 * k;
    }
  }

  /** Four years from a year that is a multiple of four: one day more if it is leap. */
  lemma FourYears(y: int)
    requires !IsLeap(y + 1) && !IsLeap(y + 2) && !IsLeap(y + 3)
    ensures DaysBeforeYear(y + 4) == DaysBeforeYear(y) + 1460 + if IsLeap(y) then 1 else 0
  {
    hide DaysBeforeYear, IsLeap;
    YearLength(y);
    YearLength(y + 1);
    YearLength(y + 2);
    YearLength(y + 3);
  }

  lemma FourYearsOn(y: int)
    requires IsLeap(y)
    ensures IsLeap(y + 4) ==> DayNumber(Date(y + 4, 2, 29)) == DayNumber(Date(y, 2, 29)) + 1461
    ensures !IsLeap(y + 4) ==> IsSkippedCentury(y + 4)
  {
    assert y % 4 == 0;
    hide DaysBeforeYear;
    FourYears(y);
  }

  /** Leap days come in the order of their years. */
  lemma LeapDaysOrdered(y: int, z: int)
    requires y <= z
    ensures DayNumber(Date(y, 2, 29)) <= DayNumber(Date(z, 2, 29))
  {
    YearsOrdered(y, z);
    if y < z {
      YearLength(y);
    }
  }

  /** Across a skipped century the horizon holds no slot of any leap day. */
  lemma OutrunMatchesNothing(s: Schedule, now: int, c: int, t: int)
    requires IsParsed(s)
    ensures OutrunBy(s, now, c) && FirstCandidate(now) <= t < FirstCandidate(now) + HORIZON ==>
              !(IsLeapDay(t / DAY) && TimeMatches(s, t % DAY))
  {
    if OutrunBy(s, now, c) && FirstCandidate(now) <= t < FirstCandidate(now) + HORIZON
       && IsLeapDay(t / DAY) && TimeMatches(s, t % DAY) {
      var y := DateOf(t / DAY).year;
      DayNumberOfDateOf(t / DAY);
      AroundCentury(c);
      hide DateOf, TimeMatches, IsLeap, DayNumber, FirstSlot, LastSlot;
      SlotsBound(s);
      if y <= c - 4 {
        LeapDaysOrdered(y, c - 4);
      } else {
        LeapDaysOrdered(c + 4, y);
      }
      assert false;
    }
  }

  /** Where a day of year `y` stands to 29 February of year `z`. */
  lemma DayAgainstLeapDay(n: int, z: int)
    requires IsLeap(z)
    ensures var y, leap := DateOf(n).year, DayNumber(Date(z, 2, 29));
            && (y < z ==> n < leap) && (z < y ==> leap < n) && (y == z ==> n <= leap + 366)
            && (y <= z <= y + 3 ==> leap <= n + 1200)
  {
    var y := DateOf(n).year;
    DayNumberOfDateOf(n);
    WithinYear(DateOf(n));
    hide DateOf;
    YearLength(z);
    if y < z {
      YearsOrdered(y, z);
    } else if z < y {
      YearsOrdered(z, y);
    }
    YearLength(y);
    YearLength(y + 1);
    YearLength(y + 2);
  }

  /** From a leap year on: its own leap day, or else the next one there is. */
  lemma LeapSlotFrom(s: Schedule, now: int, z: int) returns (t: int)
    requires IsParsed(s) && IsLeap(z)
    requires DateOf(FirstCandidate(now) / DAY).year <= z <= DateOf(FirstCandidate(now) / DAY).year + 3
    ensures !OutrunBy(s, now, z + 4) ==>
              && FirstCandidate(now) <= t < FirstCandidate(now) + HORIZON
              && IsLeapDay(t / DAY) && TimeMatches(s, t % DAY)
  {
    SlotsBound(s);
    FourYearsOn(z);
    DayAgainstLeapDay(FirstCandidate(now) / DAY, z);
    hide TimeMatches, FirstSlot, LastSlot, DateOf, DayNumber, IsLeap, IsLeapDay, IsParsed;
    if LeapMinute(z, LastSlot(s)) >= FirstCandidate(now) {
      t := LeapMinuteMatches(s, z, LastSlot(s));
    } else if IsLeap(z + 4) {
      t := LeapMinuteMatches(s, z + 4, FirstSlot(s));
    } else {
      // The next leap day is then a skipped century away, which outruns the horizon.
      AroundCentury(z + 4);
      t := 0;
    }
  }

  /** Anywhere else it holds one. */
  lemma LeapSlotInHorizon(s: Schedule, now: int) returns (t: int)
    requires IsParsed(s) && forall c :: !OutrunBy(s, now, c)
    ensures FirstCandidate(now) <= t < FirstCandidate(now) + HORIZON
    ensures IsLeapDay(t / DAY) && TimeMatches(s, t % DAY)
  {
    hide TimeMatches, FirstSlot, LastSlot, DateOf, DayNumber, IsLeapDay, IsParsed;
    var today := FirstCandidate(now) / DAY;
    var y := DateOf(today).year;
    var z := YearToLookAt(y);
    if z >= y {
      assert !OutrunBy(s, now, z + 4);
      t := LeapSlotFrom(s, now, z);
    } else {
      AroundCentury(z + 4);
      DayAgainstLeapDay(today, z);
      DayAgainstLeapDay(today, z + 8);
      hide IsLeap;
      SlotsBound(s);
      assert !OutrunBy(s, now, z + 4);
      t := LeapMinuteMatches(s, z + 8, FirstSlot(s));
    }
  }

  /** The next leap year, or the one before a skipped century that comes first. */
  lemma YearToLookAt(y: int) returns (z: int)
    ensures IsLeap(z) && y - 4 <= z <= y + 3
    ensures z < y ==> IsSkippedCentury(z + 4)
  {
    z := y + (-y) % 4;
    if !IsLeap(z) {
      z := z - 4;
    }
  }

  lemma LeapMinuteMatches(s: Schedule, y: int, slot: int) returns (t: int)
    requires IsLeap(y) && 0 <= slot < DAY && TimeMatches(s, slot)
    ensures t == LeapMinute(y, slot) && IsLeapDay(t / DAY) && TimeMatches(s, t % DAY)
  {
    hide DateOf;
    DateOfDayNumber(Date(y, 2, 29));
    MinuteOfDay(DayNumber(Date(y, 2, 29)), slot);
    t := LeapMinute(y, slot);
  }

  /** The search finds nothing exactly when the schedule admits no ordinary day, and
      29 February only around a skipped century that outruns the horizon, or never. */
  lemma NeverFiresIff(s: Schedule, now: int, r: Option<int>)
    requires IsParsed(s) && IsNextFire(s, now, r)
    ensures r.None? <==> !AdmitsOrdinaryDay(s) && (AdmitsLeapDay(s) ==> exists c :: OutrunBy(s, now, c))
  {
    hide Matches, IsLeapDay, TimeMatches, OutrunBy;
    if AdmitsOrdinaryDay(s) {
      var fire := FiresWithinYear(s, FirstCandidate(now) - 1);
      assert r.Some?;
    } else {
      forall t
        ensures Matches(s, t) <==> AdmitsLeapDay(s) && IsLeapDay(t / DAY) && TimeMatches(s, t % DAY)
      {
        OnlyLeapDays(s, t);
      }
      if c :| OutrunBy(s, now, c) {
        if r.Some? {
          OutrunMatchesNothing(s, now, c, r.value);
        }
      } else {
        var t := LeapSlotInHorizon(s, now);
      }
    }
  }

  /** The verdict "never fires" is wrong, because the schedule does match later on,
      exactly for leap-day-only schedules whose next leap day a skipped century puts
      out of the horizon. */
  lemma NeverFiresWrongIff(s: Schedule, now: int, r: Option<int>)
    requires IsParsed(s) && IsNextFire(s, now, r)
    ensures r.None? && (exists t :: FirstCandidate(now) <= t && Matches(s, t))
            <==> !AdmitsOrdinaryDay(s) && AdmitsLeapDay(s) && exists c :: OutrunBy(s, now, c)
  {
    hide Matches, AdmitsOrdinaryDay, AdmitsLeapDay, IsParsed, IsLeapDay, TimeMatches;
    NeverFiresIff(s, now, r);
    if !AdmitsOrdinaryDay(s) {
      if t :| FirstCandidate(now) <= t && Matches(s, t) {
        OnlyLeapDays(s, t);
      }
      if c :| OutrunBy(s, now, c) && AdmitsLeapDay(s) {
        var t := FiresAfterCentury(s, now, c);
      }
    }
  }

  /** It matches on the leap day after that century. */
  lemma FiresAfterCentury(s: Schedule, now: int, c: int) returns (t: int)
    requires IsParsed(s) && !AdmitsOrdinaryDay(s) && AdmitsLeapDay(s) && IsSkippedCentury(c)
    ensures t == LeapMinute(c + 4, FirstSlot(s)) && Matches(s, t)
    ensures OutrunBy(s, now, c) ==> FirstCandidate(now) <= t
  {
    AroundCentury(c);
    SlotsBound(s);
    hide IsLeap, DayNumber, TimeMatches, DateOf, FirstSlot, LastSlot;
    t := LeapMinuteMatches(s, c + 4, FirstSlot(s));
    OnlyLeapDays(s, t);
  }
  /** There is only one century to check: the one of the next four years. */
  lemma OutrunYear(s: Schedule, now: int, c: int)
    requires IsParsed(s)
    ensures OutrunBy(s, now, c) ==> c - 4 <= DateOf(FirstCandidate(now) / DAY).year <= c
  {
    hide TimeMatches, FirstSlot, LastSlot, DateOf, DayNumber, IsParsed;
    SlotsBound(s);
    if OutrunBy(s, now, c) {
      AroundCentury(c);
      DayAgainstLeapDay(FirstCandidate(now) / DAY, c - 4);
      DayAgainstLeapDay(FirstCandidate(now) / DAY, c + 4);
    }
  }

  const LEAP_DAYS_ONLY := "0 0 29 2 *"

  /** The words of that expression. */
  lemma LeapDayWords()
    ensures SplitWhitespace(LEAP_DAYS_ONLY) == ["0", "0", "29", "2", "*"]
  {
    var words := ["0", "0", "29", "2", "*"];
    assert words[1..][1..][1..][1..] == ["*"];
    assert JoinSpaces(words) == LEAP_DAYS_ONLY;
    SplitOfJoin(words);
  }

  lemma LeapDayFields(s: Schedule, fields: seq<string>)
    requires HoldsFields(s, fields)
    ensures fields == ["0", "0", "29", "2", "*"] ==>
              && (forall v: nat :: (v in s.minutes <==> v == 0) && (v in s.hours <==> v == 0))
              && (forall v: nat :: (v in s.daysOfMonth <==> v == 29) && (v in s.months <==> v == 2))
              && s.domRestricted && !s.dowRestricted
  {
    hide FieldIs, DowFieldIs;
    if fields == ["0", "0", "29", "2", "*"] {
      Numerals();
      hide DecimalValue;
      OneNumber("0", 0, 0, 59, s.minutes);
      OneNumber("0", 0, 0, 23, s.hours);
      OneNumber("29", 29, 1, 31, s.daysOfMonth);
      OneNumber("2", 2, 1, 12, s.months);
    }
  }

  lemma Numerals()
    ensures DecimalValue("0") == 0 && DecimalValue("2") == 2 && DecimalValue("29") == 29
  {
    assert "0"[..0] == "" && "2"[..0] == "" && "29"[..1] == "2";
  }

  /** An instance: the schedule of `0 0 29 2 *`, looked at on 1 March 2096, is reported
      never to fire, although it does in 2104. */
  lemma CenturyOutrunsHorizon(s: Schedule, now: int, r: Option<int>, fields: seq<string>)
    requires HoldsFields(s, fields) && IsParsed(s) && IsNextFire(s, now, r)
    ensures fields == SplitWhitespace(LEAP_DAYS_ONLY) && now == 60 * DAY * DayNumber(Date(2096, 3, 1)) ==>
              r.None? && Matches(s, DAY * DayNumber(Date(2104, 2, 29)))
  {
    hide HoldsFields, Matches, DateOf, SplitWhitespace;
    if fields == SplitWhitespace(LEAP_DAYS_ONLY) && now == 60 * DAY * DayNumber(Date(2096, 3, 1)) {
      LeapDayWords();
      LeapDayFields(s, fields);
      SlotsBound(s);
      assert FirstSlot(s) == 0 && LastSlot(s) == 0;
      assert OutrunBy(s, now, 2100);
      NeverFiresIff(s, now, r);
      var t := FiresAfterCentury(s, now, 2100);
    }
  }
}
