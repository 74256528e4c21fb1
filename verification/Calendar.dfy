/** The Gregorian calendar over day numbers counted from 1970-01-01, in UTC.
    It is defined twice: by stepping one day at a time, and in closed form. */
module Calendar {

  datatype Date = Date(year: int, month: int, day: int)

  const EPOCH := Date(1970, 1, 1)

  predicate IsLeap(y: int) {
    y % 4 == 0 && (y % 100 != 0 || y % 400 == 0)
  }

  function DaysInMonth(y: int, m: int): int {
    if m == 2 then (if IsLeap(y) then 29 else 28)
    else if m == 4 || m == 6 || m == 9 || m == 11 then 30
    else 31
  }

  predicate IsDate(d: Date) {
    1 <= d.month <= 12 && 1 <= d.day <= DaysInMonth(d.year, d.month)
  }

  function NextDay(d: Date): (n: Date)
    requires IsDate(d)
    ensures IsDate(n)
  {
    if d.day < DaysInMonth(d.year, d.month) then d.(day := d.day + 1)
    else if d.month < 12 then Date(d.year, d.month + 1, 1)
    else Date(d.year + 1, 1, 1)
  }

  function PreviousDay(d: Date): (n: Date)
    requires IsDate(d)
    ensures IsDate(n) && NextDay(n) == d
  {
    if d.day > 1 then d.(day := d.day - 1)
    else if d.month > 1 then Date(d.year, d.month - 1, DaysInMonth(d.year, d.month - 1))
    else Date(d.year - 1, 12, 31)
  }

  /** The date of a day number, by stepping from the epoch. */
  function DateOf(n: int): (d: Date)
    ensures IsDate(d)
    decreases if n < 0 then -n else n
  {
    if n == 0 then EPOCH
    else if n > 0 then NextDay(DateOf(n - 1))
    else PreviousDay(DateOf(n + 1))
  }

  /** Days since Sunday. */
  function Weekday(n: int): int {
    (n + 4) % 7
  }

  // ---------------------------------------------------------------------------
  // Closed form

  /** Days from 0001-01-01 to the first of January of year `y`. */
  function DaysBeforeYear(y: int): int {
    365 * (y - 1) + (y - 1) / 4 - (y - 1) / 100 + (y - 1) / 400
  }

  function DaysBeforeMonth(y: int, m: int): int {
    var leap := if IsLeap(y) then 1 else 0;
    if m <= 1 then 0
    else if m == 2 then 31
    else if m == 3 then 59 + leap
    else if m == 4 then 90 + leap
    else if m == 5 then 120 + leap
    else if m == 6 then 151 + leap
    else if m == 7 then 181 + leap
    else if m == 8 then 212 + leap
    else if m == 9 then 243 + leap
    else if m == 10 then 273 + leap
    else if m == 11 then 304 + leap
    else 334 + leap
  }

  function DayNumber(d: Date): int {
    DaysBeforeYear(d.year) + DaysBeforeMonth(d.year, d.month) + d.day - 1 - 719162
  }

  lemma YearLength(y: int)
    ensures DaysBeforeYear(y + 1) == DaysBeforeYear(y) + (if IsLeap(y) then 366 else 365)
  {
    assert y / 4 == (y - 1) / 4 + (if y % 4 == 0 then 1 else 0);
    assert y / 100 == (y - 1) / 100 + (if y % 100 == 0 then 1 else 0);
    assert y / 400 == (y - 1) / 400 + (if y % 400 == 0 then 1 else 0);
    assert y % 400 == 0 ==> y % 100 == 0;
    assert y % 100 == 0 ==> y % 4 == 0;
  }

  /** The closed form counts days: tomorrow's number is one more than today's. */
  lemma NextDayNumber(d: Date)
    requires IsDate(d)
    ensures DayNumber(NextDay(d)) == DayNumber(d) + 1
  {
    YearLength(d.year);
  }

  /** The two definitions agree. */
  lemma {:induction false} DayNumberOfDateOf(n: int)
    ensures DayNumber(DateOf(n)) == n
    decreases if n < 0 then -n else n
  {
    if n > 0 {
      DayNumberOfDateOf(n - 1);
      NextDayNumber(DateOf(n - 1));
    } else if n < 0 {
      DayNumberOfDateOf(n + 1);
      NextDayNumber(DateOf(n));
    }
  }

  /** Position of a date within its year, and the year it belongs to. */
  lemma WithinYear(d: Date)
    requires IsDate(d)
    ensures DaysBeforeYear(d.year) - 719162 <= DayNumber(d) < DaysBeforeYear(d.year + 1) - 719162
  {
    YearLength(d.year);
  }

  lemma {:induction false} YearsOrdered(y: int, z: int)
    requires y <= z
    ensures DaysBeforeYear(y) <= DaysBeforeYear(z)
    ensures y < z ==> DaysBeforeYear(y + 1) <= DaysBeforeYear(z)
    decreases z - y
  {
    if y < z {
      YearLength(y);
      YearsOrdered(y + 1, z);
    }
  }

  /** Distinct dates have distinct numbers. */
  lemma DayNumberInjective(a: Date, b: Date)
    requires IsDate(a) && IsDate(b) && DayNumber(a) == DayNumber(b)
    ensures a == b
  {
    WithinYear(a);
    WithinYear(b);
    if a.year < b.year {
      YearsOrdered(a.year, b.year);
    } else if b.year < a.year {
      YearsOrdered(b.year, a.year);
    }
  }

  /** Round trip: a date is found again from its number. */
  lemma DateOfDayNumber(d: Date)
    requires IsDate(d)
    ensures DateOf(DayNumber(d)) == d
  {
    DayNumberOfDateOf(DayNumber(d));
    DayNumberInjective(DateOf(DayNumber(d)), d);
  }

  // ---------------------------------------------------------------------------
  // Recurrence

  /** A day of the year that every year has comes round within 366 days. */
  lemma NextAnniversary(n: int, m: int, d: int) returns (k: int)
    requires IsDate(Date(2001, m, d))
    ensures n < k <= n + 366
    ensures DateOf(k).month == m && DateOf(k).day == d
  {
    hide DateOf, DayNumber, DaysBeforeYear, IsLeap;
    DayNumberOfDateOf(n);
    var y := DateOf(n).year;
    WithinYear(DateOf(n));
    YearLength(y);
    AnniversaryGap(y, m, d);
    AnniversaryGap(y + 1, m, d);
    DateOfDayNumber(Date(y, m, d));
    DateOfDayNumber(Date(y + 1, m, d));
    k := if DayNumber(Date(y, m, d)) > n then DayNumber(Date(y, m, d)) else DayNumber(Date(y + 1, m, d));
  }

  lemma AnniversaryGap(y: int, m: int, d: int)
    requires IsDate(Date(2001, m, d))
    ensures DayNumber(Date(y, m, d)) + 365 <= DayNumber(Date(y + 1, m, d)) <= DayNumber(Date(y, m, d)) + 366
    ensures IsDate(Date(y, m, d))
    ensures DayNumber(Date(y, m, d)) < DaysBeforeYear(y + 1) - 719162
    ensures DaysBeforeYear(y) - 719162 <= DayNumber(Date(y, m, d))
  {
    YearLength(y);
  }

  /** Consecutive days of one month. */
  lemma DayLaterInMonth(n: int, i: int)
    requires DateOf(n).day + i <= DaysInMonth(DateOf(n).year, DateOf(n).month) && 1 <= DateOf(n).day + i
    ensures DateOf(n + i) == DateOf(n).(day := DateOf(n).day + i)
  {
    DayNumberOfDateOf(n);
    DateOfDayNumber(DateOf(n).(day := DateOf(n).day + i));
  }

  /** Every weekday falls in a given month within 366 days. */
  lemma NextWeekdayInMonth(n: int, m: int, w: int) returns (k: int)
    requires 1 <= m <= 12 && 0 <= w < 7
    ensures n < k <= n + 366
    ensures DateOf(k).month == m && Weekday(k) == w
  {
    MonthsHave28(2001, m);
    hide DateOf, Weekday, DaysInMonth;
    var first := NextAnniversary(n, m, 1);
    MonthsHave28(DateOf(first).year, m);
    if first <= n + 360 {
      var i := DaysUntil(first, w);
      k := first + i;
      DayLaterInMonth(first, i);
    } else {
      var before := PreviousFirst(n, first, m);
      MonthsHave28(DateOf(before).year, m);
      var i := DaysUntil(n + 1, w);
      k := n + 1 + i;
      DayLaterInMonth(before, k - before);
    }
  }

  lemma MonthsHave28(y: int, m: int)
    ensures DaysInMonth(y, m) >= 28
  {
  }

  lemma DaysUntil(n: int, w: int) returns (i: int)
    requires 0 <= w < 7
    ensures 0 <= i < 7 && Weekday(n + i) == w
  {
    i := (w - Weekday(n)) % 7;
  }

  /** The first of the month a year before `first`. */
  lemma PreviousFirst(n: int, first: int, m: int) returns (before: int)
    requires DateOf(first).month == m && DateOf(first).day == 1 && n + 360 < first <= n + 366
    ensures first - 366 <= before <= first - 365
    ensures DateOf(before).month == m && DateOf(before).day == 1
  {
    hide DateOf, DayNumber, DaysBeforeYear, IsLeap;
    DayNumberOfDateOf(first);
    var y := DateOf(first).year - 1;
    assert DateOf(first) == Date(y + 1, m, 1);
    AnniversaryGap(y, m, 1);
    DateOfDayNumber(Date(y, m, 1));
    before := DayNumber(Date(y, m, 1));
  }
}
