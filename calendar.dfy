/**
 * Naive civil date-times in the proleptic Gregorian calendar, as Python's
 * `datetime` has them. Europe/Moscow has a fixed UTC offset, so the instants the
 * bot compares and adds days to are naive civil date-times.
 */
module Calendar {

  /** `datetime.MAXYEAR`: a date after 9999-12-31 cannot be represented. */
  const MaxYear := 9999
  const MicrosPerDay := 86_400_000_000

  datatype Date = Date(year: int, month: int, day: int)
  datatype DateTime = DateTime(date: Date, hour: int, minute: int, second: int, micro: int)

  predicate IsLeap(y: int) {
    y % 4 == 0 && (y % 100 != 0 || y % 400 == 0)
  }

  function DaysInMonth(y: int, m: int): (n: int)
    requires 1 <= m <= 12
    ensures 28 <= n <= 31
  {
    if m == 2 then (if IsLeap(y) then 29 else 28)
    else if m == 4 || m == 6 || m == 9 || m == 11 then 30
    else 31
  }

  function DaysInYear(y: int): int {
    if IsLeap(y) then 366 else 365
  }

  /** A calendar date with no upper bound on the year. */
  predicate WellFormed(d: Date) {
    1 <= d.year && 1 <= d.month <= 12 && 1 <= d.day <= DaysInMonth(d.year, d.month)
  }

  /** A date Python's `date` can hold. */
  predicate ValidDate(d: Date) {
    WellFormed(d) && d.year <= MaxYear
  }

  predicate ValidClock(t: DateTime) {
    0 <= t.hour < 24 && 0 <= t.minute < 60 && 0 <= t.second < 60 && 0 <= t.micro < 1_000_000
  }

  predicate ValidDateTime(t: DateTime) {
    ValidDate(t.date) && ValidClock(t)
  }

  // ---------------------------------------------------------------- ordinals

  /** Days in the years before `y`, as Python's `_days_before_year`. */
  function DaysBeforeYear(y: int): int
    requires y >= 1
  {
    var p := y - 1;
    p * 365 + p / 4 - p / 100 + p / 400
  }

  /** Days in the months of year `y` before month `m`, as Python's `_days_before_month`. */
  function DaysBeforeMonth(y: int, m: int): int
    requires 1 <= m <= 12
  {
    (if m == 1 then 0 else if m == 2 then 31 else if m == 3 then 59 else if m == 4 then 90
     else if m == 5 then 120 else if m == 6 then 151 else if m == 7 then 181 else if m == 8 then 212
     else if m == 9 then 243 else if m == 10 then 273 else if m == 11 then 304 else 334)
    + (if m > 2 && IsLeap(y) then 1 else 0)
  }

  /** `date.toordinal()`: 0001-01-01 is day 1. */
  function Ordinal(d: Date): int
    requires WellFormed(d)
  {
    DaysBeforeYear(d.year) + DaysBeforeMonth(d.year, d.month) + d.day
  }

  /** `date.weekday()`: Monday is 0, Sunday is 6. */
  function Weekday(d: Date): (w: int)
    requires WellFormed(d)
    ensures 0 <= w < 7
  {
    (Ordinal(d) + 6) % 7
  }

  lemma DivStep(y: int, k: int)
    requires y >= 1 && (k == 4 || k == 100 || k == 400)
    ensures y / k - (y - 1) / k == if y % k == 0 then 1 else 0
  {
  }

  /** One year's worth of days separates the ordinals of consecutive New Year's days. */
  lemma DaysBeforeNextYear(y: int)
    requires y >= 1
    ensures DaysBeforeYear(y + 1) == DaysBeforeYear(y) + DaysInYear(y)
  {
    DivStep(y, 4);
    DivStep(y, 100);
    DivStep(y, 400);
    var d4, d100, d400 := y / 4 - (y - 1) / 4, y / 100 - (y - 1) / 100, y / 400 - (y - 1) / 400;
    assert DaysBeforeYear(y + 1) - DaysBeforeYear(y) == 365 + d4 - d100 + d400;
    if y % 400 == 0 {
      assert y % 100 == 0 && y % 4 == 0;
      assert d4 == 1 && d100 == 1 && d400 == 1;
    } else if y % 100 == 0 {
      assert y % 4 == 0;
      assert d4 == 1 && d100 == 1 && d400 == 0;
    }
  }

  lemma {:induction false} DaysBeforeYearMonotone(y1: int, y2: int)
    requires 1 <= y1 <= y2
    ensures DaysBeforeYear(y1) + 365 * (y2 - y1) <= DaysBeforeYear(y2)
    decreases y2 - y1
  {
    if y1 < y2 {
      DaysBeforeNextYear(y1);
      DaysBeforeYearMonotone(y1 + 1, y2);
    }
  }

  // ---------------------------------------------------------------- order

  /** Python compares dates field by field: year, then month, then day. */
  predicate DateBefore(a: Date, b: Date) {
    a.year < b.year || (a.year == b.year && (a.month < b.month || (a.month == b.month && a.day < b.day)))
  }

  /** The time-of-day part of a comparison: hour, minute, second, microsecond. */
  predicate ClockBefore(a: DateTime, b: DateTime) {
    a.hour < b.hour || (a.hour == b.hour && (a.minute < b.minute || (a.minute == b.minute &&
      (a.second < b.second || (a.second == b.second && a.micro < b.micro)))))
  }

  /** `a < b` on two naive datetimes: the date first, the time of day on equal dates. */
  predicate Before(a: DateTime, b: DateTime) {
    DateBefore(a.date, b.date) || (a.date == b.date && ClockBefore(a, b))
  }

  function TimeOfDay(t: DateTime): int {
    ((t.hour * 60 + t.minute) * 60 + t.second) * 1_000_000 + t.micro
  }

  /** Microseconds since 0001-01-01 00:00 minus one day: the time line `timedelta` arithmetic uses. */
  function Instant(t: DateTime): int
    requires WellFormed(t.date)
  {
    Ordinal(t.date) * MicrosPerDay + TimeOfDay(t)
  }

  lemma ClockBeforeIsTimeOfDayOrder(a: DateTime, b: DateTime)
    requires ValidClock(a) && ValidClock(b)
    ensures 0 <= TimeOfDay(a) < MicrosPerDay
    ensures ClockBefore(a, b) <==> TimeOfDay(a) < TimeOfDay(b)
  {
  }

  /** Days of the months before `m`, plus the days of `m` itself, fit in the year. */
  lemma MonthFitsYear(y: int, m: int, m2: int)
    requires 1 <= m < m2 <= 12
    ensures DaysBeforeMonth(y, m) + DaysInMonth(y, m) <= DaysBeforeMonth(y, m2)
  {
  }

  lemma MonthFitsYearEnd(y: int, m: int)
    requires 1 <= m <= 12
    ensures DaysBeforeMonth(y, m) + DaysInMonth(y, m) <= DaysInYear(y)
  {
  }

  /** Later dates have larger ordinals. */
  lemma OrdinalMonotone(a: Date, b: Date)
    requires WellFormed(a) && WellFormed(b) && DateBefore(a, b)
    ensures Ordinal(a) < Ordinal(b)
  {
    if a.year < b.year {
      MonthFitsYearEnd(a.year, a.month);
      DaysBeforeNextYear(a.year);
      DaysBeforeYearMonotone(a.year + 1, b.year);
    } else if a.month < b.month {
      MonthFitsYear(a.year, a.month, b.month);
    }
  }

  /** The ordinal determines the date: `date.fromordinal` is well defined. */
  lemma OrdinalInjective(a: Date, b: Date)
    requires WellFormed(a) && WellFormed(b) && Ordinal(a) == Ordinal(b)
    ensures a == b
  {
    if DateBefore(a, b) {
      OrdinalMonotone(a, b);
    } else if DateBefore(b, a) {
      OrdinalMonotone(b, a);
    }
  }

  /**
   * Python's field-by-field comparison of datetimes is the order of the time line:
   * `a < b` exactly when `a` comes first in microseconds.
   */
  lemma BeforeIsInstantOrder(a: DateTime, b: DateTime)
    requires WellFormed(a.date) && WellFormed(b.date) && ValidClock(a) && ValidClock(b)
    ensures Before(a, b) <==> Instant(a) < Instant(b)
  {
    ClockBeforeIsTimeOfDayOrder(a, b);
    ClockBeforeIsTimeOfDayOrder(b, a);
    if DateBefore(a.date, b.date) {
      OrdinalMonotone(a.date, b.date);
    } else if DateBefore(b.date, a.date) {
      OrdinalMonotone(b.date, a.date);
    }
  }

  // ---------------------------------------------------------------- day arithmetic

  /** The following calendar day: one ordinal later. */
  function NextDay(d: Date): (e: Date)
    requires WellFormed(d)
    ensures WellFormed(e) && DateBefore(d, e)
    ensures Ordinal(e) == Ordinal(d) + 1
  {
    if d.day < DaysInMonth(d.year, d.month) then d.(day := d.day + 1)
    else if d.month < 12 then Date(d.year, d.month + 1, 1)
    else
      DaysBeforeNextYear(d.year);
      Date(d.year + 1, 1, 1)
  }

  /** `d + timedelta(days=n)` before the range check: the date whose ordinal is `n` more. */
  function AddDays(d: Date, n: nat): (e: Date)
    requires WellFormed(d)
    ensures WellFormed(e)
    ensures Ordinal(e) == Ordinal(d) + n
    ensures n > 0 ==> DateBefore(d, e)
    decreases n
  {
    if n == 0 then d else AddDays(NextDay(d), n - 1)
  }

  /** Adding days moves the weekday along modulo seven. */
  lemma WeekdayAddDays(d: Date, n: nat)
    requires WellFormed(d)
    ensures Weekday(AddDays(d, n)) == (Weekday(d) + n) % 7
  {
    WeekdayShift(d, AddDays(d, n), n);
  }

  /** Two dates `n` days apart are `n` weekdays apart, modulo seven. */
  lemma WeekdayShift(d: Date, e: Date, n: int)
    requires WellFormed(d) && WellFormed(e) && Ordinal(e) == Ordinal(d) + n
    ensures Weekday(e) == (Weekday(d) + n) % 7
  {
    ModSevenShift(Ordinal(d) + 6, n);
  }

  lemma ModSevenShift(a: int, n: int)
    ensures (a + n) % 7 == (a % 7 + n) % 7
  {
    var q := a / 7;
    assert a == 7 * q + a % 7;
    assert a + n == 7 * q + (a % 7 + n);
  }

  /** Within the same year's December the year does not change. */
  lemma {:induction false} AddDaysSameYear(d: Date, n: nat)
    requires WellFormed(d) && n <= 28
    requires d.month < 12 || d.day + n <= 31
    ensures AddDays(d, n).year == d.year
    decreases n
  {
    if n > 0 {
      var e := NextDay(d);
      NextDayStaysInYear(d, n);
      AddDaysSameYear(e, n - 1);
    }
  }

  lemma NextDayStaysInYear(d: Date, n: nat)
    requires WellFormed(d) && 0 < n <= 28
    requires d.month < 12 || d.day + n <= 31
    ensures NextDay(d).year == d.year
    ensures NextDay(d).month < 12 || NextDay(d).day + n - 1 <= 31
  {
  }

  /** A few days later is at most the next year, and only from late December. */
  lemma {:induction false} AddDaysYearBound(d: Date, n: nat)
    requires WellFormed(d) && n <= 28
    ensures AddDays(d, n).year <= d.year + 1
    ensures AddDays(d, n).year != d.year ==> d.month == 12 && d.day + n > 31
    decreases n
  {
    if d.month < 12 || d.day + n <= 31 {
      AddDaysSameYear(d, n);
    }
    if n > 0 {
      var e := NextDay(d);
      assert AddDays(d, n) == AddDays(e, n - 1);
      if e.year == d.year {
        AddDaysYearBound(e, n - 1);
      } else {
        assert e == Date(d.year + 1, 1, 1);
        AddDaysSameYear(e, n - 1);
      }
    }
  }
}
