/**
 * `parse_time_input` (main.py:198-265): a compact time expression and the current
 * Moscow time give the next firing instant, a descriptor and the input verbatim.
 * Three grammars are tried in order: daily `H:MM`, a Cyrillic weekday abbreviation
 * with a time, and a day of the month with a time. The clock read is the parameter `now`.
 */
module TimeParse {
  import opened Wrappers
  import opened Text
  import opened Calendar

  /** Why no instant was produced; every case but the last is a `ValueError`. */
  datatype ParseError =
    | BadFormat      // none of the three patterns matched
    | DayOutOfRange  // day of month outside 1..31
    | BadTime        // `strptime(..., "%H:%M")` refused the time
    | InvalidDate    // `replace` was asked for a date that does not exist
    | DateOverflow   // `+ timedelta(days=...)` went past 9999-12-31 (an `OverflowError`)

  /** The triple the parser returns: `run_date`, the schedule descriptor, the input as typed. */
  datatype Parsed = Parsed(runDate: DateTime, kind: string, display: string)

  datatype Clock = Clock(hour: int, minute: int)

  const DailyKind := "ежедневно"
  const WeeklyPrefix := "по "
  const MonthlySuffix := " числа"

  /** `day_map`: the seven abbreviations, Monday first. */
  function WeekdayIndex(a: string): (r: Option<int>)
    ensures r.Some? ==> 0 <= r.value < 7 && |a| == 2
  {
    if a == "пн" then Some(0)
    else if a == "вт" then Some(1)
    else if a == "ср" then Some(2)
    else if a == "чт" then Some(3)
    else if a == "пт" then Some(4)
    else if a == "сб" then Some(5)
    else if a == "вс" then Some(6)
    else None
  }

  // ---------------------------------------------------------------- the three patterns

  /**
   * The text a pattern ending in `$` must match: `$` also matches before one final
   * newline, so exactly one trailing newline, when there is one, is left out.
   */
  function Body(s: string): (b: string)
    ensures b == s || s == b + "\n"
    ensures (|s| > 0 && s[|s| - 1] == '\n') <==> s == b + "\n"
  {
    if |s| > 0 && s[|s| - 1] == '\n' then s[..|s| - 1] else s
  }

  /** `\d{1,2}:\d{2}`, the whole string. */
  predicate IsClock(c: string) {
    || (|c| == 4 && IsDigit(c[0]) && c[1] == ':' && IsDigit(c[2]) && IsDigit(c[3]))
    || (|c| == 5 && IsDigit(c[0]) && IsDigit(c[1]) && c[2] == ':' && IsDigit(c[3]) && IsDigit(c[4]))
  }

  /** Length of the `\d{1,2}:\d{2}` that ends `b` after whitespace or at its start, or 0. */
  function ClockLen(b: string): (n: nat)
    ensures n == 0 || n == 4 || n == 5
    ensures n > 0 ==> n <= |b| && IsClock(b[|b| - n..])
  {
    if |b| >= 5 && IsClock(b[|b| - 5..]) then 5
    else if |b| >= 4 && IsClock(b[|b| - 4..]) then 4
    else 0
  }

  /** `^(пн|вт|ср|чт|пт|сб|вс)\s+\d{1,2}:\d{2}` on the lower-cased body. */
  predicate WeeklyShape(b: string) {
    var n := ClockLen(b);
    n > 0 && |b| >= n + 3 && WeekdayIndex(b[..2]).Some? && AllSpace(b[2..|b| - n])
  }

  /** `b.split()` of a weekly expression: the abbreviation and the time. */
  function WeeklyTokens(b: string): (t: (string, string))
    requires WeeklyShape(b)
    ensures WeekdayIndex(t.0).Some? && IsClock(t.1)
    ensures |b| > |t.0| + |t.1| && b == t.0 + b[|t.0|..|b| - |t.1|] + t.1
    ensures AllSpace(b[|t.0|..|b| - |t.1|])
  {
    var n := ClockLen(b);
    assert b == b[..2] + b[2..|b| - n] + b[|b| - n..];
    (b[..2], b[|b| - n..])
  }

  /** Length of the leading `\d{1,2}`. */
  function DayLen(b: string): (k: nat)
    ensures k == 1 || k == 2
  {
    if |b| >= 2 && IsDigit(b[1]) then 2 else 1
  }

  /** `^\d{1,2}\s+\d{1,2}:\d{2}` on the body. */
  predicate MonthlyShape(b: string) {
    var k := DayLen(b);
    var n := ClockLen(b);
    |b| >= 1 && IsDigit(b[0]) && n > 0 && |b| >= k + 1 + n && AllSpace(b[k..|b| - n])
  }

  /** `b.split()` of a monthly expression: the day digits and the time. */
  function MonthlyTokens(b: string): (t: (string, string))
    requires MonthlyShape(b)
    ensures 1 <= |t.0| <= 2 && AllDigits(t.0) && IsClock(t.1)
    ensures |b| > |t.0| + |t.1| && b == t.0 + b[|t.0|..|b| - |t.1|] + t.1
    ensures AllSpace(b[|t.0|..|b| - |t.1|])
  {
    var k := DayLen(b);
    var n := ClockLen(b);
    assert b == b[..k] + b[k..|b| - n] + b[|b| - n..];
    (b[..k], b[|b| - n..])
  }

  predicate IsDailyForm(s: string) {
    IsClock(Body(s))
  }

  /** The weekly pattern is matched against `time_input.lower()`. */
  predicate IsWeeklyForm(s: string) {
    WeeklyShape(Body(Lower(s)))
  }

  predicate IsMonthlyForm(s: string) {
    MonthlyShape(Body(s))
  }

  /** Every abbreviation, whitespace run and time put together is recognised as written. */
  lemma WeeklyShapeExact(a: string, w: string, c: string)
    requires WeekdayIndex(a).Some? && |w| > 0 && AllSpace(w) && IsClock(c)
    ensures WeeklyShape(a + w + c) && WeeklyTokens(a + w + c) == (a, c)
  {
    var b := a + w + c;
    assert b[|b| - |c|..] == c;
    if |c| == 4 {
      assert b[|b| - 5..][0] == w[|w| - 1];
    }
    assert ClockLen(b) == |c|;
    assert b[..2] == a;
    assert b[2..|b| - |c|] == w;
  }

  /** Every one- or two-digit day, whitespace run and time put together is recognised as written. */
  lemma MonthlyShapeExact(d: string, w: string, c: string)
    requires 1 <= |d| <= 2 && AllDigits(d) && |w| > 0 && AllSpace(w) && IsClock(c)
    ensures MonthlyShape(d + w + c) && MonthlyTokens(d + w + c) == (d, c)
  {
    var b := d + w + c;
    assert b[|b| - |c|..] == c;
    if |c| == 4 {
      assert b[|b| - 5..][0] == w[|w| - 1];
    }
    assert ClockLen(b) == |c|;
    if |d| == 1 {
      assert b[1] == w[0];
    }
    assert DayLen(b) == |d|;
    assert b[..|d|] == d;
    assert b[|d|..|b| - |c|] == w;
  }

  lemma DigitIsNoWeekday(a: string)
    requires |a| > 0 && IsDigit(a[0])
    ensures WeekdayIndex(a).None?
  {
  }

  /** A text that starts with a digit, lower-cased, is not a weekly expression. */
  lemma DigitFirstNotWeekly(s: string)
    requires |Body(s)| > 0 && IsDigit(Body(s)[0])
    ensures !IsWeeklyForm(s)
  {
    var lb := Body(Lower(s));
    assert s[0] == Body(s)[0];
    assert |lb| > 0 ==> lb[0] == Lower(s)[0] == LowerChar(s[0]) == s[0];
    if |lb| >= 2 {
      assert lb[..2][0] == s[0];
      DigitIsNoWeekday(lb[..2]);
    }
  }

  /** At most one of the three patterns matches any input. */
  lemma FormsExclusive(s: string)
    ensures !(IsDailyForm(s) && IsWeeklyForm(s))
    ensures !(IsDailyForm(s) && IsMonthlyForm(s))
    ensures !(IsWeeklyForm(s) && IsMonthlyForm(s))
  {
    var b := Body(s);
    if IsDailyForm(s) {
      assert ClockLen(b) == |b|;
      DigitFirstNotWeekly(s);
    } else if IsMonthlyForm(s) {
      DigitFirstNotWeekly(s);
    }
  }

  // ---------------------------------------------------------------- strptime

  lemma OneDigitValue(a: char)
    requires IsDigit(a)
    ensures DigitsValue([a]) == DigitValue(a)
  {
    assert [a][..0] == [];
  }

  lemma TwoDigitsValue(a: char, b: char)
    requires IsDigit(a) && IsDigit(b)
    ensures DigitsValue([a, b]) == 10 * DigitValue(a) + DigitValue(b)
  {
    assert [a, b][..1] == [a];
    OneDigitValue(a);
  }

  /**
   * `datetime.strptime(t, "%H:%M")`, reduced to the hour and minute: the hour field
   * is the regex `2[0-3]|[0-1]\d|\d`, the minute field `[0-5]\d|\d`, the match is
   * anchored at the start and nothing may remain after it.
   */
  function Strptime(t: string): (r: Option<Clock>)
    ensures r.Some? ==> 0 <= r.value.hour <= 23 && 0 <= r.value.minute <= 59
  {
    var hourLen :=
      if |t| >= 3 && t[2] == ':' && ((t[0] == '2' && '0' <= t[1] <= '3') || ((t[0] == '0' || t[0] == '1') && IsDigit(t[1]))) then 2
      else if |t| >= 2 && IsDigit(t[0]) && t[1] == ':' then 1
      else 0;
    if hourLen == 0 then None
    else
      var rest := t[hourLen + 1..];
      var minuteLen :=
        if |rest| >= 2 && '0' <= rest[0] <= '5' && IsDigit(rest[1]) then 2
        else if |rest| >= 1 && IsDigit(rest[0]) then 1
        else 0;
      if minuteLen == 0 || minuteLen != |rest| then None
      else
        StrptimeFields(t, hourLen, rest, minuteLen);
        Some(Clock(DigitsValue(t[..hourLen]), DigitsValue(rest)))
  }

  lemma StrptimeFields(t: string, hourLen: nat, rest: string, minuteLen: nat)
    requires 1 <= hourLen <= 2 && hourLen < |t|
    requires hourLen == 2 ==> (t[0] == '2' && '0' <= t[1] <= '3') || ((t[0] == '0' || t[0] == '1') && IsDigit(t[1]))
    requires hourLen == 1 ==> IsDigit(t[0])
    requires 1 <= minuteLen == |rest| <= 2
    requires minuteLen == 2 ==> '0' <= rest[0] <= '5' && IsDigit(rest[1])
    requires minuteLen == 1 ==> IsDigit(rest[0])
    ensures IsNumeral(t[..hourLen]) && IsNumeral(rest)
    ensures DigitsValue(t[..hourLen]) <= 23 && DigitsValue(rest) <= 59
  {
    if hourLen == 2 {
      assert t[..hourLen] == [t[0], t[1]];
      TwoDigitsValue(t[0], t[1]);
    } else {
      assert t[..hourLen] == [t[0]];
      OneDigitValue(t[0]);
    }
    if minuteLen == 2 {
      assert rest == [rest[0], rest[1]];
      TwoDigitsValue(rest[0], rest[1]);
    } else {
      assert rest == [rest[0]];
      OneDigitValue(rest[0]);
    }
  }

  /** The hour and minute a `\d{1,2}:\d{2}` text spells. */
  function ClockOf(c: string): Clock
    requires IsClock(c)
  {
    assert IsNumeral(c[..|c| - 3]);
    assert IsNumeral(c[|c| - 2..]);
    Clock(DigitsValue(c[..|c| - 3]), DigitsValue(c[|c| - 2..]))
  }

  /**
   * On a text the patterns let through, `strptime` succeeds exactly when the hour is
   * at most 23 and the minute at most 59, and it reads the digits as written; a
   * trailing newline (which `$` lets through) makes it fail.
   */
  lemma StrptimeOnClock(c: string)
    requires IsClock(c)
    ensures Strptime(c) == if ClockOf(c).hour <= 23 && ClockOf(c).minute <= 59 then Some(ClockOf(c)) else None
    ensures Strptime(c + "\n") == None
  {
    var h := c[..|c| - 3];
    var m := c[|c| - 2..];
    assert m == [c[|c| - 2], c[|c| - 1]];
    TwoDigitsValue(c[|c| - 2], c[|c| - 1]);
    if |c| == 5 {
      assert h == [c[0], c[1]];
      TwoDigitsValue(c[0], c[1]);
      assert c[3..] == m;
    } else {
      assert h == [c[0]];
      OneDigitValue(c[0]);
      assert c[2..] == m;
    }
    var cn := c + "\n";
    assert cn[..|c|] == c;
  }

  // ---------------------------------------------------------------- the three schedules

  /** `replace(hour=h, minute=m, second=0, microsecond=0)` on a date. */
  function AtClock(d: Date, c: Clock): DateTime {
    DateTime(d, c.hour, c.minute, 0, 0)
  }

  /**
   * Daily `H:MM` (main.py:204-209): today at that time if still ahead, otherwise
   * tomorrow. The result is strictly after `now` and at most one day after it.
   */
  function ParseDaily(s: string, now: DateTime): (r: Result<Parsed, ParseError>)
    requires ValidDateTime(now)
    ensures r.Ok? ==>
      var t := r.value.runDate;
      && ValidDateTime(t) && Before(now, t)
      && Instant(t) - Instant(now) <= MicrosPerDay
      && Strptime(s) == Some(Clock(t.hour, t.minute)) && t.second == 0 && t.micro == 0
      && r.value.kind == DailyKind && r.value.display == s
    ensures r == Err(BadTime) <==> Strptime(s).None?
    ensures r == Err(DateOverflow) ==> now.date == Date(MaxYear, 12, 31)
    ensures r.Err? ==> r.error == BadTime || r.error == DateOverflow
  {
    match Strptime(s)
    case None => Err(BadTime)
    case Some(c) =>
      var today := AtClock(now.date, c);
      ClockBeforeIsTimeOfDayOrder(now, today);
      ClockBeforeIsTimeOfDayOrder(today, now);
      if Before(now, today) then Ok(Parsed(today, DailyKind, s))
      else
        var tomorrow := NextDay(now.date);
        if tomorrow.year > MaxYear then Err(DateOverflow)
        else Ok(Parsed(AtClock(tomorrow, c), DailyKind, s))
  }

  lemma WeekdayTarget(w: int, target: int)
    requires 0 <= w < 7 && 0 <= target < 7
    ensures (w + (target - w) % 7) % 7 == target
    ensures (target - w) % 7 == 0 ==> (w + 7) % 7 == target
  {
  }

  /**
   * `days_ahead` of main.py:222-226: how far the target weekday is, a full week
   * when it is today and the time has passed.
   */
  function DaysAhead(now: DateTime, target: int, c: Clock): (days: nat)
    requires ValidDateTime(now) && 0 <= target < 7
    ensures days <= 7
    ensures (Weekday(now.date) + days) % 7 == target
    ensures days == 0 ==> Before(now, AtClock(now.date, c))
    ensures days == 7 <==> Weekday(now.date) == target && !Before(now, AtClock(now.date, c))
  {
    var w := Weekday(now.date);
    WeekdayTarget(w, target);
    var ahead := (target - w) % 7;
    if ahead == 0 && !Before(now, AtClock(now.date, c)) then 7 else ahead
  }

  /** A time `days` days ahead on the given clock, never past `now` plus seven days. */
  lemma WeeklyBound(now: DateTime, days: nat, c: Clock)
    requires ValidDateTime(now) && days <= 7 && 0 <= c.hour <= 23 && 0 <= c.minute <= 59
    requires days == 7 ==> !Before(now, AtClock(now.date, c))
    requires days == 0 ==> Before(now, AtClock(now.date, c))
    ensures var t := AtClock(AddDays(now.date, days), c);
      Before(now, t) && Instant(t) - Instant(now) <= 7 * MicrosPerDay
  {
    var today := AtClock(now.date, c);
    var t := AtClock(AddDays(now.date, days), c);
    ClockBeforeIsTimeOfDayOrder(now, today);
    ClockBeforeIsTimeOfDayOrder(today, now);
    assert TimeOfDay(t) == TimeOfDay(today);
    assert Instant(t) == (Ordinal(now.date) + days) * MicrosPerDay + TimeOfDay(today);
  }

  /**
   * A valid instant on the target weekday at the given time, strictly after `now` and
   * at most seven days after it.
   */
  predicate WeeklyFit(now: DateTime, target: int, c: Clock, t: DateTime)
    requires ValidDateTime(now)
  {
    && ValidDateTime(t) && Before(now, t)
    && Weekday(t.date) == target
    && Instant(t) - Instant(now) <= 7 * MicrosPerDay
    && t.hour == c.hour && t.minute == c.minute && t.second == 0 && t.micro == 0
  }

  /** What the weekly branch needs about the day `days_ahead` lands on. */
  lemma WeeklyTarget(now: DateTime, target: int, c: Clock, days: nat)
    requires ValidDateTime(now) && 0 <= target < 7 && 0 <= c.hour <= 23 && 0 <= c.minute <= 59
    requires days <= 7 && (Weekday(now.date) + days) % 7 == target
    requires days == 0 ==> Before(now, AtClock(now.date, c))
    requires days == 7 ==> !Before(now, AtClock(now.date, c))
    ensures var day := AddDays(now.date, days);
      && (day.year <= MaxYear ==> WeeklyFit(now, target, c, AtClock(day, c)))
      && (day.year > MaxYear ==> now.date.year == MaxYear && now.date.month == 12 && now.date.day >= 25)
      && (days == 7 ==> Ordinal(day) == Ordinal(now.date) + 7)
  {
    WeekdayAddDays(now.date, days);
    AddDaysYearBound(now.date, days);
    WeeklyBound(now, days, c);
  }

  /**
   * `now + timedelta(days=days_ahead)` at the parsed time (main.py:222-229); `None` when
   * the date passes the last representable year. The instant falls on the target
   * weekday, strictly after `now` and at most seven days after it; a same-day time
   * already passed moves exactly seven days.
   */
  function WeeklyOccurrence(now: DateTime, target: int, c: Clock): (o: Option<DateTime>)
    requires ValidDateTime(now) && 0 <= target < 7 && 0 <= c.hour <= 23 && 0 <= c.minute <= 59
    ensures o.Some? ==> WeeklyFit(now, target, c, o.value)
    ensures o.Some? && Weekday(now.date) == target && !Before(now, AtClock(now.date, c))
      ==> Ordinal(o.value.date) == Ordinal(now.date) + 7
    ensures o.None? ==> now.date.year == MaxYear && now.date.month == 12 && now.date.day >= 25
  {
    var days := DaysAhead(now, target, c);
    WeeklyTarget(now, target, c, days);
    var day := AddDays(now.date, days);
    if day.year > MaxYear then None else Some(AtClock(day, c))
  }

  /**
   * Weekday and time (main.py:212-231): the next day with that weekday, today only if
   * the time is still ahead. The result falls on the requested weekday, strictly after
   * `now` and at most seven days after it; a same-day time already passed moves exactly
   * seven days, never zero.
   */
  function ParseWeekly(abbr: string, clock: string, s: string, now: DateTime): (r: Result<Parsed, ParseError>)
    requires ValidDateTime(now) && WeekdayIndex(abbr).Some?
    ensures r.Ok? ==>
      var t := r.value.runDate;
      && ValidDateTime(t) && Before(now, t)
      && Weekday(t.date) == WeekdayIndex(abbr).value
      && Instant(t) - Instant(now) <= 7 * MicrosPerDay
      && Strptime(clock) == Some(Clock(t.hour, t.minute)) && t.second == 0 && t.micro == 0
      && r.value.kind == WeeklyPrefix + abbr && r.value.display == s
    ensures r.Ok? && Weekday(now.date) == WeekdayIndex(abbr).value
      && !Before(now, AtClock(now.date, Strptime(clock).value))
      ==> Ordinal(r.value.runDate.date) == Ordinal(now.date) + 7
    ensures r == Err(BadTime) <==> Strptime(clock).None?
    ensures r == Err(DateOverflow) ==> now.date.year == MaxYear && now.date.month == 12 && now.date.day >= 25
    ensures r.Err? ==> r.error == BadTime || r.error == DateOverflow
  {
    match Strptime(clock)
    case None => Err(BadTime)
    case Some(c) =>
      match WeeklyOccurrence(now, WeekdayIndex(abbr).value, c)
      case None => Err(DateOverflow)
      case Some(t) => Ok(Parsed(t, WeeklyPrefix + abbr, s))
  }

  /** The month after `now`'s, with December followed by January of the next year. */
  function NextMonth(now: DateTime): (int, int) {
    if now.date.month == 12 then (now.date.year + 1, 1) else (now.date.year, now.date.month + 1)
  }

  /**
   * `replace(year=y, month=m, day=d, hour=..., minute=..., second=0, microsecond=0)`:
   * it succeeds exactly when the date exists and its year is one Python's `date` can
   * hold, and then gives that date at the clock time, seconds and microseconds zeroed;
   * `None` stands for the `ValueError` it raises otherwise.
   */
  function Replace(y: int, m: int, d: int, c: Clock): (r: Option<DateTime>)
    requires 1 <= m <= 12
    ensures r.Some? <==> ValidDate(Date(y, m, d))
    ensures r.Some? ==>
      && r.value.date == Date(y, m, d)
      && r.value.hour == c.hour && r.value.minute == c.minute
      && r.value.second == 0 && r.value.micro == 0
  {
    if 1 <= y <= MaxYear && 1 <= d <= DaysInMonth(y, m) then Some(AtClock(Date(y, m, d), c)) else None
  }

  /** The `try` block of main.py:245-252; `None` when one of its `replace` calls raises. */
  function MonthlyTry(now: DateTime, day: int, c: Clock): Option<DateTime>
    requires ValidDateTime(now)
  {
    match Replace(now.date.year, now.date.month, day, c)
    case None => None
    case Some(first) =>
      if Before(now, first) then Some(first)
      else if now.date.month == 12 then Replace(now.date.year + 1, 1, day, c)
      else Replace(now.date.year, now.date.month + 1, day, c)
  }

  /** The `except ValueError` block of main.py:253-260; `None` when its `replace` raises too. */
  function MonthlyRetry(now: DateTime, day: int, c: Clock): Option<DateTime>
    requires ValidDateTime(now)
  {
    if now.date.month == 12 then Replace(now.date.year + 1, 1, day, c)
    else Replace(now.date.year, now.date.month + 1, day, c)
  }

  /** This month's occurrence exists and is still ahead of `now`. */
  predicate ThisMonthAhead(now: DateTime, day: int, c: Clock)
    requires ValidDateTime(now)
  {
    day <= DaysInMonth(now.date.year, now.date.month)
    && Before(now, AtClock(Date(now.date.year, now.date.month, day), c))
  }

  /** The month after `now`'s has that day and is representable. */
  predicate FitsNextMonth(now: DateTime, day: int) {
    var (y, m) := NextMonth(now);
    y <= MaxYear && 1 <= m <= 12 && day <= DaysInMonth(y, m)
  }

  /**
   * A valid instant on day `day` at the given time, strictly after `now`: in `now`'s
   * month when that occurrence exists and is ahead, otherwise in the month after.
   */
  predicate MonthlyFit(now: DateTime, day: int, c: Clock, t: DateTime)
    requires ValidDateTime(now)
  {
    && ValidDateTime(t) && Before(now, t)
    && t.date.day == day
    && t.hour == c.hour && t.minute == c.minute && t.second == 0 && t.micro == 0
    && (ThisMonthAhead(now, day, c) ==> t.date.year == now.date.year && t.date.month == now.date.month)
    && (!ThisMonthAhead(now, day, c) ==> (t.date.year, t.date.month) == NextMonth(now))
  }

  /** The first `replace` succeeds and is kept exactly when this month's occurrence is ahead. */
  lemma MonthlyTryCases(now: DateTime, day: int, c: Clock)
    requires ValidDateTime(now) && 1 <= day <= 31
    ensures ThisMonthAhead(now, day, c) ==> MonthlyTry(now, day, c) == Some(AtClock(Date(now.date.year, now.date.month, day), c))
    ensures !ThisMonthAhead(now, day, c) && MonthlyTry(now, day, c).Some? ==> MonthlyTry(now, day, c) == MonthlyRetry(now, day, c)
  {
  }

  /** The next month's `replace` succeeds exactly when that month has the day, and lands after `now`. */
  lemma MonthlyRetryCases(now: DateTime, day: int, c: Clock)
    requires ValidDateTime(now) && 1 <= day <= 31 && 0 <= c.hour <= 23 && 0 <= c.minute <= 59
    ensures var (y, m) := NextMonth(now);
      && (MonthlyRetry(now, day, c).Some? <==> FitsNextMonth(now, day))
      && (FitsNextMonth(now, day) ==>
            && MonthlyRetry(now, day, c) == Some(AtClock(Date(y, m, day), c))
            && ValidDateTime(AtClock(Date(y, m, day), c))
            && Before(now, AtClock(Date(y, m, day), c)))
  {
  }

  /**
   * The `try`/`except` of main.py:245-260: this month's occurrence when it exists and
   * is ahead, otherwise the next month's; `None` when the next month lacks the day.
   */
  function MonthlyOccurrence(now: DateTime, day: int, c: Clock): (o: Option<DateTime>)
    requires ValidDateTime(now) && 1 <= day <= 31 && 0 <= c.hour <= 23 && 0 <= c.minute <= 59
    ensures o.None? <==> !ThisMonthAhead(now, day, c) && !FitsNextMonth(now, day)
    ensures o.Some? ==> MonthlyFit(now, day, c, o.value)
  {
    MonthlyTryCases(now, day, c);
    MonthlyRetryCases(now, day, c);
    var attempt := MonthlyTry(now, day, c);
    if attempt.Some? then attempt else MonthlyRetry(now, day, c)
  }

  /**
   * Day of month and time (main.py:234-262). The result has the requested day and
   * time, is strictly after `now`, and lies in `now`'s month when that occurrence
   * exists and is ahead, otherwise in the next month (January of the next year after
   * December). When that next month lacks the day, the `except` branch retries the
   * same date and the parse fails: it never looks two months ahead.
   */
  function ParseMonthly(dd: string, clock: string, s: string, now: DateTime): (r: Result<Parsed, ParseError>)
    requires ValidDateTime(now) && 1 <= |dd| <= 2 && AllDigits(dd)
    ensures var day := DigitsValue(dd);
      && (r == Err(DayOutOfRange) <==> !(1 <= day <= 31))
      && (r == Err(BadTime) <==> 1 <= day <= 31 && Strptime(clock).None?)
      && (r == Err(InvalidDate) <==>
            1 <= day <= 31 && Strptime(clock).Some?
            && !ThisMonthAhead(now, day, Strptime(clock).value) && !FitsNextMonth(now, day))
      && (r.Err? ==> r.error in {DayOutOfRange, BadTime, InvalidDate})
    ensures r.Ok? ==>
      var t := r.value.runDate;
      var day := DigitsValue(dd);
      && ValidDateTime(t) && Before(now, t)
      && t.date.day == day
      && Strptime(clock) == Some(Clock(t.hour, t.minute)) && t.second == 0 && t.micro == 0
      && (ThisMonthAhead(now, day, Strptime(clock).value) ==>
            t.date.year == now.date.year && t.date.month == now.date.month)
      && (!ThisMonthAhead(now, day, Strptime(clock).value) ==>
            (t.date.year, t.date.month) == NextMonth(now))
      && r.value.kind == ShowNat(day) + MonthlySuffix && r.value.display == s
  {
    var day := DigitsValue(dd);
    if day < 1 || day > 31 then Err(DayOutOfRange)
    else
      match Strptime(clock)
      case None => Err(BadTime)
      case Some(c) =>
        match MonthlyOccurrence(now, day, c)
        case None => Err(InvalidDate)
        case Some(t) => Ok(Parsed(t, ShowNat(day) + MonthlySuffix, s))
  }

  /**
   * When this month's occurrence has passed (or does not exist) and the next month
   * has the day, the monthly branch lands exactly on that day of the next month.
   */
  lemma MonthlyLandsNextMonth(dd: string, clock: string, s: string, now: DateTime)
    requires ValidDateTime(now) && 1 <= |dd| <= 2 && AllDigits(dd)
    requires 1 <= DigitsValue(dd) <= 31 && Strptime(clock).Some?
    requires !ThisMonthAhead(now, DigitsValue(dd), Strptime(clock).value) && FitsNextMonth(now, DigitsValue(dd))
    ensures ParseMonthly(dd, clock, s, now)
      == Ok(Parsed(AtClock(Date(NextMonth(now).0, NextMonth(now).1, DigitsValue(dd)), Strptime(clock).value),
                   ShowNat(DigitsValue(dd)) + MonthlySuffix, s))
  {
    var r := ParseMonthly(dd, clock, s, now);
    assert r.Ok?;
    var t := r.value.runDate;
    assert t.date == Date(NextMonth(now).0, NextMonth(now).1, DigitsValue(dd));
  }

  /** When this month's occurrence exists and is still ahead, the monthly branch lands on it. */
  lemma MonthlyLandsThisMonth(dd: string, clock: string, s: string, now: DateTime)
    requires ValidDateTime(now) && 1 <= |dd| <= 2 && AllDigits(dd)
    requires 1 <= DigitsValue(dd) <= 31 && Strptime(clock).Some?
    requires ThisMonthAhead(now, DigitsValue(dd), Strptime(clock).value)
    ensures ParseMonthly(dd, clock, s, now)
      == Ok(Parsed(AtClock(Date(now.date.year, now.date.month, DigitsValue(dd)), Strptime(clock).value),
                   ShowNat(DigitsValue(dd)) + MonthlySuffix, s))
  {
    var r := ParseMonthly(dd, clock, s, now);
    assert r.Ok?;
    var t := r.value.runDate;
    assert t.date == Date(now.date.year, now.date.month, DigitsValue(dd));
  }

  // ---------------------------------------------------------------- the parser

  /**
   * `parse_time_input(s)` at time `now`. Whatever it returns is a valid instant
   * strictly after `now` on a whole minute, with the input kept verbatim.
   */
  function ParseTimeInput(s: string, now: DateTime): (r: Result<Parsed, ParseError>)
    requires ValidDateTime(now)
    ensures r.Ok? ==>
      && ValidDateTime(r.value.runDate) && Before(now, r.value.runDate)
      && r.value.runDate.second == 0 && r.value.runDate.micro == 0
      && r.value.display == s
  {
    if IsDailyForm(s) then ParseDaily(s, now)
    else if IsWeeklyForm(s) then
      var t := WeeklyTokens(Body(Lower(s)));
      ParseWeekly(t.0, t.1, s, now)
    else if IsMonthlyForm(s) then
      var t := MonthlyTokens(Body(s));
      ParseMonthly(t.0, t.1, s, now)
    else Err(BadFormat)
  }

  /**
   * An input of the daily shape: on success the instant carries the hour and minute
   * the input spells, on a whole minute, strictly after `now` and at most a day after
   * it. It fails as a bad time exactly when the hour is over 23, the minute over 59,
   * or a trailing newline is left for `strptime`.
   */
  lemma DailyFormResult(s: string, now: DateTime)
    requires ValidDateTime(now) && IsDailyForm(s)
    ensures var c := ClockOf(Body(s));
      var r := ParseTimeInput(s, now);
      && (r.Ok? ==>
            var t := r.value.runDate;
            && t.hour == c.hour && t.minute == c.minute && t.second == 0 && t.micro == 0
            && Before(now, t) && Instant(t) - Instant(now) <= MicrosPerDay
            && r.value.kind == DailyKind && r.value.display == s)
      && (r == Err(BadTime) <==> c.hour > 23 || c.minute > 59 || s != Body(s))
      && (r == Err(DateOverflow) ==> now.date == Date(MaxYear, 12, 31))
      && (r.Err? ==> r.error == BadTime || r.error == DateOverflow)
  {
    StrptimeOnClock(Body(s));
  }

  /**
   * An input of the weekday shape: on success the instant falls on the weekday the
   * abbreviation names, at the hour and minute the input spells, strictly after `now`
   * and at most seven days after it; today's weekday with the time passed moves
   * exactly seven days. It fails as a bad time exactly when the hour is over 23 or
   * the minute over 59.
   */
  lemma WeeklyFormResult(s: string, now: DateTime)
    requires ValidDateTime(now) && IsWeeklyForm(s)
    ensures var tokens := WeeklyTokens(Body(Lower(s)));
      var target := WeekdayIndex(tokens.0).value;
      var c := ClockOf(tokens.1);
      var r := ParseTimeInput(s, now);
      && (r.Ok? ==>
            var t := r.value.runDate;
            && Weekday(t.date) == target
            && t.hour == c.hour && t.minute == c.minute && t.second == 0 && t.micro == 0
            && Before(now, t) && Instant(t) - Instant(now) <= 7 * MicrosPerDay
            && r.value.kind == WeeklyPrefix + tokens.0 && r.value.display == s)
      && (r.Ok? && Weekday(now.date) == target && !Before(now, AtClock(now.date, c)) ==>
            Ordinal(r.value.runDate.date) == Ordinal(now.date) + 7)
      && (r == Err(BadTime) <==> c.hour > 23 || c.minute > 59)
      && (r.Err? ==> r.error == BadTime || r.error == DateOverflow)
  {
    FormsExclusive(s);
    StrptimeOnClock(WeeklyTokens(Body(Lower(s))).1);
  }

  /**
   * An input of the day-of-month shape: a day outside 1..31 is refused first, then a
   * time outside the clock; the parse fails on a valid date only when this month's
   * occurrence is gone and the next month has no such day. On success the instant
   * has the requested day, hour and minute, is strictly after `now`, and lies in
   * `now`'s month or the month after it.
   */
  lemma MonthlyFormResult(s: string, now: DateTime)
    requires ValidDateTime(now) && IsMonthlyForm(s)
    ensures var tokens := MonthlyTokens(Body(s));
      var day := DigitsValue(tokens.0);
      var c := ClockOf(tokens.1);
      var r := ParseTimeInput(s, now);
      && (r == Err(DayOutOfRange) <==> !(1 <= day <= 31))
      && (r == Err(BadTime) <==> 1 <= day <= 31 && (c.hour > 23 || c.minute > 59))
      && (r == Err(InvalidDate) <==>
            1 <= day <= 31 && c.hour <= 23 && c.minute <= 59
            && !ThisMonthAhead(now, day, c) && !FitsNextMonth(now, day))
      && (r.Err? ==> r.error == DayOutOfRange || r.error == BadTime || r.error == InvalidDate)
      && (r.Ok? ==>
            var t := r.value.runDate;
            && t.date.day == day
            && t.hour == c.hour && t.minute == c.minute && t.second == 0 && t.micro == 0
            && Before(now, t)
            && (ThisMonthAhead(now, day, c) ==> t.date.year == now.date.year && t.date.month == now.date.month)
            && (!ThisMonthAhead(now, day, c) ==> (t.date.year, t.date.month) == NextMonth(now))
            && r.value.kind == ShowNat(day) + MonthlySuffix && r.value.display == s)
  {
    FormsExclusive(s);
    StrptimeOnClock(MonthlyTokens(Body(s)).1);
  }

  /** The parser reports a format error exactly when none of the three patterns matches. */
  lemma BadFormatExactly(s: string, now: DateTime)
    requires ValidDateTime(now)
    ensures ParseTimeInput(s, now) == Err(BadFormat) <==> !IsDailyForm(s) && !IsWeeklyForm(s) && !IsMonthlyForm(s)
  {
    if IsDailyForm(s) {
      DailyNotBadFormat(s, now);
    } else if IsWeeklyForm(s) {
      WeeklyNotBadFormat(s, now);
    } else if IsMonthlyForm(s) {
      MonthlyNotBadFormat(s, now);
    }
  }

  lemma DailyNotBadFormat(s: string, now: DateTime)
    requires ValidDateTime(now) && IsDailyForm(s)
    ensures ParseTimeInput(s, now) != Err(BadFormat)
  {
    var r := ParseDaily(s, now);
    assert r.Err? ==> r.error != BadFormat;
  }

  lemma WeeklyNotBadFormat(s: string, now: DateTime)
    requires ValidDateTime(now) && !IsDailyForm(s) && IsWeeklyForm(s)
    ensures ParseTimeInput(s, now) != Err(BadFormat)
  {
    var t := WeeklyTokens(Body(Lower(s)));
    var r := ParseWeekly(t.0, t.1, s, now);
    assert r.Err? ==> r.error != BadFormat;
  }

  lemma MonthlyNotBadFormat(s: string, now: DateTime)
    requires ValidDateTime(now) && !IsDailyForm(s) && !IsWeeklyForm(s) && IsMonthlyForm(s)
    ensures ParseTimeInput(s, now) != Err(BadFormat)
  {
    var t := MonthlyTokens(Body(s));
    var r := ParseMonthly(t.0, t.1, s, now);
    assert r.Err? ==> r.error != BadFormat;
  }
}
