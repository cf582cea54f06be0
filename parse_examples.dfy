/**
 * Worked instances of `parse_time_input` (main.py:198-265) at fixed clock readings.
 * 2024-06-10 was a Monday.
 */
module ParseExamples {
  import opened Wrappers
  import opened Text
  import opened Calendar
  import opened TimeParse

  function MondayMorning(): DateTime { DateTime(Date(2024, 6, 10), 9, 0, 0, 0) }
  function MondayEvening(): DateTime { DateTime(Date(2024, 6, 10), 20, 0, 0, 0) }

  lemma JuneTenthIsMonday()
    ensures Ordinal(Date(2024, 6, 10)) == 739047 && Weekday(Date(2024, 6, 10)) == 0
  {
    assert DaysBeforeYear(2024) == 2023 * 365 + 505 - 20 + 5;
    assert DaysBeforeMonth(2024, 6) == 152;
  }

  /** `strptime` reads an `HH:MM` text as its two two-digit fields. */
  lemma ReadsAs(c: string, h: int, m: int)
    requires |c| == 5 && IsClock(c)
    requires h == 10 * DigitValue(c[0]) + DigitValue(c[1]) && m == 10 * DigitValue(c[3]) + DigitValue(c[4])
    ensures Strptime(c) == if h <= 23 && m <= 59 then Some(Clock(h, m)) else None
  {
    StrptimeOnClock(c);
    assert c[..2] == [c[0], c[1]];
    TwoDigitsValue(c[0], c[1]);
    assert c[3..] == [c[3], c[4]];
    TwoDigitsValue(c[3], c[4]);
  }

  /** A daily time still ahead today fires today. */
  lemma DailyLaterToday()
    ensures ParseTimeInput("15:30", MondayMorning())
      == Ok(Parsed(DateTime(Date(2024, 6, 10), 15, 30, 0, 0), DailyKind, "15:30"))
  {
    var s := "15:30";
    assert Body(s) == s;
    ReadsAs(s, 15, 30);
  }

  /** A daily time already passed fires tomorrow. */
  lemma DailyTomorrow()
    ensures ParseTimeInput("08:05", MondayMorning())
      == Ok(Parsed(DateTime(Date(2024, 6, 11), 8, 5, 0, 0), DailyKind, "08:05"))
  {
    var s := "08:05";
    assert Body(s) == s;
    ReadsAs(s, 8, 5);
  }

  /** A `ДН HH:MM` text goes to the weekly branch with the lower-cased abbreviation and the time. */
  lemma WeeklyDispatch(s: string, now: DateTime)
    requires ValidDateTime(now) && |s| == 8 && s[2] == ' ' && IsClock(s[3..])
    requires WeekdayIndex(Lower(s)[..2]).Some?
    ensures ParseTimeInput(s, now) == ParseWeekly(Lower(s)[..2], s[3..], s, now)
  {
    var l := Lower(s);
    assert Body(s) == s;
    assert !IsDailyForm(s);
    assert l[3..] == s[3..];
    assert l == l[..2] + " " + l[3..];
    WeeklyShapeExact(l[..2], " ", l[3..]);
    assert Body(l) == l;
  }

  /** A weekday abbreviation, in any case, picks the next such day; the descriptor is lower-cased. */
  lemma WeeklyNextTuesday()
    ensures ParseTimeInput("ВТ 10:00", MondayMorning())
      == Ok(Parsed(DateTime(Date(2024, 6, 11), 10, 0, 0, 0), "по вт", "ВТ 10:00"))
  {
    assert Lower("ВТ 10:00")[..2] == "вт";
    WeeklyDispatch("ВТ 10:00", MondayMorning());
    WeeklyNextTuesdayAt("ВТ 10:00", MondayMorning());
  }

  lemma WeeklyNextTuesdayAt(s: string, now: DateTime)
    requires s == "ВТ 10:00" && now == MondayMorning()
    ensures ParseWeekly("вт", s[3..], s, now) == Ok(Parsed(DateTime(Date(2024, 6, 11), 10, 0, 0, 0), "по вт", s))
  {
    assert WeeklyPrefix + "вт" == "по вт";
    var clock := s[3..];
    assert clock == "10:00";
    ReadsAs(clock, 10, 0);
    assert WeekdayIndex("вт") == Some(1);
    TuesdayOccurrence(now);
  }

  lemma TuesdayOccurrence(now: DateTime)
    requires now == MondayMorning()
    ensures WeeklyOccurrence(now, 1, Clock(10, 0)) == Some(DateTime(Date(2024, 6, 11), 10, 0, 0, 0))
  {
    JuneTenthIsMonday();
    assert DaysAhead(now, 1, Clock(10, 0)) == 1;
    assert AddDays(now.date, 1) == NextDay(now.date) == Date(2024, 6, 11);
  }

  /** Today's weekday with the time passed moves a full week ahead. */
  lemma WeeklySameDayPassed()
    ensures ParseTimeInput("пн 08:00", MondayMorning())
      == Ok(Parsed(DateTime(Date(2024, 6, 17), 8, 0, 0, 0), "по пн", "пн 08:00"))
  {
    assert Lower("пн 08:00")[..2] == "пн";
    WeeklyDispatch("пн 08:00", MondayMorning());
    WeeklySameDayPassedAt("пн 08:00", MondayMorning());
  }

  lemma WeeklySameDayPassedAt(s: string, now: DateTime)
    requires s == "пн 08:00" && now == MondayMorning()
    ensures ParseWeekly("пн", s[3..], s, now) == Ok(Parsed(DateTime(Date(2024, 6, 17), 8, 0, 0, 0), "по пн", s))
  {
    assert s[3..] == "08:00";
    ReadsAs("08:00", 8, 0);
    JuneTenthIsMonday();
    assert !Before(now, AtClock(now.date, Clock(8, 0)));
    var r := ParseWeekly("пн", s[3..], s, now);
    assert r.Ok?;
    OrdinalInjective(r.value.runDate.date, Date(2024, 6, 17));
    assert WeeklyPrefix + "пн" == "по пн";
  }

  /** A `DD HH:MM` text goes to the monthly branch with its two tokens. */
  lemma MonthlyDispatch(s: string, now: DateTime)
    requires ValidDateTime(now) && |s| == 8 && IsDigit(s[0]) && IsDigit(s[1]) && s[2] == ' ' && IsClock(s[3..])
    ensures ParseTimeInput(s, now) == ParseMonthly(s[..2], s[3..], s, now)
  {
    assert Body(s) == s;
    assert s == s[..2] + " " + s[3..];
    MonthlyShapeExact(s[..2], " ", s[3..]);
    assert !IsDailyForm(s);
    DigitFirstNotWeekly(s);
  }

  /** A day of the month already passed this month fires next month. */
  lemma MonthlyNextMonth()
    ensures ParseTimeInput("10 18:00", MondayEvening())
      == Ok(Parsed(DateTime(Date(2024, 7, 10), 18, 0, 0, 0), "10 числа", "10 18:00"))
  {
    MonthlyDispatch("10 18:00", MondayEvening());
    MonthlyNextMonthAt("10 18:00", MondayEvening());
  }

  lemma MonthlyNextMonthAt(s: string, now: DateTime)
    requires s == "10 18:00" && now == MondayEvening()
    ensures ParseMonthly(s[..2], s[3..], s, now) == Ok(Parsed(DateTime(Date(2024, 7, 10), 18, 0, 0, 0), "10 числа", s))
  {
    assert s[..2] == ['1', '0'];
    assert s[3..] == "18:00";
    TwoDigitsValue('1', '0');
    ReadsAs("18:00", 18, 0);
    assert !ThisMonthAhead(now, 10, Clock(18, 0));
    MonthlyLandsNextMonth(s[..2], s[3..], s, now);
    assert ShowNat(10) + MonthlySuffix == "10 числа";
  }

  /** From December the next month is January of the next year. */
  lemma MonthlyDecemberRollover()
    ensures ParseTimeInput("10 09:00", DateTime(Date(2024, 12, 15), 20, 0, 0, 0))
      == Ok(Parsed(DateTime(Date(2025, 1, 10), 9, 0, 0, 0), "10 числа", "10 09:00"))
  {
    MonthlyDispatch("10 09:00", DateTime(Date(2024, 12, 15), 20, 0, 0, 0));
    MonthlyDecemberRolloverAt("10 09:00", DateTime(Date(2024, 12, 15), 20, 0, 0, 0));
  }

  lemma MonthlyDecemberRolloverAt(s: string, now: DateTime)
    requires s == "10 09:00" && now == DateTime(Date(2024, 12, 15), 20, 0, 0, 0)
    ensures ParseMonthly(s[..2], s[3..], s, now) == Ok(Parsed(DateTime(Date(2025, 1, 10), 9, 0, 0, 0), "10 числа", s))
  {
    assert s[..2] == ['1', '0'];
    assert s[3..] == "09:00";
    TwoDigitsValue('1', '0');
    ReadsAs("09:00", 9, 0);
    assert !ThisMonthAhead(now, 10, Clock(9, 0));
    assert NextMonth(now) == (2025, 1);
    assert FitsNextMonth(now, 10);
    MonthlyLandsNextMonth(s[..2], s[3..], s, now);
    assert ShowNat(10) + MonthlySuffix == "10 числа";
  }

  /**
   * Day 31 after it has passed in January: February has no 31st, the retry asks for
   * the same date, and no instant is produced.
   */
  lemma MonthlyMissingDay()
    ensures ParseTimeInput("31 10:00", DateTime(Date(2024, 1, 31), 20, 0, 0, 0)) == Err(InvalidDate)
  {
    var s := "31 10:00";
    var now := DateTime(Date(2024, 1, 31), 20, 0, 0, 0);
    assert s[..2] == ['3', '1'];
    assert s[3..] == "10:00";
    MonthlyDispatch(s, now);
    TwoDigitsValue('3', '1');
    ReadsAs("10:00", 10, 0);
    assert !ThisMonthAhead(now, 31, Clock(10, 0));
    assert !FitsNextMonth(now, 31);
  }

  lemma HourTooLarge()
    ensures ParseTimeInput("25:00", MondayMorning()) == Err(BadTime)
  {
    var s := "25:00";
    assert Body(s) == s;
    ReadsAs(s, 25, 0);
  }

  lemma DayTooLarge()
    ensures ParseTimeInput("32 10:00", MondayMorning()) == Err(DayOutOfRange)
  {
    var s := "32 10:00";
    assert s[..2] == ['3', '2'];
    assert s[3..] == "10:00";
    MonthlyDispatch(s, MondayMorning());
    TwoDigitsValue('3', '2');
  }

  lemma UnknownWeekday()
    ensures ParseTimeInput("xx 10:00", MondayMorning()) == Err(BadFormat)
  {
    UnknownWeekdayAt("xx 10:00", MondayMorning());
  }

  lemma UnknownWeekdayAt(s: string, now: DateTime)
    requires s == "xx 10:00" && now == MondayMorning()
    ensures ParseTimeInput(s, now) == Err(BadFormat)
  {
    assert Body(s) == s;
    assert Lower(s) == s;
    assert !IsDailyForm(s);
    assert s[..2] == "xx";
    assert !IsWeeklyForm(s);
    assert !IsDigit(s[0]);
    assert !IsMonthlyForm(s);
    BadFormatExactly(s, now);
  }

  lemma EmptyInput()
    ensures ParseTimeInput("", MondayMorning()) == Err(BadFormat)
  {
  }
}
