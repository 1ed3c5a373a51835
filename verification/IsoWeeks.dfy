/** ISO 8601 week dates (section 4.1.4 of ISO 8601:2004) and calendar dates, in both directions. */
module IsoWeeks {
  import opened Calendar
  import opened Outcome

  const MINYEAR := 1
  const MAXYEAR := 9999

  datatype IsoDate = IsoDate(year: int, week: int, day: int)

  function NewYear(year: int): int
  {
    Ymd2Ord(Ymd(year, 1, 1))
  }

  /** The ordinal of the Monday that starts week 1. */
  function IsoWeek1Monday(year: int): int
  {
    var firstday := NewYear(year);
    var firstweekday := (firstday + 6) % 7;
    var week1monday := firstday - firstweekday;
    if firstweekday > 3 then week1monday + 7 else week1monday
  }

  /** The years accepted with a week 53: those starting on a Thursday, and leap years starting on a Wednesday. */
  predicate HasWeek53(year: int)
  {
    var firstWeekday := NewYear(year) % 7;
    firstWeekday == 4 || (firstWeekday == 3 && IsLeap(year))
  }

  function IsoWeekToGregorian(year: int, week: int, day: int): Result<Ymd>
  {
    if !(MINYEAR <= year <= MAXYEAR) then Raise(ValueError)
    else if !(0 < week < 53) && !(week == 53 && HasWeek53(year)) then Raise(ValueError)
    else if !(0 < day < 8) then Raise(ValueError)
    else
      var dayOffset := (week - 1) * 7 + (day - 1);
      Ok(Ord2Ymd(IsoWeek1Monday(year) + dayOffset))
  }

  function IsoCalendar(d: Ymd): IsoDate
    requires IsYmd(d)
  {
    var today := Ymd2Ord(d);
    var week, day := (today - IsoWeek1Monday(d.year)) / 7, (today - IsoWeek1Monday(d.year)) % 7;
    if week < 0 then
      var year := d.year - 1;
      var week', day' := (today - IsoWeek1Monday(year)) / 7, (today - IsoWeek1Monday(year)) % 7;
      IsoDate(year, week' + 1, day' + 1)
    else if week >= 52 && today >= IsoWeek1Monday(d.year + 1) then
      IsoDate(d.year + 1, 1, day + 1)
    else
      IsoDate(d.year, week + 1, day + 1)
  }

  /** The standard's own definition: a week belongs to the year that holds its Thursday. */
  function ByThursday(d: Ymd): IsoDate
    requires IsYmd(d)
  {
    var weekday := (Ymd2Ord(d) + 6) % 7;
    var thursday := Ymd2Ord(d) - weekday + 3;
    var year := Ord2Ymd(thursday).year;
    IsoDate(year, (thursday - NewYear(year)) / 7 + 1, weekday + 1)
  }

  predicate IsIsoDate(w: IsoDate)
  {
    && 1 <= w.day <= 7
    && 1 <= w.week <= if HasWeek53(w.year) then 53 else 52
  }

  function IsoOrdinal(w: IsoDate): int
  {
    IsoWeek1Monday(w.year) + 7 * (w.week - 1) + w.day - 1
  }

  /** Week 1 starts on a Monday, at most three days before or after New Year. */
  lemma Week1Bounds(year: int)
    ensures NewYear(year) == DaysBeforeYear(year) + 1
    ensures (IsoWeek1Monday(year) + 6) % 7 == 0 && -3 <= IsoWeek1Monday(year) - NewYear(year) <= 3
  {
    hide DaysBeforeYear;
    assert IsYmd(Ymd(year, 1, 1));
  }

  /** A year has 53 weeks exactly when week 53 is accepted for it, and 52 weeks otherwise. */
  lemma WeeksInYear(year: int)
    ensures IsoWeek1Monday(year + 1) == IsoWeek1Monday(year) + 7 * if HasWeek53(year) then 53 else 52
  {
    hide DaysBeforeYear;
    Week1Bounds(year);
    Week1Bounds(year + 1);
    YearLength(year);
  }

  lemma YearOfOrdinal(ord: int, year: int)
    requires NewYear(year) <= ord < NewYear(year + 1)
    ensures Ord2Ymd(ord).year == year
  {
    hide DaysBeforeYear;
    OrdinalRoundTrip(ord);
    var d := Ord2Ymd(ord);
    DateWithinYear(d);
    if d.year < year {
      LaterYears(d.year + 1, year);
    } else if year < d.year {
      LaterYears(year + 1, d.year);
    }
  }

  lemma DateWithinYear(d: Ymd)
    requires IsYmd(d)
    ensures NewYear(d.year) <= Ymd2Ord(d) < NewYear(d.year + 1)
  {
    hide DaysBeforeYear;
    DayOfYear(d);
    YearLength(d.year);
  }

  /** The week date of a calendar date is a valid one and stands for the same day. */
  lemma IsoCalendarIsValid(d: Ymd)
    requires IsYmd(d)
    ensures IsIsoDate(IsoCalendar(d)) && IsoOrdinal(IsoCalendar(d)) == Ymd2Ord(d)
  {
    hide DaysBeforeYear;
    DateWithinYear(d);
    Week1Bounds(d.year);
    Week1Bounds(d.year + 1);
    Week1Bounds(d.year - 1);
    WeeksInYear(d.year - 1);
    WeeksInYear(d.year);
  }

  /** Every valid week date lies between the Mondays that start its year and the next. */
  lemma IsoDateWithinYear(w: IsoDate)
    requires IsIsoDate(w)
    ensures IsoWeek1Monday(w.year) <= IsoOrdinal(w) < IsoWeek1Monday(w.year + 1)
  {
    hide DaysBeforeYear;
    WeeksInYear(w.year);
  }

  lemma {:induction false} LaterMondays(y: int, y': int)
    requires y <= y'
    ensures IsoWeek1Monday(y) <= IsoWeek1Monday(y')
    decreases y' - y
  {
    hide DaysBeforeYear;
    if y < y' {
      LaterMondays(y, y' - 1);
      WeeksInYear(y' - 1);
    }
  }

  /** A day has only one valid week date. */
  lemma IsoDateUnique(w: IsoDate, w': IsoDate)
    requires IsIsoDate(w) && IsIsoDate(w') && IsoOrdinal(w) == IsoOrdinal(w')
    ensures w == w'
  {
    hide DaysBeforeYear;
    IsoDateWithinYear(w);
    IsoDateWithinYear(w');
    if w.year < w'.year {
      LaterMondays(w.year + 1, w'.year);
    } else if w'.year < w.year {
      LaterMondays(w'.year + 1, w.year);
    }
  }

  /** The computed week date is the one that the standard's definition gives. */
  lemma IsoCalendarIsByThursday(d: Ymd)
    requires IsYmd(d)
    ensures IsoCalendar(d) == ByThursday(d)
  {
    hide DaysBeforeYear, IsoCalendar, IsoWeek1Monday, NewYear, Ord2Ymd, Ymd2Ord, HasWeek53, DaysInMonth;
    var w := IsoCalendar(d);
    IsoCalendarIsValid(d);
    Week1Bounds(w.year);
    Week1Bounds(w.year + 1);
    WeeksInYear(w.year);
    var start := IsoWeek1Monday(w.year);
    var thursday := start + 7 * (w.week - 1) + 3;
    MondayArithmetic(Ymd2Ord(d), start, w.week - 1, w.day - 1);
    YearOfOrdinal(thursday, w.year);
  }

  lemma MondayArithmetic(ord: int, monday: int, weeks: int, days: int)
    requires (monday + 6) % 7 == 0 && 0 <= days < 7 && ord == monday + 7 * weeks + days
    ensures (ord + 6) % 7 == days
  {
  }

  /** Every supported date survives the trip through its week date. */
  lemma DateThroughIso(d: Ymd)
    requires IsYmd(d) && MINYEAR <= d.year <= MAXYEAR
    ensures var w := IsoCalendar(d); IsoWeekToGregorian(w.year, w.week, w.day) == Ok(d)
  {
    hide DaysBeforeYear, NewYear, Ymd2Ord, Ord2Ymd, IsoWeek1Monday, HasWeek53, IsoCalendar;
    var w := IsoCalendar(d);
    IsoCalendarIsValid(d);
    DateRoundTrip(d);
    SupportedIsoYears(d);
  }

  /** Year 1 starts on a Monday and 10000 on a Saturday. */
  lemma FirstAndLastYears()
    ensures NewYear(MINYEAR) == 1 && IsoWeek1Monday(MINYEAR) == 1
    ensures IsoWeek1Monday(MAXYEAR + 1) == NewYear(MAXYEAR + 1) + 2
    ensures !HasWeek53(MAXYEAR)
  {
    hide DaysBeforeYear, NewYear, IsLeap;
    Week1Bounds(1);
    Week1Bounds(9999);
    Week1Bounds(10000);
    YearOfCycles(1, 0, 0, 0, 0);
    YearOfCycles(9999, 24, 3, 24, 2);
    YearOfCycles(10000, 24, 3, 24, 3);
  }

  lemma LaterNewYears(y: int, y': int)
    requires y <= y'
    ensures NewYear(y) <= NewYear(y')
  {
    LaterYears(y, y');
  }

  lemma SupportedIsoYears(d: Ymd)
    requires IsYmd(d) && MINYEAR <= d.year <= MAXYEAR
    ensures MINYEAR <= IsoCalendar(d).year <= MAXYEAR
  {
    hide DaysBeforeYear, IsoWeek1Monday, NewYear, Ymd2Ord, HasWeek53, IsoCalendar;
    var w := IsoCalendar(d);
    IsoCalendarIsValid(d);
    IsoDateWithinYear(w);
    DateWithinYear(d);
    LaterNewYears(MINYEAR, d.year);
    LaterNewYears(d.year + 1, MAXYEAR + 1);
    FirstAndLastYears();
    if w.year < MINYEAR {
      LaterMondays(w.year + 1, MINYEAR);
    } else if MAXYEAR < w.year {
      LaterMondays(MAXYEAR + 1, w.year);
    }
  }

  /** Every accepted week date survives the trip through its calendar date. */
  lemma IsoThroughDate(year: int, week: int, day: int)
    requires IsoWeekToGregorian(year, week, day).Ok?
    ensures var d := IsoWeekToGregorian(year, week, day).value; IsYmd(d) && IsoCalendar(d) == IsoDate(year, week, day)
  {
    hide DaysBeforeYear, NewYear, Ymd2Ord, Ord2Ymd, IsoWeek1Monday, HasWeek53, IsoCalendar;
    var w := IsoDate(year, week, day);
    var d := IsoWeekToGregorian(year, week, day).value;
    OrdinalRoundTrip(IsoOrdinal(w));
    IsoCalendarIsValid(d);
    IsoDateUnique(IsoCalendar(d), w);
  }

  /** Accepted week dates are supported calendar dates, except the last two days of the last week of 9999. */
  lemma AcceptedAndSupported(year: int, week: int, day: int)
    requires IsoWeekToGregorian(year, week, day).Ok?
    ensures MINYEAR <= IsoWeekToGregorian(year, week, day).value.year <= MAXYEAR <==>
            !(year == 9999 && week == 52 && day >= 6)
  {
    hide DaysBeforeYear, NewYear, Ymd2Ord, Ord2Ymd, IsoWeek1Monday, HasWeek53;
    var w := IsoDate(year, week, day);
    var d := IsoWeekToGregorian(year, week, day).value;
    AcceptedOrdinal(w);
    OrdinalRoundTrip(IsoOrdinal(w));
    OrdinalOfSupportedYear(d);
  }

  lemma OrdinalOfSupportedYear(d: Ymd)
    requires IsYmd(d)
    ensures MINYEAR <= d.year <= MAXYEAR <==> 1 <= Ymd2Ord(d) < NewYear(MAXYEAR + 1)
  {
    hide DaysBeforeYear, NewYear, Ymd2Ord, IsoWeek1Monday, HasWeek53;
    DateWithinYear(d);
    FirstAndLastYears();
    if d.year < MINYEAR {
      LaterNewYears(d.year + 1, MINYEAR);
    } else if d.year <= MAXYEAR {
      LaterNewYears(MINYEAR, d.year);
      LaterNewYears(d.year + 1, MAXYEAR + 1);
    } else {
      LaterNewYears(MAXYEAR + 1, d.year);
    }
  }

  lemma AcceptedOrdinal(w: IsoDate)
    requires IsIsoDate(w) && MINYEAR <= w.year <= MAXYEAR
    ensures 1 <= IsoOrdinal(w)
    ensures IsoOrdinal(w) < NewYear(MAXYEAR + 1) <==> !(w.year == 9999 && w.week == 52 && w.day >= 6)
  {
    hide DaysBeforeYear, NewYear, Ymd2Ord, IsoWeek1Monday, HasWeek53;
    IsoDateWithinYear(w);
    LaterMondays(MINYEAR, w.year);
    FirstAndLastYears();
    WeeksInYear(MAXYEAR);
    if w.year < MAXYEAR {
      LaterMondays(w.year + 1, MAXYEAR);
    }
  }
}
