/** All the texts that the datetime parser takes: six forms of the date, and midnight as the end of a day. */
module IsoForms {
  import opened Arithmetic
  import opened Calendar
  import opened DateTimes
  import opened IsoFormat
  import opened IsoRoundTrip
  import opened IsoTimes
  import opened IsoWeeks
  import opened Numerals
  import opened Outcome
  import opened TimeDeltas

  /* ----- the forms of a date ----- */

  /** YYYY-MM-DD, YYYYMMDD, YYYY-Www-D, YYYYWwwD, YYYY-Www and YYYYWww. */
  datatype DateForm = Extended | Basic | ExtendedWeek | BasicWeek | ExtendedWeekOnly | BasicWeekOnly

  predicate IsSupported(d: Ymd)
  {
    IsYmd(d) && MINYEAR <= d.year <= MAXYEAR
  }

  function WeekText(w: IsoDate, basic: bool): string
    requires 0 <= w.year && 0 <= w.week && 0 <= w.day
  {
    var sep := if basic then "" else "-";
    Pad(w.year, 4) + sep + "W" + Pad(w.week, 2) + sep + Pad(w.day, 1)
  }

  function WeekOnlyText(w: IsoDate, basic: bool): string
    requires 0 <= w.year && 0 <= w.week
  {
    Pad(w.year, 4) + (if basic then "" else "-") + "W" + Pad(w.week, 2)
  }

  function BasicDateText(d: Ymd): string
    requires 0 <= d.year && 0 <= d.month && 0 <= d.day
  {
    Pad(d.year, 4) + Pad(d.month, 2) + Pad(d.day, 2)
  }

  lemma WeekFields(d: Ymd)
    requires IsSupported(d)
    ensures var w := IsoCalendar(d);
      && 0 < w.year < 10000 && 0 < w.week < 100 && 0 < w.day < 10
      && IsoWeekToGregorian(w.year, w.week, w.day) == Ok(d)
  {
    hide IsoWeekToGregorian, IsoCalendar, HasWeek53, IsoOrdinal, IsYmd;
    IsoCalendarIsValid(d);
    SupportedIsoYears(d);
    DateThroughIso(d);
  }

  /** The Monday of a date's week. */
  function MondayOf(d: Ymd): Ymd
    requires IsYmd(d)
  {
    Ord2Ymd(Ymd2Ord(d) - (Ymd2Ord(d) + 6) % 7)
  }

  lemma MondayOfWeek(d: Ymd)
    requires IsSupported(d)
    ensures IsSupported(MondayOf(d))
    ensures var w := IsoCalendar(d); IsoWeekToGregorian(w.year, w.week, 1) == Ok(MondayOf(d))
  {
    hide IsoCalendar, HasWeek53, DaysBeforeYear, NewYear, IsoWeek1Monday, Ord2Ymd, Ymd2Ord;
    var w := IsoCalendar(d);
    IsoCalendarIsValid(d);
    SupportedIsoYears(d);
    Week1Bounds(w.year);
    MondayArithmetic(Ymd2Ord(d), IsoWeek1Monday(w.year), w.week - 1, w.day - 1);
    OrdinalRange(d);
    var ord := Ymd2Ord(d) - (Ymd2Ord(d) + 6) % 7;
    OrdinalRoundTrip(ord);
    OrdinalRange(Ord2Ymd(ord));
  }

  /** The date that a form stands for: a week without a day is its Monday. */
  function FormDate(d: Ymd, form: DateForm): Ymd
    requires IsYmd(d)
  {
    if form == ExtendedWeekOnly || form == BasicWeekOnly then MondayOf(d) else d
  }

  function FormText(d: Ymd, form: DateForm): string
    requires IsSupported(d)
  {
    WeekFields(d);
    match form
    case Extended => DateText(d)
    case Basic => BasicDateText(d)
    case ExtendedWeek => WeekText(IsoCalendar(d), false)
    case BasicWeek => WeekText(IsoCalendar(d), true)
    case ExtendedWeekOnly => WeekOnlyText(IsoCalendar(d), false)
    case BasicWeekOnly => WeekOnlyText(IsoCalendar(d), true)
  }

  lemma FieldWidths(year: nat, two: nat, one: nat)
    requires year < 10000 && two < 100 && one < 10
    ensures |Pad(year, 4)| == 4 && AllDigits(Pad(year, 4)) && PyInt(Pad(year, 4)) == Ok(year)
    ensures |Pad(two, 2)| == 2 && AllDigits(Pad(two, 2)) && PyInt(Pad(two, 2)) == Ok(two)
    ensures |Pad(one, 1)| == 1 && AllDigits(Pad(one, 1)) && PyInt(Pad(one, 1)) == Ok(one)
  {
    hide PyInt, Pad;
    assert Pow(10, 4) == 10000 && Pow(10, 1) == 10;
    PadIsNumeral(year, 4);
    TwoDigits(two);
    PadIsNumeral(one, 1);
  }

  function LeadingDigits(s: string): nat
  {
    if s != "" && IsDigit(s[0]) then 1 + LeadingDigits(s[1..]) else 0
  }

  /** How a text goes on after its date: not at all, or with a separator and two, four or six digits of a clock. */
  predicate GoesOn(rest: string)
  {
    rest == "" || LeadingDigits(rest[1..]) in {2, 4, 6}
  }

  lemma {:induction false} DigitRunIs(s: string, i: nat)
    requires i <= |s|
    ensures DigitRunEnd(s, i) == i + LeadingDigits(s[i..])
    decreases |s| - i
  {
    if i < |s| && IsDigit(s[i]) {
      DigitRunIs(s, i + 1);
      assert s[i..][1..] == s[i + 1..];
    }
  }

  /** The one form that a digit as separator hides: a week date that seems to end before its day. */
  predicate Hidden(form: DateForm, rest: string)
  {
    form == ExtendedWeek && rest != "" && IsDigit(rest[0])
  }

  lemma NothingFollows()
    ensures GoesOn("")
  {
  }

  lemma ReadWeekText(w: IsoDate, basic: bool, rest: string)
    requires 0 <= w.year < 10000 && 0 <= w.week < 100 && 0 <= w.day < 10 && GoesOn(rest)
    ensures var text := WeekText(w, basic);
      && 8 <= |text| && DateOf(text) == IsoWeekToGregorian(w.year, w.week, w.day)
      && SeparatorOf(text + rest) == Ok(if !basic && rest != "" && IsDigit(rest[0]) then 8 else |text|)
  {
    hide PyInt, Pad, IsoWeekToGregorian;
    FieldWidths(w.year, w.week, w.day);
    var text := WeekText(w, basic);
    var s := text + rest;
    assert text[..4] == Pad(w.year, 4);
    if basic {
      assert text[4] == 'W' && text[5..][..2] == Pad(w.week, 2) && text[7..] == Pad(w.day, 1) == text[7..][..1];
      assert s[4] == 'W' && s[7] == text[7] == Pad(w.day, 1)[0];
      RestRun(s, 8, rest);
      assert DigitRunEnd(s, 7) == DigitRunEnd(s, 8);
    } else {
      assert text[4] == '-' && text[5] == 'W' && text[6..][..2] == Pad(w.week, 2);
      assert text[8] == '-' && text[9..] == Pad(w.day, 1) == text[9..][..1];
      assert s[4] == '-' && s[5] == 'W' && s[8] == '-' && (rest != "" ==> s[10] == rest[0]);
    }
  }

  /** A run of digits that starts after the date ends at a separator, or an odd number of digits later in the clock. */
  lemma RestRun(s: string, at: nat, rest: string)
    requires |s| == at + |rest| && s[at..] == rest && GoesOn(rest)
    ensures DigitRunEnd(s, at) in if rest != "" && IsDigit(rest[0]) then {at + 3, at + 5, at + 7} else {at}
  {
    DigitRunIs(s, at);
  }

  lemma TwoDigitsAfter(rest: string)
    requires GoesOn(rest) && rest != ""
    ensures 3 <= |rest| && IsDigit(rest[1]) && IsDigit(rest[2])
  {
    assert LeadingDigits(rest[1..][1..]) >= 1;
  }

  lemma ReadWeekOnlyText(w: IsoDate, basic: bool, rest: string)
    requires 0 <= w.year < 10000 && 0 <= w.week < 100 && GoesOn(rest)
    ensures var text := WeekOnlyText(w, basic);
      && |text| == (if basic then 7 else 8) && DateOf(text) == IsoWeekToGregorian(w.year, w.week, 1)
      && SeparatorOf(text + rest) == Ok(|text|)
  {
    hide PyInt, Pad, IsoWeekToGregorian;
    FieldWidths(w.year, w.week, 0);
    var text := WeekOnlyText(w, basic);
    var s := text + rest;
    assert text[..4] == Pad(w.year, 4);
    if basic {
      assert text[4] == 'W' && text[5..][..2] == Pad(w.week, 2);
      assert s[4] == 'W' && s[7..] == rest;
      RestRun(s, 7, rest);
    } else {
      assert text[4] == '-' && text[5] == 'W' && text[6..][..2] == Pad(w.week, 2);
      assert s[4] == '-' && s[5] == 'W' && s[8..] == rest;
      if rest != "" {
        TwoDigitsAfter(rest);
        assert s[10] == rest[2];
      }
    }
  }

  lemma ReadBasicDate(d: Ymd, rest: string)
    requires 0 <= d.year < 10000 && 0 <= d.month < 100 && 0 <= d.day < 100
    ensures var text := BasicDateText(d);
      |text| == 8 && DateOf(text) == Ok(d) && SeparatorOf(text + rest) == Ok(8)
  {
    hide PyInt, Pad;
    FieldWidths(d.year, d.month, 0);
    TwoDigits(d.day);
    var text := BasicDateText(d);
    assert text[..4] == Pad(d.year, 4) && text[4..6] == Pad(d.month, 2) && text[6..][..2] == Pad(d.day, 2);
    assert text[4] == Pad(d.month, 2)[0] && text[5] == Pad(d.month, 2)[1] && text[6] == Pad(d.day, 2)[0];
    assert text[6..][..1] == [text[6]];
    assert (text + rest)[4] == text[4];
  }

  lemma ReadExtendedDate(d: Ymd, rest: string)
    requires 0 <= d.year < 10000 && 0 <= d.month < 100 && 0 <= d.day < 100
    ensures var text := DateText(d);
      |text| == 10 && DateOf(text) == Ok(d) && SeparatorOf(text + rest) == Ok(10)
  {
    hide DateOf, DateText;
    ReadDate(d);
    assert (DateText(d) + rest)[4] == '-' && (DateText(d) + rest)[5] == DateText(d)[5];
  }

  /** In all forms the date is found and read, with or without a time, but for a digit after one kind of week date. */
  lemma FormIsFound(d: Ymd, form: DateForm, rest: string)
    requires IsSupported(d) && GoesOn(rest)
    ensures IsSupported(FormDate(d, form))
    ensures var text := FormText(d, form);
      && 7 <= |text| && DateOf(text) == Ok(FormDate(d, form))
      && SeparatorOf(text + rest) == Ok(if Hidden(form, rest) then 8 else |text|)
  {
    hide DateOf, SeparatorOf, DateText, BasicDateText, WeekText, WeekOnlyText;
    hide IsoCalendar, IsoWeekToGregorian, DaysInMonth, MondayOf, GoesOn;
    DaysFit(d);
    WeekFields(d);
    MondayOfWeek(d);
    match form
    case Extended => ReadExtendedDate(d, rest);
    case Basic => ReadBasicDate(d, rest);
    case ExtendedWeek => ReadWeekText(IsoCalendar(d), false, rest);
    case BasicWeek => ReadWeekText(IsoCalendar(d), true, rest);
    case ExtendedWeekOnly => ReadWeekOnlyText(IsoCalendar(d), false, rest);
    case BasicWeekOnly => ReadWeekOnlyText(IsoCalendar(d), true, rest);
  }

  /** A date alone, in any of the forms, is read as midnight of that date. */
  lemma DateFormIsParsed(d: Ymd, form: DateForm)
    requires IsSupported(d)
    ensures FromIsoText(FormText(d, form)) == Ok((DateTime(FormDate(d, form), 0, 0, 0, 0), None))
  {
    hide SeparatorOf, DateOf, FormText, FormDate, IsYmd;
    FormIsFound(d, form, "");
    var s := FormText(d, form);
    assert s + "" == s && s[..|s|] == s;
  }

  lemma DateOnly(s: string, d: Result<Ymd>)
    requires 7 <= |s| && SeparatorOf(s) == Ok(|s|) && DateOf(s) == d
    ensures FromIsoText(s) == if d.Ok? then Construct(d.value, [0, 0, 0, 0], None) else Raise(d.error)
  {
    hide SeparatorOf, DateOf, Construct;
    assert s[..|s|] == s;
  }

  /** Of the calendar dates exactly the supported ones are accepted. */
  lemma DateAccepted(d: Ymd, basic: bool)
    requires 0 <= d.year < 10000 && 0 <= d.month < 100 && 0 <= d.day < 100
    ensures FromIsoText(if basic then BasicDateText(d) else DateText(d)) ==
            if IsYmd(d) && 1 <= d.year <= 9999 then Ok((DateTime(d, 0, 0, 0, 0), None)) else Raise(ValueError)
  {
    hide SeparatorOf, DateOf, FromIsoText, IsYmd, BasicDateText, DateText;
    var s := if basic then BasicDateText(d) else DateText(d);
    if basic {
      ReadBasicDate(d, "");
    } else {
      ReadExtendedDate(d, "");
    }
    assert s + "" == s;
    DateOnly(s, Ok(d));
  }

  /** Of the week dates exactly those of the standard are accepted, but for the days of 9999-W52 in year 10000. */
  lemma WeekAccepted(w: IsoDate, basic: bool)
    requires 0 <= w.year < 10000 && 0 <= w.week < 100 && 0 <= w.day < 10
    ensures var r := FromIsoText(WeekText(w, basic));
      if IsIsoDate(w) && 1 <= w.year && !(w.year == 9999 && w.week == 52 && w.day >= 6) then
        && r.Ok? && IsYmd(r.value.0.date) && IsoCalendar(r.value.0.date) == w
        && r.value == (DateTime(r.value.0.date, 0, 0, 0, 0), None)
      else r == Raise(ValueError)
  {
    hide SeparatorOf, DateOf, FromIsoText, IsYmd, WeekText, IsoCalendar, HasWeek53, IsoWeek1Monday, Ord2Ymd;
    var s, r := WeekText(w, basic), IsoWeekToGregorian(w.year, w.week, w.day);
    NothingFollows();
    ReadWeekText(w, basic, "");
    assert s + "" == s;
    DateOnly(s, r);
    if r.Ok? {
      IsoThroughDate(w.year, w.week, w.day);
      AcceptedAndSupported(w.year, w.week, w.day);
    }
  }

  function FullText(t: DateTime, off: Option<TimeDelta>, form: DateForm, sep: char): string
    requires IsDateTime(t) && IsOffsetOption(off)
  {
    FormText(t.date, form) + ([sep] + TimeText(t, off))
  }

  lemma TimeTextStart(t: DateTime, off: Option<TimeDelta>, sep: char)
    requires IsDateTime(t) && IsOffsetOption(off)
    ensures GoesOn([sep] + TimeText(t, off))
  {
    hide Pad, FormatOffset, PyInt;
    TwoDigits(t.hour);
    var s := TimeText(t, off);
    assert s[0] == Pad(t.hour, 2)[0] && s[1] == Pad(t.hour, 2)[1] && s[2] == ':';
    assert ([sep] + s)[1..] == s && s[1..][1..] == s[2..];
    assert LeadingDigits(s[2..]) == 0;
    assert LeadingDigits(s[1..]) == 1;
    assert LeadingDigits(s) == 2;
  }

  lemma ColonField(c: char)
    requires IsDigit(c)
    ensures PyInt([':', c]).Raise?
  {
  }

  lemma ShiftedFields(s: string)
    requires 7 <= |s| && IsDigit(s[0]) && IsDigit(s[1]) && IsDigit(s[2]) && IsDigit(s[3])
    requires s[4] == ':' && IsDigit(s[5])
    ensures TimeFields(s).Raise?
  {
    hide PyInt, FractionField;
    PyIntOfNumeral(s[..2]);
    var s1 := s[2..];
    PyIntOfNumeral(s1[..2]);
    var s2 := s1[2..];
    assert s2[..2] == [':', s[5]];
    ColonField(s[5]);
    assert ClockFields(s2, 1, Some(false)).Raise?;
    assert ClockFields(s1, 2, Some(false)).Raise?;
    assert ClockFields(s, 3, None).Raise?;
  }

  /** A clock that starts two digits too early is refused. */
  lemma ShiftedClock(a: char, b: char, t: DateTime, off: Option<TimeDelta>)
    requires IsDigit(a) && IsDigit(b) && IsDateTime(t) && IsOffsetOption(off)
    ensures TimeOf([a, b] + TimeText(t, off)).Raise?
  {
    hide Pad, PyInt, TimeFields, FormatOffset, ParsedOffset, OffsetStart, IsYmd, IsOffset;
    var clock := ClockText(t.hour, t.minute, t.second, t.microsecond, true);
    ClockTextChars(t.hour, t.minute, t.second, t.microsecond, true);
    TwoDigits(t.hour);
    TwoDigits(t.minute);
    var shifted := [a, b] + clock;
    assert shifted[2] == Pad(t.hour, 2)[0] && shifted[3] == Pad(t.hour, 2)[1];
    assert shifted[4] == ':' && shifted[5] == Pad(t.minute, 2)[0];
    ShiftedFields(shifted);
    var s := shifted + FormatOffset(off);
    assert [a, b] + TimeText(t, off) == s;
    match off
    case None =>
      NoOffset(shifted);
      NoOffsetText();
      assert s == shifted;
    case Some(v) =>
      ReadOffset(shifted, v);
      assert s[..|shifted|] == shifted;
  }

  /**
    Every datetime and offset is recovered from its text in every form and with every separator, exactly but for a
    digit that separates an extended week date.
    */
  lemma FormsAreParsed(t: DateTime, off: Option<TimeDelta>, form: DateForm, sep: char)
    requires IsDateTime(t) && IsOffsetOption(off)
    ensures FromIsoText(FullText(t, off, form, sep)) == Ok((t.(date := FormDate(t.date, form)), off)) <==>
            !(form == ExtendedWeek && IsDigit(sep))
  {
    hide SeparatorOf, DateOf, TimeOf, FormText, TimeText, FormDate, IsYmd, FromIsoText;
    var text, time := FormText(t.date, form), TimeText(t, off);
    TimeTextStart(t, off, sep);
    FormIsFound(t.date, form, [sep] + time);
    if form == ExtendedWeek && IsDigit(sep) {
      HiddenDate(t, off, sep);
    } else {
      ReadTime(t, off);
      var fields: seq<int> := [t.hour, t.minute, t.second, t.microsecond];
      DateAndTime(text, sep, time, FormDate(t.date, form), ParsedTime(fields, off, false, false, false));
    }
  }

  lemma HiddenDate(t: DateTime, off: Option<TimeDelta>, sep: char)
    requires IsDateTime(t) && IsOffsetOption(off) && IsDigit(sep)
    requires SeparatorOf(FullText(t, off, ExtendedWeek, sep)) == Ok(8)
    ensures FromIsoText(FullText(t, off, ExtendedWeek, sep)).Raise?
  {
    hide SeparatorOf, DateOf, TimeOf, TimeText, Pad, PyInt, IsoCalendar, IsoWeekToGregorian, IsYmd;
    WeekFields(t.date);
    var w := IsoCalendar(t.date);
    FieldWidths(w.year, w.week, w.day);
    var s := FullText(t, off, ExtendedWeek, sep);
    assert s[9..] == [Pad(w.day, 1)[0], sep] + TimeText(t, off);
    ShiftedClock(Pad(w.day, 1)[0], sep, t, off);
  }

  /* ----- any form of date, separator, clock and zone ----- */

  function TextOf(d: Ymd, form: DateForm, sep: char, c: ClockForm, z: ZoneForm): string
    requires IsSupported(d) && IsDigitForm(c) && IsZoneForm(z)
  {
    FormText(d, form) + ([sep] + TimeFormText(c, z))
  }

  lemma {:induction false} DigitsThen(ds: string, rest: string)
    requires AllDigits(ds) && (rest == "" || !IsDigit(rest[0]))
    ensures LeadingDigits(ds + rest) == |ds|
  {
    if ds == "" {
      assert ds + rest == rest;
    } else {
      assert (ds + rest)[1..] == ds[1..] + rest;
      DigitsThen(ds[1..], rest);
    }
  }

  lemma ZoneStartsWithout(z: ZoneForm)
    requires IsZoneForm(z)
    ensures ZoneText(z) == "" || !IsDigit(ZoneText(z)[0])
  {
  }

  /** The digits that a clock starts with: its first field, or all of them when no colon is between. */
  function FirstDigits(c: ClockForm): string
    requires IsClockForm(c)
  {
    if |c.parts| == 1 || c.colons then c.parts[0]
    else if |c.parts| == 2 then c.parts[0] + c.parts[1]
    else c.parts[0] + c.parts[1] + c.parts[2]
  }

  function AfterDigits(c: ClockForm): string
    requires IsClockForm(c)
  {
    if |c.parts| == 1 then ""
    else if |c.parts| == 2 then if c.colons then ":" + c.parts[1] else ""
    else if c.colons then ":" + c.parts[1] + ":" + c.parts[2] + c.fraction
    else c.fraction
  }

  lemma FirstDigitsSplit(c: ClockForm)
    requires IsDigitForm(c)
    ensures ClockFormText(c) == FirstDigits(c) + AfterDigits(c)
    ensures AllDigits(FirstDigits(c)) && |FirstDigits(c)| in {2, 4, 6}
    ensures AfterDigits(c) == "" || !IsDigit(AfterDigits(c)[0])
  {
    hide PyInt;
    forall i | 0 <= i < |c.parts|
      ensures AllDigits(c.parts[i]) && |c.parts[i]| == 2
    {
      assert c.parts[i] in c.parts && IsPart(c.parts[i]);
    }
  }

  /** A clock starts with two, four or six digits before anything else. */
  lemma ClockStart(c: ClockForm, z: ZoneForm, sep: char)
    requires IsDigitForm(c) && IsZoneForm(z)
    ensures GoesOn([sep] + TimeFormText(c, z))
  {
    hide PyInt, ZoneText, ClockFormText, FirstDigits, AfterDigits, AllDigits, IsDigit, IsDigitForm, IsZoneForm;
    FormOfDigits(c);
    FirstDigitsSplit(c);
    ZoneStartsWithout(z);
    var ds, rest := FirstDigits(c), AfterDigits(c) + ZoneText(z);
    assert rest == if AfterDigits(c) == "" then ZoneText(z) else rest;
    DigitsThen(ds, rest);
    assert ([sep] + (ds + AfterDigits(c) + ZoneText(z)))[1..] == ds + rest;
  }

  /** Whether a zone is one that an offset can be: within the range of a clock. */
  predicate ZoneInRange(z: ZoneForm)
    requires IsZoneForm(z)
  {
    z.Signed? ==> var w := ClockFormFields(z.clock); w[0] < 24 && w[1] < 60 && w[2] < 60
  }

  /** The offset that a zone stands for. */
  ghost predicate IsZone(off: Option<TimeDelta>, z: ZoneForm)
    requires IsZoneForm(z)
  {
    match z
    case Naive => off == None
    case Zulu => off == Some(TimeDelta(0, 0, 0))
    case Signed(sign, c) => off.Some? && IsSignedClock(off.value, ClockFormFields(c), sign)
  }

  /** What a whole text is read as: `v` are the fields of its clock, `day` its date. */
  ghost predicate IsMeaning(r: Result<(DateTime, Option<TimeDelta>)>, day: Ymd, v: seq<int>, z: ZoneForm)
    requires |v| == 4 && IsZoneForm(z) && IsYmd(day)
  {
    if v[0] < 24 && v[1] < 60 && v[2] < 60 && ZoneInRange(z) then
      r.Ok? && r.value.0 == DateTime(day, v[0], v[1], v[2], v[3]) && IsZone(r.value.1, z)
    else if v == [24, 0, 0, 0] && ZoneInRange(z) && day != Ymd(9999, 12, 31) then
      && r.Ok? && IsYmd(r.value.0.date) && Ymd2Ord(r.value.0.date) == Ymd2Ord(day) + 1
      && r.value.0 == DateTime(r.value.0.date, 0, 0, 0, 0) && IsZone(r.value.1, z)
    else r == Raise(ValueError)
  }

  /** Every text in the forms has its meaning, whatever the separator, but for a digit after one kind of week date. */
  lemma TextIsRead(d: Ymd, form: DateForm, sep: char, c: ClockForm, z: ZoneForm)
    requires IsSupported(d) && IsDigitForm(c) && IsZoneForm(z) && !(form == ExtendedWeek && IsDigit(sep))
    ensures IsSupported(FormDate(d, form))
    ensures IsMeaning(FromIsoText(TextOf(d, form, sep, c, z)), FormDate(d, form), ClockFormFields(c), z)
  {
    hide SeparatorOf, DateOf, TimeOf, FormText, FormDate, ClockFormText, ZoneText, ClockFormFields, IsDigitForm, GoesOn;
    hide FromIsoText, IsMeaning, IsReading;
    FormOfDigits(c);
    var text, time, day := FormText(d, form), TimeFormText(c, z), FormDate(d, form);
    ClockStart(c, z, sep);
    FormIsFound(d, form, [sep] + time);
    TimeFormIsRead(c, z);
    DigitFieldsRange(c);
    DateAndParsedTime(text, sep, time, day, TimeOf(time).value);
    MeaningOfReading(day, TimeOf(time).value, ClockFormFields(c), z);
  }

  function Assembled(d: Ymd, p: ParsedTime): Result<(DateTime, Option<TimeDelta>)>
    requires |p.fields| == 4
  {
    if p.badOffset || p.badFields then Raise(ValueError)
    else Construct(if p.nextDay then NextDay(d) else d, p.fields, p.offset)
  }

  lemma DateAndParsedTime(date: string, sep: char, time: string, d: Ymd, p: ParsedTime)
    requires 7 <= |date| && SeparatorOf(date + ([sep] + time)) == Ok(|date|)
    requires DateOf(date) == Ok(d) && time != "" && TimeOf(time) == Ok(p)
    ensures |p.fields| == 4 && FromIsoText(date + ([sep] + time)) == Assembled(d, p)
  {
    hide SeparatorOf, DateOf, TimeOf, Construct, NextDay;
    var s := date + ([sep] + time);
    assert s[..|date|] == date && s[|date| + 1..] == time;
    TimeOfFields(time);
  }

  lemma MeaningOfReading(day: Ymd, p: ParsedTime, v: seq<int>, z: ZoneForm)
    requires |v| == 4 && IsZoneForm(z) && IsReading(p, v, z) && |p.fields| == 4 && IsSupported(day)
    requires 0 <= v[0] && 0 <= v[1] && 0 <= v[2] && 0 <= v[3] < 1000000
    ensures IsMeaning(Assembled(day, p), day, v, z)
  {
    hide IsZoneForm, ClockFormFields, IsSignedClock, Ymd2Ord, IsYmd, NextDay;
    NextDayIsNext(day);
    NextDaySupported(day);
  }

  lemma NextDaySupported(d: Ymd)
    requires IsSupported(d)
    ensures IsSupported(NextDay(d)) <==> d != Ymd(9999, 12, 31)
  {
    hide DaysBeforeYear;
  }

  /* ----- 24:00 ----- */

  lemma NextDayIsNext(d: Ymd)
    requires IsYmd(d)
    ensures IsYmd(NextDay(d)) && Ymd2Ord(NextDay(d)) == Ymd2Ord(d) + 1
  {
    hide DaysBeforeYear;
    YearLength(d.year);
  }

  function EndOfDayText(d: Ymd): string
    requires 0 <= d.year && 0 <= d.month && 0 <= d.day
  {
    DateText(d) + "T" + ClockText(24, 0, 0, 0, false)
  }

  lemma EndOfDayClock()
    ensures var clock := ClockText(24, 0, 0, 0, false);
      5 <= |clock| && TimeOf(clock) == Ok(ParsedTime([0, 0, 0, 0], None, true, false, false))
  {
    hide PyInt, Pad, ClockText, TimeFields;
    var clock := ClockText(24, 0, 0, 0, false);
    ClockTextChars(24, 0, 0, 0, false);
    ReadClockText(24, 0, 0, 0, false);
    NoOffset(clock);
  }

  lemma ReadEndOfDay(d: Ymd)
    requires 0 <= d.year < 10000 && 0 <= d.month < 100 && 0 <= d.day < 100
    ensures FromIsoText(EndOfDayText(d)) == Construct(NextDay(d), [0, 0, 0, 0], None)
  {
    hide PyInt, Pad, ClockText, DateOf, TimeOf, NextDay, Construct, DateText;
    ReadDate(d);
    EndOfDayClock();
    var clock := ClockText(24, 0, 0, 0, false);
    var s := EndOfDayText(d);
    assert s == DateText(d) + ("T" + clock);
    assert s[..10] == DateText(d) && s[11..] == clock && s[4] == DateText(d)[4] && s[5] == DateText(d)[5];
  }

  /** 24:00 on a supported date is midnight of the next day; on the last one it is refused. */
  lemma EndOfDayIsNextMidnight(d: Ymd)
    requires IsYmd(d) && MINYEAR <= d.year <= MAXYEAR
    ensures FromIsoText(EndOfDayText(d)) ==
            if d == Ymd(9999, 12, 31) then Raise(ValueError)
            else Ok((DateTime(Ord2Ymd(Ymd2Ord(d) + 1), 0, 0, 0, 0), None))
  {
    hide FromIsoText, EndOfDayText, Ord2Ymd, Ymd2Ord;
    DaysFit(d);
    ReadEndOfDay(d);
    NextDayIsNext(d);
    DateRoundTrip(NextDay(d));
  }

  /** 24:00 is accepted on exactly the existing dates and on two kinds that do not exist: day 0, and 0000-12-31. */
  lemma EndOfDayAccepted(d: Ymd)
    requires 0 <= d.year < 10000 && 0 <= d.month < 100 && 0 <= d.day < 100
    ensures FromIsoText(EndOfDayText(d)).Ok? <==>
            || (IsYmd(d) && MINYEAR <= d.year && d != Ymd(9999, 12, 31))
            || (d.day == 0 && 1 <= d.month <= 12 && MINYEAR <= d.year)
            || d == Ymd(0, 12, 31)
  {
    hide FromIsoText, EndOfDayText;
    ReadEndOfDay(d);
  }

  /* ----- whatever is accepted ----- */

  lemma ParsedTimeIsSupported(s: string)
    ensures TimeOf(s).Ok? ==> IsOffsetOption(TimeOf(s).value.offset)
  {
    hide TimeFields, Make, MulInt;
  }

  /** Any accepted text stands for a supported datetime and offset, which its default form stands for too. */
  lemma PrintedFormIsEquivalent(s: string, sep: char)
    ensures FromIsoText(s).Ok? ==>
      var (t, off) := FromIsoText(s).value;
      && IsDateTime(t) && IsOffsetOption(off)
      && FromIsoText(IsoText(t, off, sep)) == FromIsoText(s)
  {
    hide SeparatorOf, DateOf, TimeOf, IsDateTime, IsOffset, IsoText, NextDay;
    if FromIsoText(s).Ok? {
      var (t, off) := FromIsoText(s).value;
      var tstr := Drop(s, SeparatorOf(s).value + 1);
      ParsedTimeIsSupported(tstr);
      assert IsDateTime(t);
      ParseUndoesPrint(t, off, sep);
    }
  }

  /* ----- whatever is refused ----- */

  predicate IsRefusal<T>(r: Result<T>)
  {
    r.Raise? ==> r.error == ValueError
  }

  lemma {:induction false} ClockRefusals(s: string, left: nat, colons: Option<bool>)
    requires 0 < left
    ensures IsRefusal(ClockFields(s, left, colons))
  {
    hide StripLeft, StripRight, IsIntBody, IsFraction;
    if 2 <= |s| {
      var rest := s[2..];
      var sep := if colons.Some? then colons.value else rest != "" && rest[0] == ':';
      if rest != "" && left != 1 && (sep ==> rest[0] == ':') {
        ClockRefusals(if sep then rest[1..] else rest, left - 1, Some(sep));
      }
    }
  }

  lemma TimeRefusals(s: string)
    ensures IsRefusal(TimeOf(s))
  {
    hide ClockFields, OffsetStart, OffsetOf;
    var k := OffsetStart(s);
    ClockRefusals(if k == 0 then s else s[..k - 1], 3, None);
    ClockRefusals(s[k..], 3, None);
    TimeFieldsCount(s[k..]);
    if k != 0 && TimeFields(s[k..]).Ok? && IsClock(TimeFields(s[k..]).value) {
      OffsetOfClock(TimeFields(s[k..]).value, if s[k - 1] == '-' then '-' else '+');
    }
  }

  lemma DateRefusals(s: string)
    ensures IsRefusal(DateOf(s))
  {
    hide StripLeft, StripRight, IsIntBody, HasWeek53, IsoWeek1Monday, Ord2Ymd;
  }

  /** A text is refused only with a ValueError, and always when it has fewer than seven characters. */
  lemma RefusedTexts(s: string)
    ensures IsRefusal(FromIsoText(s))
    ensures |s| < 7 ==> FromIsoText(s).Raise?
  {
    hide DateOf, TimeOf, NextDay, IsDateTime;
    if 7 <= |s| && SeparatorOf(s).Ok? {
      var sep := SeparatorOf(s).value;
      DateRefusals(Take(s, sep));
      TimeRefusals(Drop(s, sep + 1));
    }
  }
}
