/** Parsing the default printed form of a datetime gives the datetime and its offset back. */
module IsoRoundTrip {
  import opened Arithmetic
  import opened Calendar
  import opened DateTimes
  import opened IsoFormat
  import opened Numerals
  import opened Outcome
  import opened TimeDeltas

  /* ----- clock texts ----- */

  lemma TwoDigits(n: nat)
    requires n < 100
    ensures |Pad(n, 2)| == 2 && AllDigits(Pad(n, 2)) && PyInt(Pad(n, 2)) == Ok(n)
  {
    assert Pow(10, 2) == 100;
    PadIsNumeral(n, 2);
  }

  /** A two-digit field is read off the front of a text. */
  lemma ReadField(n: nat, rest: string, left: nat, colons: Option<bool>, sep: bool)
    requires n < 100 && 0 < left
    requires sep == if colons.Some? then colons.value else rest != "" && rest[0] == ':'
    ensures ClockFields(Pad(n, 2) + rest, left, colons) ==
            if rest == "" || left == 1 then Prepend([n] + Zeros(left - 1), FractionField(rest))
            else if sep && rest[0] != ':' then Raise(ValueError)
            else Prepend([n], ClockFields(if sep then rest[1..] else rest, left - 1, Some(sep)))
  {
    hide PyInt, Pad, Fraction;
    TwoDigits(n);
    var s := Pad(n, 2) + rest;
    assert s[..2] == Pad(n, 2) && s[2..] == rest;
  }

  lemma FractionOfSix(us: nat)
    requires us < US_PER_SECOND
    ensures FractionField(if us != 0 then "." + Pad(us, 6) else "") == Ok([us as int])
  {
    hide PyInt, Pad;
    assert Pow(10, 6) == US_PER_SECOND;
    if us != 0 {
      PadIsNumeral(us, 6);
      PyIntOfNumeral(Pad(us, 6));
      var s := "." + Pad(us, 6);
      assert s[1..] == Pad(us, 6);
    }
  }

  function SecondsText(second: nat, us: nat): string
  {
    Pad(second, 2) + if us != 0 then "." + Pad(us, 6) else ""
  }

  /** The parser reads back the fields of a clock text. */
  lemma ReadClockText(hour: nat, minute: nat, second: nat, us: nat, withSeconds: bool)
    requires hour < 100 && minute < 100 && second < 100 && us < US_PER_SECOND
    requires !withSeconds ==> second == 0 && us == 0
    ensures TimeFields(ClockText(hour, minute, second, us, withSeconds)) == Ok([hour, minute, second, us])
  {
    hide PyInt, Pad, Fraction, FractionField, ClockFields;
    var tail := if withSeconds then ":" + SecondsText(second, us) else "";
    var text := ClockText(hour, minute, second, us, withSeconds);
    FractionOfSix(us);
    assert text == Pad(hour, 2) + (":" + (Pad(minute, 2) + tail));
    ReadField(hour, ":" + (Pad(minute, 2) + tail), 3, None, true);
    assert (":" + (Pad(minute, 2) + tail))[1..] == Pad(minute, 2) + tail;
    ReadField(minute, tail, 2, Some(true), true);
    if withSeconds {
      assert tail[1..] == SecondsText(second, us);
      ReadField(second, if us != 0 then "." + Pad(us, 6) else "", 1, Some(true), true);
      assert [second as int] + Zeros(0) + [us as int] == [second, us];
      assert [minute as int] + [second, us] == [minute, second, us];
    } else {
      assert [minute as int] + Zeros(1) + [us as int] == [minute, second, us];
    }
    assert [hour as int] + [minute, second, us] == [hour, minute, second, us];
  }

  predicate ClockChars(s: string)
  {
    forall i :: 0 <= i < |s| ==> IsDigit(s[i]) || s[i] == ':' || s[i] == '.' || s[i] == ','
  }

  lemma ClockTextChars(hour: nat, minute: nat, second: nat, us: nat, withSeconds: bool)
    requires hour < 100 && minute < 100 && second < 100 && us < US_PER_SECOND
    ensures ClockChars(ClockText(hour, minute, second, us, withSeconds))
    ensures 5 <= |ClockText(hour, minute, second, us, withSeconds)|
  {
    hide PyInt, Pad;
    TwoDigits(hour);
    TwoDigits(minute);
    TwoDigits(second);
    assert Pow(10, 6) == 1000000;
    PadIsNumeral(us, 6);
  }

  /* ----- offsets ----- */

  lemma {:induction false} FindAfter(a: string, c: char, b: string)
    requires c !in a
    ensures Find(a + [c] + b, c) == |a|
  {
    var s := a + [c] + b;
    if |a| != 0 {
      assert s[1..] == a[1..] + [c] + b;
      FindAfter(a[1..], c, b);
    }
  }

  lemma {:induction false} FindNothing(s: string, c: char)
    requires c !in s
    ensures Find(s, c) == -1
  {
    if s != "" {
      FindNothing(s[1..], c);
    }
  }

  /** The offset starts at the first sign, which no clock text contains. */
  lemma OffsetStartsAtSign(clock: string, sign: char, text: string)
    requires ClockChars(clock) && ClockChars(text) && (sign == '-' || sign == '+')
    ensures OffsetStart(clock + [sign] + text) == |clock| + 1
  {
    var s := clock + [sign] + text;
    FindAfter(clock, sign, text);
    if sign == '+' {
      FindNothing(s, '-');
    }
  }

  lemma NoOffset(clock: string)
    requires ClockChars(clock)
    ensures OffsetStart(clock) == 0
  {
    FindNothing(clock, '-');
    FindNothing(clock, '+');
    FindNothing(clock, 'Z');
  }

  /** The fields that an offset is printed as. */
  function OffsetFields(off: TimeDelta): seq<int>
    requires IsOffset(off)
  {
    var (hh, mm, ss) := SplitOffset(off);
    [hh, mm, ss.seconds, ss.microseconds]
  }

  lemma OffsetFieldsRange(off: TimeDelta)
    requires IsOffset(off)
    ensures IsClock(OffsetFields(off))
    ensures var (hh, mm, ss) := SplitOffset(off); ss.days == 0
  {
    hide SplitOffset;
    var (hh, mm, ss) := SplitOffset(off);
    MicrosBound(ss);
  }

  /** Rebuilding the offset from its fields and sign gives it back. */
  lemma OffsetRebuilt(off: TimeDelta)
    requires IsOffset(off)
    ensures OffsetOf(OffsetFields(off), if off.days < 0 then -1 else 1) == Ok(off)
    ensures OffsetFields(off) == [0, 0, 0, 0] ==> off == UTC
  {
    hide Make, SplitOffset;
    OffsetFieldsRange(off);
    MicrosBound(off);
    var (hh, mm, ss) := SplitOffset(off);
    MakeRepresents(0, ss.seconds, ss.microseconds, 0, mm, hh, 0);
    var size := Make(0, ss.seconds, ss.microseconds, 0, mm, hh, 0);
    var total := if off.days < 0 then -Micros(off) else Micros(off);
    assert total == Micros(TimeDelta(0, hh * 3600 + mm * 60 + ss.seconds, ss.microseconds));
    assert IsNormal(TimeDelta(0, hh * 3600 + mm * 60 + ss.seconds, ss.microseconds));
    assert size.Ok?;
    var sign := if off.days < 0 then -1 else 1;
    ArithmeticIsExact(size.value, size.value, sign);
    RepresentsUnique(MulInt(size.value, sign), Ok(off), Micros(off));
    if OffsetFields(off) == [0, 0, 0, 0] {
      RepresentsUnique(Ok(off), Ok(UTC), 0);
    }
  }

  /** An offset is printed as a sign and a clock text that is read back as its fields. */
  lemma OffsetText(off: TimeDelta) returns (sign: char, text: string)
    requires IsOffset(off)
    ensures sign == (if off.days < 0 then '-' else '+') && FormatOffset(Some(off)) == [sign] + text
    ensures ClockChars(text) && 5 <= |text| && TimeFields(text) == Ok(OffsetFields(off))
  {
    hide SplitOffset, ClockText, TimeFields, IsOffset;
    var (hh, mm, ss) := SplitOffset(off);
    OffsetFieldsRange(off);
    var withSeconds := ss.seconds != 0 || ss.microseconds != 0;
    sign, text := if off.days < 0 then '-' else '+', ClockText(hh, mm, ss.seconds, ss.microseconds, withSeconds);
    ClockTextChars(hh, mm, ss.seconds, ss.microseconds, withSeconds);
    ReadClockText(hh, mm, ss.seconds, ss.microseconds, withSeconds);
  }

  /** The offset at the end of a printed time is parsed back. */
  lemma ReadOffset(clock: string, off: TimeDelta)
    requires ClockChars(clock) && IsOffset(off)
    ensures OffsetStart(clock + FormatOffset(Some(off))) == |clock| + 1
    ensures ParsedOffset(clock + FormatOffset(Some(off))) == Ok((Some(off), false))
  {
    hide FormatOffset, OffsetFields, OffsetStart, TimeFields, OffsetOf, IsOffset;
    var sign, text := OffsetText(off);
    var s := clock + FormatOffset(Some(off));
    assert s == clock + [sign] + text;
    OffsetStartsAtSign(clock, sign, text);
    assert s[|clock|] == sign && s[|clock| + 1..] == text;
    OffsetFieldsRange(off);
    OffsetRebuilt(off);
  }

  /* ----- the whole text ----- */

  lemma ReadTime(t: DateTime, off: Option<TimeDelta>)
    requires IsDateTime(t) && IsOffsetOption(off)
    ensures 5 <= |TimeText(t, off)|
    ensures TimeOf(TimeText(t, off)) ==
            Ok(ParsedTime([t.hour, t.minute, t.second, t.microsecond], off, false, false, false))
  {
    hide SplitOffset, ClockText, TimeFields, FormatOffset, OffsetOf, IsYmd;
    var clock := ClockText(t.hour, t.minute, t.second, t.microsecond, true);
    ClockTextChars(t.hour, t.minute, t.second, t.microsecond, true);
    ReadClockText(t.hour, t.minute, t.second, t.microsecond, true);
    var s := clock + FormatOffset(off);
    match off
    case None =>
      NoOffset(clock);
      assert FormatOffset(None) == "" by { NoOffsetText(); }
      assert s == clock;
    case Some(v) =>
      ReadOffset(clock, v);
      assert s[..|clock|] == clock;
  }

  lemma NoOffsetText()
    ensures FormatOffset(None) == ""
  {
  }

  lemma ReadDate(d: Ymd)
    requires 0 <= d.year < 10000 && 0 <= d.month < 100 && 0 <= d.day < 100
    ensures DateOf(DateText(d)) == Ok(d)
    ensures |DateText(d)| == 10 && DateText(d)[4] == '-' && IsDigit(DateText(d)[5])
  {
    hide PyInt, Pad;
    assert Pow(10, 4) == 10000;
    PadIsNumeral(d.year, 4);
    TwoDigits(d.month);
    TwoDigits(d.day);
    var s := DateText(d);
    assert s[..4] == Pad(d.year, 4) && s[5..7] == Pad(d.month, 2);
    assert s[4] == '-' && s[5] == Pad(d.month, 2)[0] && s[7..][..1] == "-" && s[8..][..2] == Pad(d.day, 2);
  }

  /** A text whose date part ends at the separator, and whose two parts are read as these, is the two together. */
  lemma DateAndTime(date: string, sep: char, time: string, d: Ymd, p: ParsedTime)
    requires 7 <= |date| && SeparatorOf(date + ([sep] + time)) == Ok(|date|)
    requires DateOf(date) == Ok(d) && time != "" && TimeOf(time) == Ok(p) && |p.fields| == 4
    requires !p.badFields && !p.badOffset && !p.nextDay
    ensures FromIsoText(date + ([sep] + time)) == Construct(d, p.fields, p.offset)
  {
    hide SeparatorOf, DateOf, TimeOf, Construct;
    var s := date + ([sep] + time);
    assert s[..|date|] == date && s[|date| + 1..] == time;
  }

  /**
    For every supported datetime, naive or with any fixed offset within 24 hours, and every separator, parsing undoes
    printing.
    */
  lemma ParseUndoesPrint(t: DateTime, off: Option<TimeDelta>, sep: char)
    requires IsDateTime(t) && IsOffsetOption(off)
    ensures FromIsoText(IsoText(t, off, sep)) == Ok((t, off))
  {
    hide PyInt, Pad, TimeOf, TimeText, DateOf, DateText, DaysInMonth, FromIsoText;
    DaysFit(t.date);
    ReadDate(t.date);
    ReadTime(t, off);
    var date, s := DateText(t.date), IsoText(t, off, sep);
    assert s[4] == date[4] && s[5] == date[5];
    var fields: seq<int> := [t.hour, t.minute, t.second, t.microsecond];
    DateAndTime(date, sep, TimeText(t, off), t.date, ParsedTime(fields, off, false, false, false));
  }

  lemma DaysFit(d: Ymd)
    requires IsYmd(d)
    ensures d.day <= 31
  {
  }
}
