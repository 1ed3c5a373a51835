/** ISO 8601 text of datetimes: the default printed form, and what each accepted text means. */
module IsoFormat {
  import opened Arithmetic
  import opened Calendar
  import opened DateTimes
  import opened IsoWeeks
  import opened Numerals
  import opened Outcome
  import opened TimeDeltas

  /* ----- printing ----- */

  /** `%0<width>d` of a non-negative number. */
  function Pad(n: nat, width: nat): string
  {
    ZFill(Str(n), width)
  }

  /** HH:MM, then :SS if asked for, then .ffffff if there are microseconds. */
  function ClockText(hour: nat, minute: nat, second: nat, us: nat, withSeconds: bool): string
  {
    Pad(hour, 2) + ":" + Pad(minute, 2)
    + (if withSeconds then ":" + Pad(second, 2) + (if us != 0 then "." + Pad(us, 6) else "") else "")
  }

  /** No offset, or one that is possible. */
  predicate IsOffsetOption(off: Option<TimeDelta>)
  {
    off.Some? ==> IsOffset(off.value)
  }

  const ONE_HOUR := TimeDelta(0, 3600, 0)
  const ONE_MINUTE := TimeDelta(0, 60, 0)

  /** The size of an offset as whole hours, whole minutes and what remains. */
  function SplitOffset(off: TimeDelta): (parts: (nat, nat, TimeDelta))
    requires IsOffset(off)
    ensures parts.0 < 24 && parts.1 < 60 && IsNormal(parts.2) && 0 <= Micros(parts.2) < 60 * US_PER_SECOND
    ensures (if off.days < 0 then -Micros(off) else Micros(off)) ==
            (parts.0 * 3600 + parts.1 * 60) * US_PER_SECOND + Micros(parts.2)
  {
    hide Make, Represents, DivMod, FloorDivDelta, ModDelta, Neg, Micros;
    OneHourAndMinute();
    OffsetSize(off);
    var size := if off.days < 0 then Neg(off).value else off;
    DivModIsFloor(size, ONE_HOUR);
    var (hours, rest) := DivMod(size, ONE_HOUR).value;
    DivModIsFloor(rest, ONE_MINUTE);
    var (minutes, rest') := DivMod(rest, ONE_MINUTE).value;
    (hours, minutes, rest')
  }

  lemma OneHourAndMinute()
    ensures IsNormal(ONE_HOUR) && Micros(ONE_HOUR) == 3600 * US_PER_SECOND
    ensures IsNormal(ONE_MINUTE) && Micros(ONE_MINUTE) == 60 * US_PER_SECOND
  {
  }

  lemma OffsetSize(off: TimeDelta)
    requires IsOffset(off)
    ensures off.days < 0 ==> Neg(off).Ok? && IsNormal(Neg(off).value) && 0 < Micros(Neg(off).value) == -Micros(off)
    ensures 0 <= off.days ==> 0 <= Micros(off)
  {
    hide Make;
    ArithmeticIsExact(off, off, 0);
    MicrosBound(off);
    if off.days < 0 {
      assert IsNormal(TimeDelta(0, -Micros(off) / US_PER_SECOND, -Micros(off) % US_PER_SECOND));
    }
  }

  function FormatOffset(off: Option<TimeDelta>): string
    requires IsOffsetOption(off)
  {
    match off
    case None => ""
    case Some(t) =>
      var (hh, mm, ss) := SplitOffset(t);
      (if t.days < 0 then "-" else "+")
      + ClockText(hh, mm, ss.seconds, ss.microseconds, ss.seconds != 0 || ss.microseconds != 0)
  }

  function DateText(d: Ymd): string
    requires 0 <= d.year && 0 <= d.month && 0 <= d.day
  {
    Pad(d.year, 4) + "-" + Pad(d.month, 2) + "-" + Pad(d.day, 2)
  }

  function TimeText(t: DateTime, off: Option<TimeDelta>): string
    requires IsDateTime(t) && IsOffsetOption(off)
  {
    ClockText(t.hour, t.minute, t.second, t.microsecond, true) + FormatOffset(off)
  }

  /** The default form, with any character between date and time. */
  function IsoText(t: DateTime, off: Option<TimeDelta>, sep: char): string
    requires IsDateTime(t) && IsOffsetOption(off)
  {
    DateText(t.date) + ([sep] + TimeText(t, off))
  }

  /* ----- Python's int() on ASCII text ----- */

  predicate IsSpace(c: char)
  {
    9 <= c as int <= 13 || 28 <= c as int <= 32
  }

  function StripLeft(s: string): string
  {
    if |s| != 0 && IsSpace(s[0]) then StripLeft(s[1..]) else s
  }

  function StripRight(s: string): string
  {
    if |s| != 0 && IsSpace(s[|s| - 1]) then StripRight(s[..|s| - 1]) else s
  }

  /** Digits, with single underscores allowed between them. */
  predicate IsIntBody(s: string)
  {
    && |s| != 0 && s[0] != '_' && s[|s| - 1] != '_'
    && (forall i :: 0 <= i < |s| ==> IsDigit(s[i]) || s[i] == '_')
    && (forall i :: 0 < i < |s| ==> s[i - 1] != '_' || s[i] != '_')
  }

  function OnlyDigits(s: string): (r: string)
    ensures forall i :: 0 <= i < |r| ==> IsDigit(r[i])
  {
    if |s| == 0 then "" else (if IsDigit(s[0]) then [s[0]] else "") + OnlyDigits(s[1..])
  }

  function PyInt(s: string): Result<int>
  {
    var t := StripRight(StripLeft(s));
    var signed := |t| != 0 && (t[0] == '+' || t[0] == '-');
    var body := if signed then t[1..] else t;
    if !IsIntBody(body) then Raise(ValueError)
    else
      var value: int := DecimalValue(OnlyDigits(body));
      Ok(if signed && t[0] == '-' then -value else value)
  }

  lemma {:induction false} OnlyDigitsOfNumeral(s: string)
    requires forall i :: 0 <= i < |s| ==> IsDigit(s[i])
    ensures OnlyDigits(s) == s
  {
    if |s| != 0 {
      OnlyDigitsOfNumeral(s[1..]);
    }
  }

  lemma PyIntOfNumeral(s: string)
    requires IsNumeral(s)
    ensures PyInt(s) == Ok(DecimalValue(s))
  {
    OnlyDigitsOfNumeral(s);
    assert IsDigit(s[0]) && IsDigit(s[|s| - 1]);
    assert StripLeft(s) == s && StripRight(s) == s;
  }

  lemma PadIsNumeral(n: nat, width: nat)
    requires 0 < width && n < Pow(10, width)
    ensures IsNumeral(Pad(n, width)) && |Pad(n, width)| == width && PyInt(Pad(n, width)) == Ok(n)
  {
    StrLength(n, width);
    ZFillValue(Str(n), width);
    PyIntOfNumeral(Pad(n, width));
  }

  /* ----- parsing a time ----- */

  function Drop(s: string, k: nat): string
  {
    if k <= |s| then s[k..] else ""
  }

  function Take(s: string, k: nat): string
  {
    if k <= |s| then s[..k] else s
  }

  predicate AllDigits(s: string)
  {
    forall i :: 0 <= i < |s| ==> IsDigit(s[i])
  }

  /** What follows the last clock field: nothing, or a separator and a decimal fraction of a second. */
  predicate IsFraction(s: string)
  {
    s == "" || ((s[0] == '.' || s[0] == ',') && IsNumeral(s[1..]))
  }

  /** The microseconds that a fraction of a second stands for; what is below a microsecond is dropped. */
  function Fraction(s: string): Result<int>
  {
    if !IsFraction(s) then Raise(ValueError)
    else if s == "" then Ok(0)
    else Ok(DecimalValue(s[1..]) * US_PER_SECOND / Pow(10, |s| - 1))
  }

  function Prepend(vs: seq<int>, r: Result<seq<int>>): Result<seq<int>>
  {
    match r
    case Ok(ws) => Ok(vs + ws)
    case Raise(e) => Raise(e)
  }

  function Zeros(k: nat): seq<int>
  {
    seq(k, _ => 0)
  }

  function FractionField(s: string): Result<seq<int>>
  {
    var us :- Fraction(s);
    Ok([us])
  }

  /**
    Up to `left` two-character fields and then a fraction. Whether fields are separated by colons is decided
    after the first one, when `colons` is not yet known.
    */
  function ClockFields(s: string, left: nat, colons: Option<bool>): Result<seq<int>>
    requires 0 < left
    decreases left
  {
    if |s| < 2 then Raise(ValueError)
    else
      var v :- PyInt(s[..2]);
      var rest := s[2..];
      var sep := if colons.Some? then colons.value else rest != "" && rest[0] == ':';
      if rest == "" || left == 1 then Prepend([v] + Zeros(left - 1), FractionField(rest))
      else if sep && rest[0] != ':' then Raise(ValueError)
      else Prepend([v], ClockFields(if sep then rest[1..] else rest, left - 1, Some(sep)))
  }

  /** Hour, minute, second and microsecond. */
  function TimeFields(s: string): Result<seq<int>>
  {
    ClockFields(s, 3, None)
  }

  /* ----- parsing a time with its offset ----- */

  /** `str.find` of one character. */
  function Find(s: string, c: char): (k: int)
    ensures -1 <= k < |s|
  {
    if s == "" then -1
    else if s[0] == c then 0
    else var k := Find(s[1..], c); if k < 0 then -1 else k + 1
  }

  /** One past the character that starts the offset; 0 when there is none. */
  function OffsetStart(s: string): (k: nat)
    ensures k <= |s|
  {
    if Find(s, '-') >= 0 then Find(s, '-') + 1
    else if Find(s, '+') >= 0 then Find(s, '+') + 1
    else Find(s, 'Z') + 1
  }

  datatype ParsedTime =
    ParsedTime(fields: seq<int>, offset: Option<TimeDelta>, nextDay: bool, badFields: bool, badOffset: bool)

  const UTC := TimeDelta(0, 0, 0)

  predicate IsClock(fields: seq<int>)
    requires |fields| == 4
  {
    0 <= fields[0] < 24 && 0 <= fields[1] < 60 && 0 <= fields[2] < 60 && 0 <= fields[3] < US_PER_SECOND
  }

  /** The fixed offset that four clock fields and a sign stand for. */
  function OffsetOf(fields: seq<int>, sign: int): Result<TimeDelta>
    requires |fields| == 4
  {
    var size :- Make(0, fields[2], fields[3], 0, fields[1], fields[0], 0);
    var off :- MulInt(size, sign);
    if IsOffset(off) then Ok(off) else Raise(ValueError)
  }

  /** The offset at the end of `s`, if there is one, and whether its fields are out of range. */
  function ParsedOffset(s: string): Result<(Option<TimeDelta>, bool)>
  {
    var k := OffsetStart(s);
    if k == 0 then Ok((None, false))
    else if k == |s| && s[|s| - 1] == 'Z' then Ok((Some(UTC), false))
    else
      var text := s[k..];
      if |text| == 0 || |text| == 1 || |text| == 3 || s[k - 1] == 'Z' then Raise(ValueError)
      else
        var fields :- TimeFields(text);
        TimeFieldsCount(text);
        if fields == [0, 0, 0, 0] then Ok((Some(UTC), false))
        else if !IsClock(fields) then Ok((None, true))
        else
          var off :- OffsetOf(fields, if s[k - 1] == '-' then -1 else 1);
          Ok((Some(off), false))
  }

  lemma {:induction false} ClockFieldsCount(s: string, left: nat, colons: Option<bool>)
    requires 0 < left && ClockFields(s, left, colons).Ok?
    ensures |ClockFields(s, left, colons).value| == left + 1
  {
    var rest := s[2..];
    var sep := if colons.Some? then colons.value else rest != "" && rest[0] == ':';
    if rest != "" && left != 1 {
      ClockFieldsCount(if sep then rest[1..] else rest, left - 1, Some(sep));
    }
  }

  lemma TimeFieldsCount(s: string)
    ensures TimeFields(s).Ok? ==> |TimeFields(s).value| == 4
  {
    if TimeFields(s).Ok? {
      ClockFieldsCount(s, 3, None);
    }
  }

  /** Midnight at the end of a day may be written as hour 24; any other time in hour 24 is an error. */
  function AdjustMidnight(fields: seq<int>): (seq<int>, bool, bool)
    requires |fields| == 4
  {
    if fields[0] != 24 then (fields, false, false)
    else if fields == [24, 0, 0, 0] then ([0, 0, 0, 0], true, false)
    else (fields, false, true)
  }

  function TimeOf(s: string): Result<ParsedTime>
  {
    if |s| < 2 then Raise(ValueError)
    else
      var k := OffsetStart(s);
      var clock := if k == 0 then s else s[..k - 1];
      var fields :- TimeFields(clock);
      TimeFieldsCount(clock);
      var (adjusted, nextDay, badFields) := AdjustMidnight(fields);
      var (offset, badOffset) :- ParsedOffset(s);
      Ok(ParsedTime(adjusted, offset, nextDay, badFields, badOffset))
  }

  /* ----- parsing a date, and the whole text ----- */

  function DigitRunEnd(s: string, i: nat): (k: nat)
    requires i <= |s|
    ensures i <= k <= |s|
    decreases |s| - i
  {
    if i < |s| && IsDigit(s[i]) then DigitRunEnd(s, i + 1) else i
  }

  /** Where the date part ends; the character there separates it from the time. */
  function SeparatorOf(s: string): Result<nat>
    requires 7 <= |s|
  {
    if |s| == 7 then Ok(7)
    else if s[4] == '-' then
      if s[5] == 'W' then
        if |s| > 8 && s[8] == '-' then
          if |s| == 9 then Raise(ValueError)
          else if |s| > 10 && IsDigit(s[10]) then Ok(8)
          else Ok(10)
        else Ok(8)
      else Ok(10)
    else if s[4] == 'W' then
      var idx := DigitRunEnd(s, 7);
      if idx < 9 then Ok(idx) else if idx % 2 == 0 then Ok(7) else Ok(8)
    else Ok(8)
  }

  /** The year, month and day of a date part, not yet checked against the calendar. */
  function DateOf(s: string): Result<Ymd>
  {
    if |s| != 7 && |s| != 8 && |s| != 10 then Raise(ValueError)
    else
      var year :- PyInt(s[..4]);
      var hasSep := s[4] == '-';
      var pos := if hasSep then 5 else 4;
      if s[pos] == 'W' then
        var weekno :- PyInt(Take(Drop(s, pos + 1), 2));
        if |s| <= pos + 3 then IsoWeekToGregorian(year, weekno, 1)
        else if (s[pos + 3] == '-') != hasSep then Raise(ValueError)
        else
          var dayno :- PyInt(Take(Drop(s, if hasSep then pos + 4 else pos + 3), 1));
          IsoWeekToGregorian(year, weekno, dayno)
      else
        var month :- PyInt(s[pos..pos + 2]);
        if (Take(Drop(s, pos + 2), 1) == "-") != hasSep then Raise(ValueError)
        else
          var day :- PyInt(Take(Drop(s, if hasSep then pos + 3 else pos + 2), 2));
          Ok(Ymd(year, month, day))
  }

  /** The date after `d`, when `d` has a month and its day does not exceed it. */
  function NextDay(d: Ymd): Ymd
  {
    if 1 <= d.month <= 12 && d.day <= DaysInMonth(d.year, d.month) then
      if d.day + 1 <= DaysInMonth(d.year, d.month) then d.(day := d.day + 1)
      else if d.month < 12 then Ymd(d.year, d.month + 1, 1)
      else Ymd(d.year + 1, 1, 1)
    else d
  }

  function FromIsoText(s: string): Result<(DateTime, Option<TimeDelta>)>
  {
    if |s| < 7 then Raise(ValueError)
    else
      var sep :- SeparatorOf(s);
      var date :- DateOf(Take(s, sep));
      var tstr := Drop(s, sep + 1);
      if tstr == "" then Construct(date, [0, 0, 0, 0], None)
      else
        var time :- TimeOf(tstr);
        TimeOfFields(tstr);
        if time.badOffset || time.badFields then Raise(ValueError)
        else Construct(if time.nextDay then NextDay(date) else date, time.fields, time.offset)
  }

  /** The checks of the constructor. */
  function Construct(date: Ymd, fields: seq<int>, offset: Option<TimeDelta>): Result<(DateTime, Option<TimeDelta>)>
    requires |fields| == 4
  {
    var t := DateTime(date, fields[0], fields[1], fields[2], fields[3]);
    if IsDateTime(t) then Ok((t, offset)) else Raise(ValueError)
  }

  lemma TimeOfFields(s: string)
    ensures TimeOf(s).Ok? ==> |TimeOf(s).value.fields| == 4
  {
    hide TimeFields, ParsedOffset;
    if TimeOf(s).Ok? {
      var k := OffsetStart(s);
      TimeFieldsCount(if k == 0 then s else s[..k - 1]);
    }
  }
}
