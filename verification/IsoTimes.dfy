/** Every way to write a time and its zone, and what the parser reads from it. */
module IsoTimes {
  import opened Arithmetic
  import opened DateTimes
  import opened IsoFormat
  import opened IsoRoundTrip
  import opened Numerals
  import opened Outcome
  import opened TimeDeltas

  /* ----- clocks ----- */

  /** One to three fields of two characters, all or none separated by colons, and after the third perhaps a fraction. */
  datatype ClockForm = ClockForm(parts: seq<string>, colons: bool, fraction: string)

  predicate IsPart(p: string)
  {
    |p| == 2 && PyInt(p).Ok?
  }

  predicate IsClockForm(c: ClockForm)
  {
    && 1 <= |c.parts| <= 3 && (forall p :: p in c.parts ==> IsPart(p))
    && (|c.parts| == 1 ==> !c.colons)
    && (if |c.parts| == 3 then IsFraction(c.fraction) else c.fraction == "")
  }

  function Colon(c: ClockForm): string
  {
    if c.colons then ":" else ""
  }

  /** HH, HHMM, HH:MM, HHMMSS and HH:MM:SS, the last two with or without a fraction. */
  function ClockFormText(c: ClockForm): string
    requires IsClockForm(c)
  {
    if |c.parts| == 1 then c.parts[0]
    else if |c.parts| == 2 then c.parts[0] + Colon(c) + c.parts[1]
    else c.parts[0] + Colon(c) + c.parts[1] + Colon(c) + c.parts[2] + c.fraction
  }

  function PartValue(c: ClockForm, i: nat): int
    requires IsClockForm(c)
  {
    if i < |c.parts| then assert IsPart(c.parts[i]); PyInt(c.parts[i]).value else 0
  }

  /** Hour, minute, second and microsecond; what is not written is zero, and the fraction is truncated. */
  function ClockFormFields(c: ClockForm): (r: seq<int>)
    requires IsClockForm(c)
    ensures |r| == 4
  {
    var us := if c.fraction == "" then 0 else DecimalValue(c.fraction[1..]) * 1000000 / Pow(10, |c.fraction| - 1);
    [PartValue(c, 0), PartValue(c, 1), PartValue(c, 2), us]
  }

  lemma ReadPart(p: string, rest: string, left: nat, colons: Option<bool>, sep: bool)
    requires IsPart(p) && 0 < left
    requires sep == if colons.Some? then colons.value else rest != "" && rest[0] == ':'
    ensures ClockFields(p + rest, left, colons) ==
            if rest == "" || left == 1 then Prepend([PyInt(p).value] + Zeros(left - 1), FractionField(rest))
            else if sep && rest[0] != ':' then Raise(ValueError)
            else Prepend([PyInt(p).value], ClockFields(if sep then rest[1..] else rest, left - 1, Some(sep)))
  {
    hide PyInt, Fraction, FractionField;
    var s := p + rest;
    assert s[..2] == p && s[2..] == rest;
  }

  lemma FractionRead(f: string)
    requires IsFraction(f)
    ensures Pow(10, 0) == 1
    ensures FractionField(f) ==
            Ok([if f == "" then 0 else DecimalValue(f[1..]) * 1000000 / Pow(10, |f| - 1)])
  {
  }

  lemma ColonIsNoNumber(c: char)
    ensures PyInt([':', c]).Raise?
  {
    var p := [':', c];
    assert StripLeft(p) == p;
    if IsSpace(c) {
      assert p[..1] == [':'] && StripRight(p) == StripRight([':']) == [':'];
    }
  }

  lemma PartStart(p: string)
    requires IsPart(p)
    ensures p[0] != ':'
  {
    ColonIsNoNumber(p[1]);
    assert p == [p[0], p[1]];
  }

  /** Every clock form is read as its fields. */
  lemma ClockFormIsRead(c: ClockForm)
    requires IsClockForm(c)
    ensures TimeFields(ClockFormText(c)) == Ok(ClockFormFields(c))
  {
    hide IsPart, PyInt, Fraction, FractionField, IsFraction;
    assert IsPart(c.parts[0]);
    FractionRead("");
    if |c.parts| == 1 {
      OnePart(c);
    } else if |c.parts| == 2 {
      TwoParts(c);
    } else {
      ThreeParts(c);
    }
  }

  lemma OnePart(c: ClockForm)
    requires IsClockForm(c) && |c.parts| == 1
    ensures TimeFields(ClockFormText(c)) == Ok(ClockFormFields(c))
  {
    hide PyInt, Fraction, FractionField, ClockFields;
    var p := c.parts[0];
    assert IsPart(p) && p + "" == p;
    EmptyFraction();
    ReadPart(p, "", 3, None, false);
    assert [PyInt(p).value] + Zeros(2) + [0] == [PyInt(p).value, 0, 0, 0];
  }

  lemma EmptyFraction()
    ensures FractionField("") == Ok([0]) && IsFraction("")
  {
  }

  lemma TwoParts(c: ClockForm)
    requires IsClockForm(c) && |c.parts| == 2
    ensures TimeFields(ClockFormText(c)) == Ok(ClockFormFields(c))
  {
    hide PyInt, Fraction, FractionField, ClockFields;
    var p, q := c.parts[0], c.parts[1];
    assert IsPart(p) && IsPart(q);
    PartStart(q);
    EmptyFraction();
    var rest := Colon(c) + q;
    assert ClockFormText(c) == p + rest && q + "" == q;
    ReadPart(p, rest, 3, None, c.colons);
    assert (if c.colons then rest[1..] else rest) == q;
    ReadPart(q, "", 2, Some(c.colons), c.colons);
    assert [PyInt(q).value] + Zeros(1) + [0] == [PyInt(q).value, 0, 0];
    assert [PyInt(p).value] + [PyInt(q).value, 0, 0] == [PyInt(p).value, PyInt(q).value, 0, 0];
  }

  lemma ThreeParts(c: ClockForm)
    requires IsClockForm(c) && |c.parts| == 3
    ensures TimeFields(ClockFormText(c)) == Ok(ClockFormFields(c))
  {
    hide PyInt, Fraction, FractionField, ClockFields, IsFraction, DecimalValue;
    var p, q, r, f := c.parts[0], c.parts[1], c.parts[2], c.fraction;
    assert IsPart(p) && IsPart(q) && IsPart(r);
    hide IsPart;
    PartStart(q);
    PartStart(r);
    FractionRead(f);
    var late := Colon(c) + (r + f);
    var rest := Colon(c) + (q + late);
    assert ClockFormText(c) == p + rest;
    ReadPart(p, rest, 3, None, c.colons);
    assert (if c.colons then rest[1..] else rest) == q + late;
    ReadPart(q, late, 2, Some(c.colons), c.colons);
    assert (if c.colons then late[1..] else late) == r + f;
    ReadPart(r, f, 1, Some(c.colons), c.colons);
    var us := ClockFormFields(c)[3];
    var x, y, z := PyInt(p).value, PyInt(q).value, PyInt(r).value;
    assert [z] + Zeros(0) + [us] == [z, us] && [y] + [z, us] == [y, z, us] && [x] + [y, z, us] == [x, y, z, us];
  }

  lemma AcceptedPart(s: string, left: nat, colons: Option<bool>)
    requires 0 < left && ClockFields(s, left, colons).Ok?
    ensures 2 <= |s| && IsPart(s[..2])
    ensures var rest := s[2..];
      var sep := if colons.Some? then colons.value else rest != "" && rest[0] == ':';
      if rest == "" || left == 1 then FractionField(rest).Ok?
      else (sep ==> rest[0] == ':') && ClockFields(if sep then rest[1..] else rest, left - 1, Some(sep)).Ok?
  {
    hide PyInt, FractionField;
  }

  lemma AcceptedFraction(f: string)
    requires FractionField(f).Ok?
    ensures IsFraction(f)
  {
  }

  /** Nothing else is read: an accepted time is one of the forms. */
  lemma AcceptedIsClockForm(s: string) returns (c: ClockForm)
    requires TimeFields(s).Ok?
    ensures IsClockForm(c) && ClockFormText(c) == s
  {
    hide PyInt, ClockFields, FractionField, IsFraction, IsPart;
    AcceptedPart(s, 3, None);
    var p, rest := s[..2], s[2..];
    if rest == "" {
      c := ClockForm([p], false, "");
      assert s == p;
    } else {
      var colons := rest[0] == ':';
      var s1 := if colons then rest[1..] else rest;
      AcceptedPart(s1, 2, Some(colons));
      var q, rest1 := s1[..2], s1[2..];
      if rest1 == "" {
        c := ClockForm([p, q], colons, "");
        assert s == p + Colon(c) + q;
      } else {
        var s2 := if colons then rest1[1..] else rest1;
        AcceptedPart(s2, 1, Some(colons));
        var r, f := s2[..2], s2[2..];
        AcceptedFraction(f);
        c := ClockForm([p, q, r], colons, f);
        assert s == p + Colon(c) + q + Colon(c) + r + f;
      }
    }
  }

  /** The times that are accepted are exactly the clock forms. */
  lemma AcceptedTimes(s: string)
    ensures TimeFields(s).Ok? <==> exists c :: IsClockForm(c) && ClockFormText(c) == s
  {
    hide TimeFields, IsClockForm, ClockFormText;
    if TimeFields(s).Ok? {
      var c := AcceptedIsClockForm(s);
    }
    if c :| IsClockForm(c) && ClockFormText(c) == s {
      ClockFormIsRead(c);
    }
  }

  lemma StripTwo(a: char, b: char)
    ensures StripRight(StripLeft([a, b])) ==
            if IsSpace(a) && IsSpace(b) then "" else if IsSpace(a) then [b] else if IsSpace(b) then [a] else [a, b]
  {
    var p := [a, b];
    assert p[1..] == [b] && p[..1] == [a] && [a][..0] == "" && [b][..0] == "" && [b][1..] == "";
    assert StripLeft([b]) == if IsSpace(b) then "" else [b];
    assert StripRight([b]) == (if IsSpace(b) then "" else [b]) && StripRight([a]) == if IsSpace(a) then "" else [a];
  }

  lemma OneDigit(d: char)
    requires IsDigit(d)
    ensures IsIntBody([d]) && OnlyDigits([d]) == [d] && DecimalValue([d]) == DigitValue(d)
  {
    assert [d][1..] == "" && [d][..0] == "";
  }

  lemma TwoDigitValue(a: char, b: char)
    requires IsDigit(a) && IsDigit(b)
    ensures IsIntBody([a, b]) && OnlyDigits([a, b]) == [a, b]
    ensures DecimalValue([a, b]) == 10 * DigitValue(a) + DigitValue(b)
  {
    OneDigit(a);
    OneDigit(b);
    assert [a, b][1..] == [b] && [a, b][..1] == [a];
  }

  lemma NotTwoDigits(a: char, b: char)
    requires !(IsDigit(a) && IsDigit(b))
    ensures !IsIntBody([a, b]) && !IsIntBody("")
    ensures (!IsDigit(a) ==> !IsIntBody([a])) && (!IsDigit(b) ==> !IsIntBody([b]))
  {
    assert [a, b][0] == a && [a, b][1] == b && [a][0] == a && [b][0] == b;
  }

  /** Space, tab, line feed, carriage return, vertical tab, form feed and the four information separators. */
  const BLANKS := " \t\n\r\U{B}\U{C}\U{1C}\U{1D}\U{1E}\U{1F}"

  lemma SpaceIsBlank(c: char)
    ensures IsSpace(c) <==> c in BLANKS
  {
    if IsSpace(c) {
      assert c in [9 as char, 10 as char, 11 as char, 12 as char, 13 as char]
               + [28 as char, 29 as char, 30 as char, 31 as char, 32 as char];
    }
  }

  /** A field is two digits, or one with a blank beside it or a sign before it; nothing else is a number. */
  lemma PartValues(a: char, b: char)
    ensures PyInt([a, b]) ==
            if IsDigit(a) && IsDigit(b) then Ok(10 * DigitValue(a) + DigitValue(b))
            else if IsDigit(b) && (a in BLANKS || a == '+') then Ok(DigitValue(b))
            else if IsDigit(b) && a == '-' then Ok(0 - DigitValue(b) as int)
            else if IsDigit(a) && b in BLANKS then Ok(DigitValue(a))
            else Raise(ValueError)
  {
    hide StripLeft, StripRight, IsIntBody, OnlyDigits, DecimalValue, BLANKS;
    StripTwo(a, b);
    SpaceIsBlank(a);
    SpaceIsBlank(b);
    assert [a, b][1..] == [b] && [a][1..] == "" && [b][1..] == "";
    if IsDigit(a) {
      OneDigit(a);
    }
    if IsDigit(b) {
      OneDigit(b);
    }
    if IsDigit(a) && IsDigit(b) {
      TwoDigitValue(a, b);
    } else {
      NotTwoDigits(a, b);
    }
  }

  /* ----- zones ----- */

  /** No zone, UTC, or a sign and a clock. */
  datatype ZoneForm = Naive | Zulu | Signed(sign: char, clock: ClockForm)

  /** A clock form whose fields are digits. */
  predicate IsDigitForm(c: ClockForm)
  {
    IsClockForm(c) && forall p :: p in c.parts ==> AllDigits(p)
  }

  predicate IsZoneForm(z: ZoneForm)
  {
    z.Signed? ==> (z.sign == '-' || z.sign == '+') && IsDigitForm(z.clock)
  }

  function ZoneText(z: ZoneForm): string
    requires IsZoneForm(z)
  {
    match z
    case Naive => ""
    case Zulu => "Z"
    case Signed(sign, c) => [sign] + ClockFormText(c)
  }

  lemma DigitFormChars(c: ClockForm)
    requires IsDigitForm(c)
    ensures ClockChars(ClockFormText(c))
    ensures |ClockFormText(c)| == 2 || |ClockFormText(c)| >= 4
    ensures AllDigits(ClockFormText(c)[..2])
  {
    hide PyInt;
    assert forall p :: p in c.parts ==> AllDigits(p) && |p| == 2;
    var f := c.fraction;
    assert ClockChars(f);
    assert c.parts[0] in c.parts;
    if |c.parts| == 2 {
      assert c.parts[1] in c.parts;
    } else if |c.parts| == 3 {
      assert c.parts[1] in c.parts && c.parts[2] in c.parts;
    }
  }

  /** An offset that `v` reads: a clock's fields within range, with its sign. */
  ghost predicate IsSignedClock(off: TimeDelta, v: seq<int>, sign: char)
    requires |v| == 4
  {
    && IsOffset(off)
    && Micros(off) == (if sign == '-' then -1 else 1) * ((v[0] * 3600 + v[1] * 60 + v[2]) * 1000000 + v[3])
  }

  lemma OffsetOfClock(v: seq<int>, sign: char)
    requires |v| == 4 && IsClock(v) && (sign == '-' || sign == '+')
    ensures var off := OffsetOf(v, if sign == '-' then -1 else 1); off.Ok? && IsSignedClock(off.value, v, sign)
  {
    hide Make, MulInt;
    var total := (v[0] * 3600 + v[1] * 60 + v[2]) * 1000000 + v[3];
    MakeRepresents(0, v[2], v[3], 0, v[1], v[0], 0);
    var size := Make(0, v[2], v[3], 0, v[1], v[0], 0);
    SmallFits(size, total);
    ArithmeticIsExact(size.value, size.value, if sign == '-' then -1 else 1);
    SmallFits(MulInt(size.value, if sign == '-' then -1 else 1), if sign == '-' then -total else total);
  }

  /** What a time and its zone are read as: `v` are the fields of its clock. */
  ghost predicate IsReading(r: ParsedTime, v: seq<int>, z: ZoneForm)
    requires |v| == 4 && IsZoneForm(z)
  {
    && (v[0] != 24 ==> r.fields == v && !r.nextDay && !r.badFields)
    && (v == [24, 0, 0, 0] ==> r.fields == [0, 0, 0, 0] && r.nextDay && !r.badFields)
    && (v[0] == 24 && v != [24, 0, 0, 0] ==> r.badFields && !r.nextDay)
    && match z
       case Naive => r.offset == None && !r.badOffset
       case Zulu => r.offset == Some(TimeDelta(0, 0, 0)) && !r.badOffset
       case Signed(sign, c) =>
         var w := ClockFormFields(c);
         if w[0] < 24 && w[1] < 60 && w[2] < 60 then
           !r.badOffset && r.offset.Some? && IsSignedClock(r.offset.value, w, sign)
         else r.badOffset && r.offset == None
  }

  lemma ZoneStart(clock: string, z: ZoneForm)
    requires ClockChars(clock) && IsZoneForm(z)
    ensures OffsetStart(clock + ZoneText(z)) == if z.Naive? then 0 else |clock| + 1
  {
    match z
    case Naive =>
      assert clock + "" == clock;
      NoOffset(clock);
    case Zulu =>
      assert clock + "Z" == clock + ['Z'] + "";
      FindAfter(clock, 'Z', "");
      FindNothing(clock + "Z", '-');
      FindNothing(clock + "Z", '+');
    case Signed(sign, c) =>
      DigitFormChars(c);
      OffsetStartsAtSign(clock, sign, ClockFormText(c));
      assert clock + ([sign] + ClockFormText(c)) == clock + [sign] + ClockFormText(c);
  }

  lemma DigitFieldsRange(c: ClockForm)
    requires IsDigitForm(c)
    ensures var v := ClockFormFields(c);
      0 <= v[0] < 100 && 0 <= v[1] < 100 && 0 <= v[2] < 100 && 0 <= v[3] < 1000000
  {
    hide PyInt;
    forall i: nat
      ensures 0 <= PartValue(c, i) < 100
    {
      if i < |c.parts| {
        var p := c.parts[i];
        assert p in c.parts && AllDigits(p) && |p| == 2;
        PyIntOfNumeral(p);
        DecimalValueBound(p);
        assert Pow(10, 2) == 100;
      }
    }
    if c.fraction != "" {
      var ds := c.fraction[1..];
      DecimalValueBound(ds);
      FractionBelowOne(DecimalValue(ds), Pow(10, |ds|));
    }
  }

  lemma FractionBelowOne(v: nat, p: nat)
    requires v < p
    ensures 0 <= v * 1000000 / p < 1000000
  {
    DivUpper(v * 1000000, p, 1000000);
  }

  /** The zone of a text in one of the forms is read, whatever digits and colons stand before it. */
  lemma ZoneIsRead(clock: string, z: ZoneForm, v: seq<int>)
    requires ClockChars(clock) && IsZoneForm(z) && |v| == 4 && v[0] != 24
    ensures var r := ParsedOffset(clock + ZoneText(z));
      r.Ok? && IsReading(ParsedTime(v, r.value.0, false, false, r.value.1), v, z)
  {
    hide OffsetStart, TimeFields, OffsetOf, PyInt;
    hide IsClockForm, ClockFormText, ClockFormFields, IsSignedClock, IsDigitForm;
    var s := clock + ZoneText(z);
    ZoneStart(clock, z);
    match z
    case Naive =>
    case Zulu =>
    case Signed(sign, c) =>
      FormOfDigits(c);
      assert s[|clock|] == sign && s[|clock| + 1..] == ClockFormText(c);
      DigitFormChars(c);
      ClockFormIsRead(c);
      DigitFieldsRange(c);
      var w := ClockFormFields(c);
      if w[0] < 24 && w[1] < 60 && w[2] < 60 {
        OffsetOfClock(w, sign);
        ZeroOffset(w, sign);
      }
  }

  lemma FormOfDigits(c: ClockForm)
    requires IsDigitForm(c)
    ensures IsClockForm(c)
  {
  }

  lemma ZeroOffset(w: seq<int>, sign: char)
    requires w == [0, 0, 0, 0] || |w| == 4
    ensures w == [0, 0, 0, 0] ==> IsSignedClock(UTC, w, sign)
  {
  }

  function TimeFormText(c: ClockForm, z: ZoneForm): string
    requires IsDigitForm(c) && IsZoneForm(z)
  {
    ClockFormText(c) + ZoneText(z)
  }

  /** Every time and zone in one of the forms is read as its fields and offset. */
  lemma TimeFormIsRead(c: ClockForm, z: ZoneForm)
    requires IsDigitForm(c) && IsZoneForm(z)
    ensures var s := TimeFormText(c, z);
      2 <= |s| && TimeOf(s).Ok? && IsReading(TimeOf(s).value, ClockFormFields(c), z)
  {
    hide OffsetStart, TimeFields, ParsedOffset, PyInt;
    hide IsClockForm, ClockFormText, ClockFormFields, IsSignedClock, ZoneText;
    FormOfDigits(c);
    var clock := ClockFormText(c);
    var s, v := clock + ZoneText(z), ClockFormFields(c);
    DigitFormChars(c);
    ZoneStart(clock, z);
    ZoneIsRead(clock, z, [0, 0, 0, 0]);
    ClockFormIsRead(c);
    NaiveText();
    assert z.Naive? ==> s == clock;
    assert !z.Naive? ==> s[..|clock|] == clock;
  }

  lemma NaiveText()
    ensures ZoneText(Naive) == ""
  {
  }

  /** After a sign, nothing, one character or three are no offset, and nothing may follow Z. */
  lemma MalformedZone(c: ClockForm, sign: char, text: string)
    requires IsDigitForm(c) && ClockChars(text)
    requires if sign == 'Z' then text != "" else (sign == '-' || sign == '+') && |text| in {0, 1, 3}
    ensures TimeOf(ClockFormText(c) + [sign] + text) == Raise(ValueError)
  {
    hide TimeFields, PyInt, IsClockForm, ClockFormText, ClockFormFields, OffsetStart;
    FormOfDigits(c);
    var clock := ClockFormText(c);
    var s := clock + [sign] + text;
    DigitFormChars(c);
    SignStart(clock, sign, text);
    ClockFormIsRead(c);
    assert s[..|clock|] == clock && s[|clock|] == sign && s[|clock| + 1..] == text;
  }

  lemma SignStart(clock: string, sign: char, text: string)
    requires ClockChars(clock) && ClockChars(text) && sign in {'-', '+', 'Z'}
    ensures OffsetStart(clock + [sign] + text) == |clock| + 1
  {
    var s := clock + [sign] + text;
    FindAfter(clock, sign, text);
    if sign != '-' {
      FindNothing(s, '-');
    }
    if sign == 'Z' {
      FindNothing(s, '+');
    }
  }
}
