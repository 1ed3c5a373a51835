/** The parser of ISO 8601 text as it runs: loops over positions that fill in components. */
module IsoParser {
  import opened Arithmetic
  import opened DateTimes
  import opened IsoFormat
  import opened Calendar
  import opened IsoForms
  import opened IsoRoundTrip
  import opened IsoTimes
  import opened Numerals
  import opened Outcome
  import opened TimeDeltas

  /* ----- a time ----- */

  /** What the loop still has to find, given the components found so far. */
  ghost function Pending(found: seq<int>, s: string, left: nat, colons: Option<bool>): Result<seq<int>>
    requires 0 < left
  {
    Prepend(found, ClockFields(s, left, colons))
  }

  lemma PendingStep(found: seq<int>, s: string, left: nat, colons: Option<bool>, v: int, sep: bool)
    requires 0 < left && 2 <= |s| && PyInt(s[..2]) == Ok(v)
    requires sep == if colons.Some? then colons.value else s[2..] != "" && s[2] == ':'
    ensures var rest := s[2..];
      Pending(found, s, left, colons) ==
      if rest == "" || left == 1 then Prepend(found + [v] + Zeros(left - 1), FractionField(rest))
      else if sep && rest[0] != ':' then Raise(ValueError)
      else Pending(found + [v], if sep then rest[1..] else rest, left - 1, Some(sep))
  {
    var rest := s[2..];
    if rest == "" || left == 1 {
      PrependTwice(found, [v] + Zeros(left - 1), FractionField(rest));
      assert found + ([v] + Zeros(left - 1)) == found + [v] + Zeros(left - 1);
    } else if !(sep && rest[0] != ':') {
      PrependTwice(found, [v], ClockFields(if sep then rest[1..] else rest, left - 1, Some(sep)));
    }
  }

  lemma PrependTwice(xs: seq<int>, ys: seq<int>, r: Result<seq<int>>)
    ensures Prepend(xs, Prepend(ys, r)) == Prepend(xs + ys, r)
  {
    if r.Ok? {
      assert xs + (ys + r.value) == xs + ys + r.value;
    }
  }

  lemma PendingStart(s: string)
    ensures Pending([], s, 3, None) == TimeFields(s)
  {
    if TimeFields(s).Ok? {
      assert [] + TimeFields(s).value == TimeFields(s).value;
    }
  }

  /** Up to six digits count in full, scaled to microseconds. */
  lemma ShortFraction(ds: string)
    requires IsNumeral(ds) && |ds| <= 6
    ensures DecimalValue(ds) * US_PER_SECOND / Pow(10, |ds|) == DecimalValue(ds) * Pow(10, 6 - |ds|)
  {
    var v, p, scale := DecimalValue(ds), Pow(10, |ds|), Pow(10, 6 - |ds|);
    assert Pow(10, 6) == US_PER_SECOND;
    PowAdd(10, |ds|, 6 - |ds|);
    Scaled(v, p, scale);
    DivModUnique(v * US_PER_SECOND, p, v * scale, 0);
  }

  lemma Scaled(v: int, p: int, scale: int)
    ensures v * (p * scale) == p * (v * scale)
  {
  }

  lemma HeadAndTail(head: nat, tail: nat, p: nat)
    requires tail < p
    ensures (head * p + tail) * US_PER_SECOND == (p * US_PER_SECOND) * head + tail * US_PER_SECOND
    ensures 0 <= tail * US_PER_SECOND < p * US_PER_SECOND
  {
  }

  /** Of more than six digits the first six count. */
  lemma LongFraction(ds: string)
    requires IsNumeral(ds) && 6 <= |ds|
    ensures DecimalValue(ds) * US_PER_SECOND / Pow(10, |ds|) == DecimalValue(ds[..6])
  {
    var k := |ds| - 6;
    var head, tail, p := DecimalValue(ds[..6]), DecimalValue(ds[6..]), Pow(10, k);
    assert ds == ds[..6] + ds[6..];
    DecimalValueAppend(ds[..6], ds[6..]);
    Shift10IsProduct(head, k);
    DecimalValueBound(ds[6..]);
    assert Pow(10, 6) == US_PER_SECOND;
    PowAdd(10, k, 6);
    HeadAndTail(head, tail, p);
    DivModUnique(DecimalValue(ds) * US_PER_SECOND, Pow(10, |ds|), head, tail * US_PER_SECOND);
  }

  /**
    The fraction after the last field, at `start`: accepted when nothing follows, or a separator and one digit or more
    and nothing else, as the number of microseconds, truncated.
    */
  method ParseFraction(tstr: string, start: nat) returns (res: Result<int>)
    requires start <= |tstr|
    ensures res == Fraction(tstr[start..])
    ensures res.Ok? <==> IsFraction(tstr[start..])
    ensures res.Ok? && start < |tstr| ==>
      var ds := tstr[start + 1..];
      res.value == if |ds| <= 6 then DecimalValue(ds) * Pow(10, 6 - |ds|) else DecimalValue(ds[..6])
  {
    hide PyInt, DecimalValue, Pow;
    var pos := start;
    if pos == |tstr| {
      return Ok(0);
    }
    if tstr[pos] != '.' && tstr[pos] != ',' {
      return Raise(ValueError);
    }
    pos := pos + 1;
    ghost var ds := tstr[pos..];
    assert ds == tstr[start..][1..];
    if !AllDigits(tstr[pos..]) {
      return Raise(ValueError);
    }
    var lenRemainder := |tstr| - pos;
    var toParse := if lenRemainder >= 6 then 6 else lenRemainder;
    assert tstr[pos..pos + toParse] == ds[..toParse];
    if ds == "" {
      NoDigits();
    } else {
      PyIntOfNumeral(ds[..toParse]);
      if toParse < 6 {
        assert ds[..toParse] == ds;
      }
      FractionValue(ds);
    }
    var us := PyInt(tstr[pos..pos + toParse]);
    if us.Ok? && toParse < 6 {
      return Ok(us.value * Pow(10, 6 - toParse));
    }
    return us;
  }

  lemma NoDigits()
    ensures PyInt("") == Raise(ValueError)
  {
  }

  lemma FractionValue(ds: string)
    requires IsNumeral(ds)
    ensures 0 < Pow(10, |ds|) && Pow(10, 0) == 1
    ensures DecimalValue(ds) * US_PER_SECOND / Pow(10, |ds|) ==
            if |ds| <= 6 then DecimalValue(ds) * Pow(10, 6 - |ds|) else DecimalValue(ds[..6])
    ensures |ds| == 6 ==> ds[..6] == ds
  {
    if |ds| <= 6 {
      ShortFraction(ds);
    } else {
      LongFraction(ds);
    }
  }

  lemma ClockContract(s: string)
    ensures TimeFields(s).Ok? <==> exists c :: IsClockForm(c) && s == ClockFormText(c)
    ensures forall c :: IsClockForm(c) && s == ClockFormText(c) ==> TimeFields(s) == Ok(ClockFormFields(c))
  {
    hide TimeFields, IsClockForm, ClockFormText, ClockFormFields;
    AcceptedTimes(s);
    forall c | IsClockForm(c) && s == ClockFormText(c)
      ensures TimeFields(s) == Ok(ClockFormFields(c))
    {
      ClockFormIsRead(c);
    }
  }

  /**
    The loop over the fields of a time, filling in the components found. Exactly the clock forms are accepted, and
    each is read as its fields.
    */
  method ParseHhMmSsFf(tstr: string) returns (res: Result<seq<int>>)
    ensures res == TimeFields(tstr)
    ensures res.Ok? <==> exists c :: IsClockForm(c) && tstr == ClockFormText(c)
    ensures forall c :: IsClockForm(c) && tstr == ClockFormText(c) ==> res == Ok(ClockFormFields(c))
  {
    ClockContract(tstr);
    res := FillComponents(tstr);
  }

  method FillComponents(tstr: string) returns (res: Result<seq<int>>)
    ensures res == TimeFields(tstr)
  {
    hide ClockFields, Fraction, PyInt, TimeFields;
    var timeComps: seq<int> := [0, 0, 0, 0];
    var pos, comp := 0, 0;
    var hasSep := false;
    PendingStart(tstr);
    assert tstr[0..] == tstr && timeComps[..0] == [];
    while true
      invariant 0 <= comp < 3 && 0 <= pos <= |tstr| && |timeComps| == 4
      invariant forall i :: comp <= i < 4 ==> timeComps[i] == 0
      invariant TimeFields(tstr) ==
                Pending(timeComps[..comp], tstr[pos..], 3 - comp, if comp == 0 then None else Some(hasSep))
      decreases 3 - comp
    {
      ghost var found, rest := timeComps[..comp], tstr[pos..];
      ghost var colons := if comp == 0 then None else Some(hasSep);
      if |tstr| - pos < 2 {
        ShortField(found, rest, 3 - comp, colons);
        return Raise(ValueError);
      }
      assert tstr[pos..pos + 2] == rest[..2];
      var value := PyInt(tstr[pos..pos + 2]);
      if value.Raise? {
        BadField(found, rest, 3 - comp, colons);
        return Raise(value.error);
      }
      timeComps := timeComps[comp := value.value];
      assert timeComps[..comp + 1] == found + [value.value];
      pos := pos + 2;
      assert tstr[pos..] == rest[2..];
      var nextChar := tstr[pos..if pos < |tstr| then pos + 1 else pos];
      if comp == 0 {
        hasSep := nextChar == ":";
      }
      assert nextChar == if |rest| == 2 then "" else [rest[2]];
      PendingStep(found, rest, 3 - comp, colons, value.value, hasSep);
      if nextChar == "" || comp >= 2 {
        assert timeComps[..3] == found + [value.value] + Zeros(2 - comp);
        break;
      }
      if hasSep && nextChar != ":" {
        return Raise(ValueError);
      }
      if hasSep {
        pos := pos + 1;
        assert tstr[pos..] == rest[2..][1..];
      }
      comp := comp + 1;
    }
    var us := ParseFraction(tstr, pos);
    if us.Raise? {
      return Raise(us.error);
    }
    assert timeComps[3 := us.value] == timeComps[..3] + [us.value];
    return Ok(timeComps[3 := us.value]);
  }

  lemma ShortField(found: seq<int>, s: string, left: nat, colons: Option<bool>)
    requires 0 < left && |s| < 2
    ensures Pending(found, s, left, colons) == Raise(ValueError)
  {
  }

  lemma BadField(found: seq<int>, s: string, left: nat, colons: Option<bool>)
    requires 0 < left && 2 <= |s| && PyInt(s[..2]).Raise?
    ensures Pending(found, s, left, colons) == Raise(PyInt(s[..2]).error)
  {
  }

  lemma TimeContract(s: string)
    ensures forall c, z :: IsDigitForm(c) && IsZoneForm(z) && s == TimeFormText(c, z) ==>
              TimeOf(s).Ok? && IsReading(TimeOf(s).value, ClockFormFields(c), z)
    ensures forall t, off :: IsDateTime(t) && IsOffsetOption(off) && s == TimeText(t, off) ==>
              TimeOf(s) == Ok(ParsedTime([t.hour, t.minute, t.second, t.microsecond], off, false, false, false))
    ensures TimeOf(s).Ok? ==> IsOffsetOption(TimeOf(s).value.offset)
  {
    hide TimeOf, ClockText, FormatOffset, IsDateTime, IsReading, TimeFormText, ClockFormFields;
    forall c, z | IsDigitForm(c) && IsZoneForm(z) && s == TimeFormText(c, z)
      ensures TimeOf(s).Ok? && IsReading(TimeOf(s).value, ClockFormFields(c), z)
    {
      TimeFormIsRead(c, z);
    }
    forall t, off | IsDateTime(t) && IsOffsetOption(off) && s == TimeText(t, off)
      ensures TimeOf(s) == Ok(ParsedTime([t.hour, t.minute, t.second, t.microsecond], off, false, false, false))
    {
      ReadTime(t, off);
    }
    ParsedTimeIsSupported(s);
  }

  /**
    A time and its zone. Every clock form of digits, with no zone, Z, or a sign and a clock form of digits, is read as
    its fields and offset, 24:00 as midnight of the next day; a printed time gives its fields and offset back; an
    accepted offset is strictly within 24 hours.
    */
  method ParseIsoformatTime(tstr: string) returns (res: Result<ParsedTime>)
    ensures res == TimeOf(tstr)
    ensures forall c, z :: IsDigitForm(c) && IsZoneForm(z) && tstr == TimeFormText(c, z) ==>
              res.Ok? && IsReading(res.value, ClockFormFields(c), z)
    ensures forall t, off :: IsDateTime(t) && IsOffsetOption(off) && tstr == TimeText(t, off) ==>
              res == Ok(ParsedTime([t.hour, t.minute, t.second, t.microsecond], off, false, false, false))
    ensures res.Ok? ==> IsOffsetOption(res.value.offset)
  {
    TimeContract(tstr);
    hide TimeFields, OffsetOf, IsClock, TimeText, ClockText, IsDateTime, IsOffsetOption;
    hide IsReading, TimeFormText, ClockFormFields, IsDigitForm, IsZoneForm;
    if |tstr| < 2 {
      return Raise(ValueError);
    }
    var tzPos := OffsetStart(tstr);
    var timestr := if tzPos > 0 then tstr[..tzPos - 1] else tstr;
    var parsed := ParseHhMmSsFf(timestr);
    if parsed.Raise? {
      return Raise(parsed.error);
    }
    TimeFieldsCount(timestr);
    var timeComps := parsed.value;
    var becameNextDay, errorFromComponents, errorFromTz := false, false, false;
    if timeComps[0] == 24 {
      if timeComps[1] == 0 && timeComps[2] == 0 && timeComps[3] == 0 {
        assert timeComps == [24, 0, 0, 0];
        timeComps := timeComps[0 := 0];
        assert timeComps == [0, 0, 0, 0];
        becameNextDay := true;
      } else {
        errorFromComponents := true;
      }
    }
    var tzi: Option<TimeDelta> := None;
    if tzPos == |tstr| && tstr[|tstr| - 1] == 'Z' {
      tzi := Some(UTC);
    } else if tzPos > 0 {
      var tzstr := tstr[tzPos..];
      if |tzstr| == 0 || |tzstr| == 1 || |tzstr| == 3 || tstr[tzPos - 1] == 'Z' {
        return Raise(ValueError);
      }
      var tzParsed := ParseHhMmSsFf(tzstr);
      if tzParsed.Raise? {
        return Raise(tzParsed.error);
      }
      TimeFieldsCount(tzstr);
      var tzComps := tzParsed.value;
      if tzComps == [0, 0, 0, 0] {
        tzi := Some(UTC);
      } else if !IsClock(tzComps) {
        errorFromTz := true;
      } else {
        var off := OffsetOf(tzComps, if tstr[tzPos - 1] == '-' then -1 else 1);
        if off.Raise? {
          return Raise(off.error);
        }
        tzi := Some(off.value);
      }
    }
    return Ok(ParsedTime(timeComps, tzi, becameNextDay, errorFromComponents, errorFromTz));
  }

  /* ----- a date, and the whole text ----- */

  lemma SeparatorContract(s: string)
    requires 7 <= |s|
    ensures forall d, form :: IsSupported(d) && s == FormText(d, form) ==> SeparatorOf(s) == Ok(|s|)
    ensures forall d, form, sep, c, z ::
              IsSupported(d) && IsDigitForm(c) && IsZoneForm(z) && s == TextOf(d, form, sep, c, z) ==>
              SeparatorOf(s) == Ok(if form == ExtendedWeek && IsDigit(sep) then 8 else |FormText(d, form)|)
  {
    hide SeparatorOf, FormText, TimeFormText, GoesOn, IsYmd, IsDigitForm, IsZoneForm;
    forall d, form | IsSupported(d) && s == FormText(d, form)
      ensures SeparatorOf(s) == Ok(|s|)
    {
      NothingFollows();
      FormIsFound(d, form, "");
      assert s + "" == s;
    }
    forall d, form, sep, c, z | IsSupported(d) && IsDigitForm(c) && IsZoneForm(z) && s == TextOf(d, form, sep, c, z)
      ensures SeparatorOf(s) == Ok(if form == ExtendedWeek && IsDigit(sep) then 8 else |FormText(d, form)|)
    {
      ClockStart(c, z, sep);
      FormIsFound(d, form, [sep] + TimeFormText(c, z));
    }
  }

  /**
    The date of a text in any of the six forms is found to its end, whether or not a time follows; only a digit after an
    extended week date makes it seem to end before its day.
    */
  method FindSeparator(dtstr: string) returns (res: Result<nat>)
    requires 7 <= |dtstr|
    ensures res == SeparatorOf(dtstr)
    ensures forall d, form :: IsSupported(d) && dtstr == FormText(d, form) ==> res == Ok(|dtstr|)
    ensures forall d, form, sep, c, z ::
              IsSupported(d) && IsDigitForm(c) && IsZoneForm(z) && dtstr == TextOf(d, form, sep, c, z) ==>
              res == Ok(if form == ExtendedWeek && IsDigit(sep) then 8 else |FormText(d, form)|)
  {
    SeparatorContract(dtstr);
    hide IsSupported, FormText, TextOf, IsDigitForm, IsZoneForm;
    var len := |dtstr|;
    if len == 7 {
      return Ok(7);
    }
    if dtstr[4] == '-' {
      if dtstr[5] == 'W' {
        if len > 8 && dtstr[8] == '-' {
          if len == 9 {
            return Raise(ValueError);
          }
          if len > 10 && IsDigit(dtstr[10]) {
            return Ok(8);
          }
          return Ok(10);
        }
        return Ok(8);
      }
      return Ok(10);
    }
    if dtstr[4] == 'W' {
      var idx := 7;
      while idx < len
        invariant 7 <= idx <= len
        invariant DigitRunEnd(dtstr, 7) == DigitRunEnd(dtstr, idx)
      {
        if !IsDigit(dtstr[idx]) {
          break;
        }
        idx := idx + 1;
      }
      if idx < 9 {
        return Ok(idx);
      }
      return Ok(if idx % 2 == 0 then 7 else 8);
    }
    return Ok(8);
  }

  lemma WholeContract(s: string)
    ensures forall d, form :: IsSupported(d) && s == FormText(d, form) ==>
              FromIsoText(s) == Ok((DateTime(FormDate(d, form), 0, 0, 0, 0), None))
    ensures forall d, form, sep, c, z ::
              && IsSupported(d) && IsDigitForm(c) && IsZoneForm(z) && !(form == ExtendedWeek && IsDigit(sep))
              && s == TextOf(d, form, sep, c, z) ==>
              IsSupported(FormDate(d, form)) && IsMeaning(FromIsoText(s), FormDate(d, form), ClockFormFields(c), z)
    ensures forall t, off, form, sep ::
              IsDateTime(t) && IsOffsetOption(off) && s == FullText(t, off, form, sep) ==>
              (FromIsoText(s) == Ok((t.(date := FormDate(t.date, form)), off)) <==>
               !(form == ExtendedWeek && IsDigit(sep)))
    ensures FromIsoText(s).Ok? ==>
      var (t, off) := FromIsoText(s).value;
      IsDateTime(t) && IsOffsetOption(off) && FromIsoText(IsoText(t, off, 'T')) == FromIsoText(s)
    ensures FromIsoText(s).Raise? ==> FromIsoText(s).error == ValueError
    ensures |s| < 7 ==> FromIsoText(s).Raise?
  {
    hide FromIsoText, IsoText, FormText, FullText, TextOf, FormDate, IsYmd, IsMeaning, ClockFormFields;
    forall d, form | IsSupported(d) && s == FormText(d, form)
      ensures FromIsoText(s) == Ok((DateTime(FormDate(d, form), 0, 0, 0, 0), None))
    {
      DateFormIsParsed(d, form);
    }
    forall d, form, sep, c, z |
      && IsSupported(d) && IsDigitForm(c) && IsZoneForm(z) && !(form == ExtendedWeek && IsDigit(sep))
      && s == TextOf(d, form, sep, c, z)
      ensures IsSupported(FormDate(d, form)) && IsMeaning(FromIsoText(s), FormDate(d, form), ClockFormFields(c), z)
    {
      TextIsRead(d, form, sep, c, z);
    }
    forall t, off, form, sep | IsDateTime(t) && IsOffsetOption(off) && s == FullText(t, off, form, sep)
      ensures FromIsoText(s) == Ok((t.(date := FormDate(t.date, form)), off)) <==>
              !(form == ExtendedWeek && IsDigit(sep))
    {
      FormsAreParsed(t, off, form, sep);
    }
    PrintedFormIsEquivalent(s, 'T');
    RefusedTexts(s);
  }

  /**
    The whole parser. A text with any form of date, any separator, any clock form of digits and any zone has its
    meaning, but for a digit after an extended week date; a date alone is midnight; a printed datetime is recovered
    with its offset, exactly but for that digit. Whatever is accepted is a supported datetime and offset, and their
    printed form is accepted as the same; whatever is refused is a ValueError.
    */
  method FromIsoformat(dateString: string) returns (res: Result<(DateTime, Option<TimeDelta>)>)
    ensures res == FromIsoText(dateString)
    ensures forall d, form :: IsSupported(d) && dateString == FormText(d, form) ==>
              res == Ok((DateTime(FormDate(d, form), 0, 0, 0, 0), None))
    ensures forall d, form, sep, c, z ::
              && IsSupported(d) && IsDigitForm(c) && IsZoneForm(z) && !(form == ExtendedWeek && IsDigit(sep))
              && dateString == TextOf(d, form, sep, c, z) ==>
              IsSupported(FormDate(d, form)) && IsMeaning(res, FormDate(d, form), ClockFormFields(c), z)
    ensures forall t, off, form, sep ::
              IsDateTime(t) && IsOffsetOption(off) && dateString == FullText(t, off, form, sep) ==>
              (res == Ok((t.(date := FormDate(t.date, form)), off)) <==> !(form == ExtendedWeek && IsDigit(sep)))
    ensures res.Ok? ==>
      var (t, off) := res.value;
      IsDateTime(t) && IsOffsetOption(off) && FromIsoText(IsoText(t, off, 'T')) == res
    ensures res.Raise? ==> res.error == ValueError
    ensures |dateString| < 7 ==> res.Raise?
  {
    WholeContract(dateString);
    hide SeparatorOf, DateOf, TimeOf, Construct, IsoText, FormText, FullText, IsDateTime, IsOffsetOption, IsSupported;
    hide TextOf, FormDate, IsMeaning, ClockFormFields, IsDigitForm, IsZoneForm;
    if |dateString| < 7 {
      return Raise(ValueError);
    }
    var sep := FindSeparator(dateString);
    if sep.Raise? {
      return Raise(sep.error);
    }
    var date := DateOf(Take(dateString, sep.value));
    var tstr := Drop(dateString, sep.value + 1);
    if date.Raise? {
      return Raise(date.error);
    }
    if tstr == "" {
      return Construct(date.value, [0, 0, 0, 0], None);
    }
    var time := ParseIsoformatTime(tstr);
    if time.Raise? {
      return Raise(time.error);
    }
    TimeOfFields(tstr);
    if time.value.badOffset || time.value.badFields {
      return Raise(ValueError);
    }
    var day := if time.value.nextDay then NextDay(date.value) else date.value;
    return Construct(day, time.value.fields, time.value.offset);
  }
}
