/** What the printed texts are, character by character, without reference to the parser. */
module IsoShapes {
  import opened Arithmetic
  import opened Calendar
  import opened DateTimes
  import opened IsoFormat
  import opened Numerals
  import opened Outcome
  import opened TimeDeltas

  /** Characters `i` to `i + k` are the digits of `v`. */
  predicate DigitsAt(s: string, i: nat, k: nat, v: int)
  {
    i + k <= |s| && AllDigits(s[i..i + k]) && DecimalValue(s[i..i + k]) == v
  }

  lemma PadDigits(n: nat, width: nat)
    requires 0 < width && n < Pow(10, width)
    ensures |Pad(n, width)| == width && AllDigits(Pad(n, width)) && DecimalValue(Pad(n, width)) == n
  {
    StrLength(n, width);
    ZFillValue(Str(n), width);
  }

  lemma FieldAt(before: string, n: nat, width: nat, after: string)
    requires 0 < width && n < Pow(10, width)
    ensures DigitsAt(before + Pad(n, width) + after, |before|, width, n)
  {
    hide Pad, DecimalValue;
    PadDigits(n, width);
    var s := before + Pad(n, width) + after;
    assert s[|before|..|before| + width] == Pad(n, width);
  }

  /** YYYY-MM-DD. */
  lemma DateTextShape(d: Ymd)
    requires 0 <= d.year < 10000 && 0 <= d.month < 100 && 0 <= d.day < 100
    ensures var s := DateText(d);
      && |s| == 10 && DigitsAt(s, 0, 4, d.year) && s[4] == '-' && DigitsAt(s, 5, 2, d.month)
      && s[7] == '-' && DigitsAt(s, 8, 2, d.day)
  {
    hide Pad, DigitsAt;
    assert Pow(10, 4) == 10000 && Pow(10, 2) == 100;
    var y, m, e := Pad(d.year, 4), Pad(d.month, 2), Pad(d.day, 2);
    PadDigits(d.year, 4);
    PadDigits(d.month, 2);
    PadDigits(d.day, 2);
    var s := DateText(d);
    FieldAt("", d.year, 4, "-" + m + "-" + e);
    FieldAt(y + "-", d.month, 2, "-" + e);
    FieldAt(y + "-" + m + "-", d.day, 2, "");
    assert s == "" + y + ("-" + m + "-" + e);
    assert s == (y + "-") + m + ("-" + e);
    assert s == (y + "-" + m + "-") + e + "";
  }

  /** HH:MM, and :SS only if asked for, and then .ffffff only if there are microseconds. */
  lemma ClockTextShape(hour: nat, minute: nat, second: nat, us: nat, withSeconds: bool)
    requires hour < 100 && minute < 100 && second < 100 && us < 1000000
    ensures var s := ClockText(hour, minute, second, us, withSeconds);
      && |s| == (if !withSeconds then 5 else if us == 0 then 8 else 15)
      && DigitsAt(s, 0, 2, hour) && s[2] == ':' && DigitsAt(s, 3, 2, minute)
      && (withSeconds ==> s[5] == ':' && DigitsAt(s, 6, 2, second))
      && (withSeconds && us != 0 ==> s[8] == '.' && DigitsAt(s, 9, 6, us))
  {
    hide Pad, DigitsAt;
    assert Pow(10, 2) == 100 && Pow(10, 6) == 1000000;
    var h, m, sec, f := Pad(hour, 2), Pad(minute, 2), Pad(second, 2), Pad(us, 6);
    PadDigits(hour, 2);
    PadDigits(minute, 2);
    PadDigits(second, 2);
    PadDigits(us, 6);
    var s := ClockText(hour, minute, second, us, withSeconds);
    var fraction := if us != 0 then "." + f else "";
    var tail := if withSeconds then ":" + sec + fraction else "";
    assert s == "" + h + (":" + m + tail);
    FieldAt("", hour, 2, ":" + m + tail);
    assert s == (h + ":") + m + tail;
    FieldAt(h + ":", minute, 2, tail);
    if withSeconds {
      assert s == (h + ":" + m + ":") + sec + fraction;
      FieldAt(h + ":" + m + ":", second, 2, fraction);
      if us != 0 {
        assert s == (h + ":" + m + ":" + sec + ".") + f + "";
        FieldAt(h + ":" + m + ":" + sec + ".", us, 6, "");
      }
    }
  }

  /** Nothing without an offset; else a sign, and the offset's size with only the parts that it needs. */
  lemma FormatOffsetShape(off: TimeDelta)
    requires IsOffset(off)
    ensures FormatOffset(None) == ""
    ensures var s := FormatOffset(Some(off));
      var size := if Micros(off) < 0 then -Micros(off) else Micros(off);
      && |s| == (if size % 60000000 == 0 then 6 else if size % 1000000 == 0 then 9 else 16)
      && s[0] == (if Micros(off) < 0 then '-' else '+')
      && DigitsAt(s, 1, 2, size / 3600000000) && s[3] == ':' && DigitsAt(s, 4, 2, size / 60000000 % 60)
      && (9 <= |s| ==> s[6] == ':' && DigitsAt(s, 7, 2, size / 1000000 % 60))
      && (16 <= |s| ==> s[9] == '.' && DigitsAt(s, 10, 6, size % 1000000))
  {
    NoOffsetPrinted();
    hide FormatOffset, ClockText, IsOffset, DigitsAt, Micros;
    var size, hh, mm, s, us := OffsetParts(off);
    SizeParts(size, hh, mm, s, us);
    var withSeconds := s != 0 || us != 0;
    var sign, clock := if Micros(off) < 0 then "-" else "+", ClockText(hh, mm, s, us, withSeconds);
    ClockTextShape(hh, mm, s, us, withSeconds);
    Shifted(sign, clock, 0, 2, hh);
    Shifted(sign, clock, 3, 2, mm);
    if withSeconds {
      Shifted(sign, clock, 6, 2, s);
      if us != 0 {
        Shifted(sign, clock, 9, 6, us);
      }
    }
  }

  lemma NoOffsetPrinted()
    ensures FormatOffset(None) == ""
  {
  }

  lemma OffsetParts(off: TimeDelta) returns (size: int, hh: nat, mm: nat, s: nat, us: nat)
    requires IsOffset(off)
    ensures size == (if Micros(off) < 0 then -Micros(off) else Micros(off))
    ensures hh < 24 && mm < 60 && s < 60 && us < 1000000 && size == (hh * 3600 + mm * 60 + s) * 1000000 + us
    ensures FormatOffset(Some(off)) ==
            (if Micros(off) < 0 then "-" else "+") + ClockText(hh, mm, s, us, s != 0 || us != 0)
  {
    hide SplitOffset, ClockText;
    var parts := SplitOffset(off);
    MicrosBound(off);
    MicrosBound(parts.2);
    size := if Micros(off) < 0 then -Micros(off) else Micros(off);
    hh, mm, s, us := parts.0, parts.1, parts.2.seconds, parts.2.microseconds;
  }

  lemma SizeParts(size: int, h: int, m: int, s: int, us: int)
    requires 0 <= h < 24 && 0 <= m < 60 && 0 <= s < 60 && 0 <= us < 1000000
    requires size == (h * 3600 + m * 60 + s) * 1000000 + us
    ensures size / 3600000000 == h && size / 60000000 % 60 == m && size / 1000000 % 60 == s && size % 1000000 == us
    ensures size % 60000000 == s * 1000000 + us
  {
    assert size / 60000000 == h * 60 + m;
    assert size / 1000000 == h * 3600 + m * 60 + s;
  }

  lemma Shifted(sign: string, s: string, i: nat, k: nat, v: int)
    requires |sign| == 1 && DigitsAt(s, i, k, v)
    ensures DigitsAt(sign + s, i + 1, k, v)
  {
    assert (sign + s)[i + 1..i + 1 + k] == s[i..i + k];
  }
}
