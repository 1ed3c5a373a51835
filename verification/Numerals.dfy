/** Decimal numerals: strings of digits, the numbers they stand for, and the one canonical numeral of a number. */
module Numerals {
  import opened Arithmetic

  predicate IsDigit(c: char)
  {
    '0' <= c <= '9'
  }

  predicate IsNumeral(s: string)
  {
    |s| != 0 && forall i :: 0 <= i < |s| ==> IsDigit(s[i])
  }

  /** No leading zeros, except in "0" itself. */
  predicate IsCanonical(s: string)
  {
    IsNumeral(s) && (s[0] == '0' ==> |s| == 1)
  }

  function DigitValue(c: char): nat
    requires IsDigit(c)
  {
    c as nat - '0' as nat
  }

  function DigitChar(d: nat): (c: char)
    requires d < 10
    ensures IsDigit(c) && DigitValue(c) == d
  {
    ('0' as nat + d) as char
  }

  /** `v * 10**k`. */
  function Shift10(v: int, k: nat): int
    decreases k
  {
    if k == 0 then v else Shift10(10 * v, k - 1)
  }

  lemma {:induction false} Shift10IsProduct(v: int, k: nat)
    ensures Shift10(v, k) == v * Pow(10, k)
    decreases k
  {
    if k != 0 {
      Shift10IsProduct(10 * v, k - 1);
      MulAssoc(v, 10, Pow(10, k - 1));
    }
  }

  lemma Shift10Step(v: int, k: nat)
    ensures Shift10(v, k + 1) == 10 * Shift10(v, k)
  {
    Shift10IsProduct(v, k + 1);
    Shift10IsProduct(v, k);
    MulAssoc(v, 10, Pow(10, k));
  }

  /** The number that a string of digits stands for, most significant digit first. */
  function DecimalValue(s: string): nat
    requires forall i :: 0 <= i < |s| ==> IsDigit(s[i])
  {
    if |s| == 0 then 0 else 10 * DecimalValue(s[..|s| - 1]) + DigitValue(s[|s| - 1])
  }

  lemma {:induction false} DecimalValueAppend(s: string, t: string)
    requires forall i :: 0 <= i < |s| ==> IsDigit(s[i])
    requires forall i :: 0 <= i < |t| ==> IsDigit(t[i])
    ensures DecimalValue(s + t) == Shift10(DecimalValue(s), |t|) + DecimalValue(t)
  {
    if |t| == 0 {
      assert s + t == s;
    } else {
      assert (s + t)[..|s + t| - 1] == s + t[..|t| - 1];
      DecimalValueAppend(s, t[..|t| - 1]);
      Shift10Step(DecimalValue(s), |t| - 1);
    }
  }

  lemma {:induction false} DecimalValueBound(s: string)
    requires forall i :: 0 <= i < |s| ==> IsDigit(s[i])
    ensures DecimalValue(s) < Pow(10, |s|)
  {
    if |s| != 0 {
      DecimalValueBound(s[..|s| - 1]);
    }
  }

  /** Python's `str` of a non-negative int. */
  function Str(n: nat): (s: string)
    ensures IsCanonical(s) && DecimalValue(s) == n
  {
    if n < 10 then
      assert DecimalValue([DigitChar(n)][..0]) == 0;
      [DigitChar(n)]
    else
      var hi := Str(n / 10);
      assert (hi + [DigitChar(n % 10)])[..|hi|] == hi;
      assert hi != "0";
      hi + [DigitChar(n % 10)]
  }

  /** Python's `str` of any int. */
  function StrInt(n: int): string
  {
    if n < 0 then "-" + Str(-n) else Str(n)
  }

  /** A negative number is a minus sign and the numeral of its size; any other is its numeral alone. */
  lemma StrIntShape(n: int)
    ensures n < 0 ==> StrInt(n)[..1] == "-" && IsCanonical(StrInt(n)[1..]) && DecimalValue(StrInt(n)[1..]) == -n
    ensures n >= 0 ==> IsCanonical(StrInt(n)) && DecimalValue(StrInt(n)) == n
  {
    if n < 0 {
      assert StrInt(n)[1..] == Str(-n);
    }
  }

  lemma {:induction false} StrLength(n: nat, w: nat)
    requires 0 < w && n < Pow(10, w)
    ensures |Str(n)| <= w
  {
    if 10 <= n {
      StrLength(n / 10, w - 1);
    }
  }

  lemma CanonicalPositive(s: string)
    requires IsCanonical(s) && 1 < |s|
    ensures Pow(10, |s| - 1) <= DecimalValue(s)
    decreases |s|
  {
    var init := s[..|s| - 1];
    if |init| != 1 {
      CanonicalPositive(init);
    } else {
      assert init[..0] == "";
    }
  }

  /** Canonical numerals of the same number are the same string. */
  lemma {:induction false} CanonicalUnique(s: string, t: string)
    requires IsCanonical(s) && IsCanonical(t) && DecimalValue(s) == DecimalValue(t)
    ensures s == t
  {
    if |s| == 1 {
      CanonicalShort(s, t);
    } else if |t| == 1 {
      CanonicalShort(t, s);
    } else {
      var s', t' := s[..|s| - 1], t[..|t| - 1];
      CanonicalUnique(s', t');
      assert s == s' + [s[|s| - 1]] && t == t' + [t[|t| - 1]];
    }
  }

  lemma CanonicalShort(s: string, t: string)
    requires IsCanonical(s) && IsCanonical(t) && DecimalValue(s) == DecimalValue(t) && |s| == 1
    ensures s == t
  {
    assert s[..0] == "" && t[..0] == "";
    if |t| != 1 {
      PowMonotone(10, 1, |t| - 1);
      CanonicalPositive(t);
      assert false;
    }
  }

  /** Python's `str.zfill` on a string without a sign. */
  function ZFill(s: string, width: nat): string
    decreases width
  {
    if width <= |s| then s else "0" + ZFill(s, width - 1)
  }

  /** Python's `s.lstrip('0')`. */
  function LStripZeros(s: string): string
  {
    if |s| != 0 && s[0] == '0' then LStripZeros(s[1..]) else s
  }

  lemma LeadingZero(s: string)
    requires forall i :: 0 <= i < |s| ==> IsDigit(s[i])
    ensures forall i :: 0 <= i < |s| + 1 ==> IsDigit(("0" + s)[i])
    ensures DecimalValue("0" + s) == DecimalValue(s)
  {
    DecimalValueAppend("0", s);
    assert "0"[..0] == "";
    Shift10IsProduct(0, |s|);
  }

  lemma {:induction false} ZFillValue(s: string, width: nat)
    requires IsNumeral(s)
    ensures IsNumeral(ZFill(s, width)) && DecimalValue(ZFill(s, width)) == DecimalValue(s)
    ensures |ZFill(s, width)| == if width <= |s| then |s| else width
    decreases width
  {
    if |s| < width {
      ZFillValue(s, width - 1);
      LeadingZero(ZFill(s, width - 1));
    }
  }

  lemma {:induction false} LStripValue(s: string)
    requires IsNumeral(s) && DecimalValue(s) != 0
    ensures IsCanonical(LStripZeros(s)) && DecimalValue(LStripZeros(s)) == DecimalValue(s)
  {
    if s[0] == '0' {
      assert s == "0" + s[1..];
      LeadingZero(s[1..]);
      LStripValue(s[1..]);
    }
  }
}
