/** Conversion between ints and decimal strings by splitting the digits in halves. */
module DecimalStrings {
  import opened Arithmetic
  import opened Bits
  import opened IntPowers
  import opened Numerals
  import opened Outcome
  import opened PowerTable

  /* ----- int to Decimal ----- */

  /** Rebuilds `n` from its bits with Decimal arithmetic, which is exact in the unbounded context. */
  function ToDecimal(n: nat, w: nat, bitLimit: nat, w2pow: map<nat, int>): (d: int)
    requires 0 < bitLimit && HasPowers(w2pow, 2, w, bitLimit, false)
    ensures d == n
    decreases w
  {
    if w <= bitLimit then n
    else
      HasPowersHalves(w2pow, 2, w, bitLimit, false);
      var w2 := Low(w);
      var hi := Shr(n, w2);
      var lo := BitAnd(n, Mask(w2));
      SplitLow(n, w2);
      ShlIsProduct(hi, w2);
      ToDecimal(lo, w2, bitLimit, w2pow) + ToDecimal(hi, w - w2, bitLimit, w2pow) * w2pow[w2]
  }

  method IntToDecimal(n: int, bitLimit: nat) returns (d: int)
    requires 0 < bitLimit
    ensures d == n
  {
    var m := if n < 0 then -n else n;
    var nbits := BitLength(m);
    var w2pow := PowersOfInt(nbits, 2, bitLimit, false);
    d := ToDecimal(m, nbits, bitLimit, w2pow);
    if n < 0 {
      d := -d;
    }
  }

  /* ----- int to string ----- */

  /** The digits of `n`, at least: a width estimate that is too large gives leading zeros. */
  function Render(n: nat, w: nat, digitLimit: nat, pow10: map<nat, int>): (s: string)
    requires 0 < digitLimit && HasPowers(pow10, 10, w, digitLimit, false)
    ensures IsNumeral(s) && DecimalValue(s) == n
    ensures 0 < w && n < Pow(10, w) ==> |s| <= w
    ensures digitLimit < w ==> 1 < |s|
    decreases w
  {
    if w <= digitLimit then
      if 0 < w && n < Pow(10, w) then StrLength(n, w); Str(n) else Str(n)
    else
      HasPowersHalves(pow10, 10, w, digitLimit, false);
      var w2 := Low(w);
      var hi, lo := n / pow10[w2], n % pow10[w2];
      SplitDecimal(n, w, w2);
      var left, right := Render(hi, w - w2, digitLimit, pow10), Render(lo, w2, digitLimit, pow10);
      JoinDecimal(n, w2, left, right);
      left + ZFill(right, w2)
  }

  lemma JoinDecimal(n: nat, w2: nat, left: string, right: string)
    requires IsNumeral(left) && DecimalValue(left) == n / Pow(10, w2)
    requires IsNumeral(right) && DecimalValue(right) == n % Pow(10, w2) && |right| <= w2
    ensures IsNumeral(left + ZFill(right, w2)) && DecimalValue(left + ZFill(right, w2)) == n
    ensures |ZFill(right, w2)| == w2
  {
    ZFillValue(right, w2);
    DecimalValueAppend(left, ZFill(right, w2));
    Shift10IsProduct(DecimalValue(left), w2);
    DivModFacts(n, Pow(10, w2));
  }

  lemma SplitDecimal(n: nat, w: nat, w2: nat)
    requires w2 <= w
    ensures var p := Pow(10, w2); n == n / p * p + n % p && 0 <= n / p && n % p < p
    ensures n < Pow(10, w) ==> n / Pow(10, w2) < Pow(10, w - w2)
  {
    var p := Pow(10, w2);
    DivModFacts(n, p);
    if n < Pow(10, w) {
      PowAdd(10, w2, w - w2);
      DivUpper(n, p, Pow(10, w - w2));
    }
  }

  /** The powers of 10 that the recursion needs, from those of 5: `5**k << k`. */
  method TenPowers(w: nat, limit: nat) returns (pow10: map<nat, int>)
    ensures HasPowers(pow10, 10, w, limit, false)
  {
    pow10 := PowersOfInt(w, 5, limit, false);
    ghost var pow5 := pow10;
    var keys := pow10.Keys;
    while keys != {}
      invariant keys <= pow10.Keys == pow5.Keys
      invariant forall k :: k in keys ==> pow10[k] == Pow(5, k)
      invariant forall k :: k in pow10 && k !in keys ==> pow10[k] == Pow(10, k)
    {
      var k :| k in keys;
      keys := keys - {k};
      ShiftedFive(k);
      pow10 := pow10[k := Shl(pow10[k], k)];
    }
  }

  lemma {:induction false} TenIsTwoFives(k: nat)
    ensures Pow(10, k) == Pow(5, k) * Pow(2, k)
  {
    if k != 0 {
      TenIsTwoFives(k - 1);
      MulTens(Pow(5, k - 1), Pow(2, k - 1));
    }
  }

  lemma MulTens(x: int, y: int)
    ensures (5 * x) * (2 * y) == 10 * (x * y)
  {
  }

  lemma ShiftedFive(k: nat)
    ensures Shl(Pow(5, k), k) == Pow(10, k)
  {
    ShlIsProduct(Pow(5, k), k);
    TenIsTwoFives(k);
  }

  /**
    The decimal string of `n`. `estimate` is the guessed number of digits, which may be too small or too large.
    The result is the canonical numeral exactly when `n` is not zero or the guess fits a single leaf; a larger
    guess leaves zero with several digits.
    */
  method IntToDecimalString(n: int, estimate: nat, digitLimit: nat, bitThreshold: nat, bitLimit: nat, haveDecimal: bool)
    returns (s: string)
    requires 0 < digitLimit && 0 < bitLimit
    ensures s == StrInt(n) <==> n != 0 || estimate <= digitLimit
    ensures n == 0 ==> IsNumeral(s) && DecimalValue(s) == 0
  {
    var m := if n < 0 then -n else n;
    if bitThreshold < BitLength(m) && haveDecimal {
      var d := IntToDecimal(n, bitLimit);
      return StrInt(d);
    }
    var pow10 := TenPowers(estimate, digitLimit);
    s := Render(m, estimate, digitLimit, pow10);
    if s[0] == '0' && n != 0 {
      LStripValue(s);
      s := LStripZeros(s);
    }
    if n != 0 {
      CanonicalUnique(s, Str(m));
    } else if estimate <= digitLimit {
      assert s == Str(0);
    } else {
      assert Str(0) == [DigitChar(0)];
    }
    if n < 0 {
      s := "-" + s;
    }
  }

  /* ----- string to int ----- */

  /** The value of the digits in `s[a..b]`; the shorter half is the low one. */
  function Combine(s: string, a: nat, b: nat, digitLimit: nat, w5pow: map<nat, int>): (v: int)
    requires 0 < digitLimit && a < b <= |s| && IsNumeral(s)
    requires HasPowers(w5pow, 5, b - a, digitLimit, false)
    ensures v == DecimalValue(s[a..b])
    decreases b - a
  {
    if b - a <= digitLimit then DecimalValue(s[a..b])
    else
      hide HasPowers, DecimalValue, Pow, Shl;
      var mid := (a + b + 1) / 2;
      MiddlePower(a, b, digitLimit, w5pow);
      var lo, hi := Combine(s, mid, b, digitLimit, w5pow), Combine(s, a, mid, digitLimit, w5pow);
      JoinSlices(s, a, mid, b, lo, hi, w5pow[b - mid]);
      lo + Shl(hi * w5pow[b - mid], b - mid)
  }

  lemma MiddlePower(a: nat, b: nat, digitLimit: nat, w5pow: map<nat, int>)
    requires 0 < digitLimit && a + digitLimit < b && HasPowers(w5pow, 5, b - a, digitLimit, false)
    ensures var mid := (a + b + 1) / 2;
      && a < mid < b && b - mid in w5pow && w5pow[b - mid] == Pow(5, b - mid)
      && HasPowers(w5pow, 5, b - mid, digitLimit, false) && HasPowers(w5pow, 5, mid - a, digitLimit, false)
  {
    hide HasPowers, Pow;
    var mid := (a + b + 1) / 2;
    assert b - mid == Low(b - a) && mid - a == High(b - a);
    HasPowersHalves(w5pow, 5, b - a, digitLimit, false);
  }

  lemma JoinSlices(s: string, a: nat, mid: nat, b: nat, lo: int, hi: int, p: int)
    requires a < mid < b <= |s| && IsNumeral(s)
    requires lo == DecimalValue(s[mid..b]) && hi == DecimalValue(s[a..mid]) && p == Pow(5, b - mid)
    ensures lo + Shl(hi * p, b - mid) == DecimalValue(s[a..b])
  {
    assert s[a..b] == s[a..mid] + s[mid..b];
    DecimalValueAppend(s[a..mid], s[mid..b]);
    ShiftByFives(DecimalValue(s[a..mid]), b - mid);
  }

  lemma ShiftByFives(v: int, k: nat)
    ensures Shl(v * Pow(5, k), k) == Shift10(v, k)
  {
    ShlIsProduct(v * Pow(5, k), k);
    Shift10IsProduct(v, k);
    TenIsTwoFives(k);
    MulAssoc(v, Pow(5, k), Pow(2, k));
  }

  /** The int that a string of digits stands for; the empty string is refused. */
  method StrToInt(s: string, digitLimit: nat) returns (res: Result<int>)
    requires 0 < digitLimit
    requires forall i :: 0 <= i < |s| ==> IsDigit(s[i])
    ensures res == if |s| == 0 then Raise(ValueError) else Ok(DecimalValue(s))
  {
    if |s| == 0 {
      return Raise(ValueError);
    }
    var w5pow := PowersOfInt(|s|, 5, digitLimit, false);
    assert s[0..|s|] == s;
    return Ok(Combine(s, 0, |s|, digitLimit, w5pow));
  }

  /** Printing and reading back gives the absolute value, whatever the width estimate and the leaf sizes. */
  method PrintThenRead(n: int, estimate: nat, printLimit: nat, readLimit: nat) returns (back: Result<int>)
    requires 0 < printLimit && 0 < readLimit
    ensures back == Ok(if n < 0 then -n else n)
  {
    var s := IntToDecimalString(n, estimate, printLimit, 0, 1, false);
    if n < 0 {
      assert s[1..] == Str(-n);
      s := s[1..];
    }
    back := StrToInt(s, readLimit);
  }

  /** Reading a numeral and printing the result gives the same string exactly when it has no leading zeros. */
  lemma ReadThenPrint(s: string)
    requires IsNumeral(s)
    ensures Str(DecimalValue(s)) == s <==> IsCanonical(s)
  {
    if IsCanonical(s) {
      CanonicalUnique(s, Str(DecimalValue(s)));
    }
  }
}
