/** Burnikel-Ziegler division of big integers, with the base-2**n digit splitter and joiner it rests on. */
module FastDivision {
  import opened Arithmetic
  import opened Bits
  import opened Outcome

  /* ----- dividing 2n bits by n bits ----- */

  /** Divides `a` by the `n`-bit `b`. Operands whose quotient has at most `limit` bits go to `divmod`. */
  method Div2n1n(a: nat, b: nat, n: nat, limit: nat) returns (q: nat, r: nat)
    requires 0 < n && BitLength(b) == n
    requires a < Pow(2, n) * b
    ensures a == b * q + r && r < b && q < Pow(2, n)
    decreases n, 0
  {
    hide Pow, Shl, Shr, BitAnd, BitLength;
    if BitLength(a) - n <= limit {
      q, r := DivModBuiltin(a, b);
    } else {
      WideEnough(a, b, n);
      HalfWidth(n);
      var pad := BitAnd(n, 1);
      if pad == 1 {
        PadOperands(a, b, n);
        q, r := DivideHalves(Shl(a, 1), Shl(b, 1), n + 1, limit);
        UnpadRemainder(a, b, Shl(a, 1), Shl(b, 1), q, r);
        r := Shr(r, 1);
      } else {
        q, r := DivideHalves(a, b, n, limit);
      }
    }
    QuotientBound(a, b, q, r, Pow(2, n));
  }

  /** The two half-width steps of `Div2n1n`, once the width `n` is even. */
  method DivideHalves(a: nat, b: nat, n: nat, limit: nat) returns (q: nat, r: nat)
    requires 0 < n && n % 2 == 0 && BitLength(b) == n
    requires a < Pow(2, n) * b
    ensures a == b * q + r && r < b
    decreases n / 2, 2
  {
    HalfWidth(n);
    var half := Shr(n, 1);
    var b1, b2 := Shr(b, half), BitAnd(b, Mask(half));
    SplitDivisor(b, n, half);
    var a12, a3, a4 := Shr(a, n), BitAnd(Shr(a, half), Mask(half)), BitAnd(a, Mask(half));
    ShrBelow(a, b, n);
    SplitLow(a, half);
    SplitLow(Shr(a, half), half);
    ShrTwice(a, half, half);
    var q1, r1, _ := Div3n2n(a12, a3, b, b1, b2, half, limit);
    var q2, r2, _ := Div3n2n(r1, a4, b, b1, b2, half, limit);
    CombineHalves(a, b, half, Shr(a, half), a4, q1, r1, q2, r2);
    q, r := BitOr(Shl(q1, half), q2), r2;
  }

  /** Divides the 3n-bit `a12 << n | a3` by the 2n-bit `b == b1 << n | b2`; at most two corrections are needed. */
  method Div3n2n(a12: nat, a3: nat, b: nat, b1: nat, b2: nat, n: nat, limit: nat)
    returns (q: nat, r: nat, ghost corrections: nat)
    requires 0 < n && BitLength(b1) == n
    requires a3 < Pow(2, n) && b2 < Pow(2, n) && b == Shl(b1, n) + b2
    requires a12 < b
    ensures Shl(a12, n) + a3 == b * q + r && r < b && q < Pow(2, n)
    ensures corrections <= 2
    decreases n, 1
  {
    hide Pow, Shl, Shr, BitLength, BitOr;
    var qe: int, re: int;
    TopDigit(a12, b1, b2, n);
    if Shr(a12, n) == b1 {
      qe, re := Shl(1, n) - 1, a12 - Shl(b1, n) + b1;
    } else {
      qe, re := Div2n1n(a12, b1, n, limit);
    }
    EstimateBounds(a12, a3, b, b1, b2, n, qe, re);
    OrIsSum(re, a3, n);
    re := BitOr(Shl(re, n), a3) - qe * b2;
    corrections := 0;
    while re < 0
      invariant Shl(a12, n) + a3 == b * qe + re
      invariant re < b && qe < Pow(2, n)
      invariant corrections <= 2 && corrections * b - 2 * b <= re
      decreases -re
    {
      MulSucc(b, qe - 1);
      qe := qe - 1;
      re := re + b;
      corrections := corrections + 1;
    }
    ShlNonNegative(a12, n);
    QuotientNonNegative(Shl(a12, n) + a3, b, qe, re);
    q, r := qe, re;
  }

  method DivModBuiltin(a: nat, b: nat) returns (q: nat, r: nat)
    requires 0 < b
    ensures a == b * q + r && r < b
  {
    DivModFacts(a, b);
    q, r := a / b, a % b;
  }

  lemma QuotientNonNegative(a: nat, b: nat, q: int, r: int)
    requires a == b * q + r && r < b
    ensures 0 <= q
  {
    if q < 0 {
      MulMonotone(b, q, -1);
    }
  }

  lemma QuotientBound(a: nat, b: nat, q: nat, r: nat, m: nat)
    requires a == b * q + r && a < m * b
    ensures q < m
  {
    if m <= q {
      MulMonotone(b, m, q);
    }
  }

  lemma HalfWidth(n: nat)
    ensures BitAnd(n, 1) == n % 2
    ensures n == 2 * Shr(n, 1) + n % 2 && n + 1 == 2 * Shr(n + 1, 1) + (n + 1) % 2
  {
    assert BitAnd(n, 1) == 2 * BitAnd(n / 2, 0) + n % 2;
    AndZero(n / 2);
    assert Shr(n, 1) == Shr(n / 2, 0) && Shr(n + 1, 1) == Shr((n + 1) / 2, 0);
  }

  /** Recursion is only reached for at least two bits, so halving makes the width smaller even after padding. */
  lemma WideEnough(a: nat, b: nat, n: nat)
    requires 0 < n && BitLength(b) == n && a < Pow(2, n) * b && 0 < BitLength(a) - n
    ensures 2 <= n
  {
    if n == 1 {
      BitLengthExact(b, 1);
      BitLengthBound(a, 1);
    }
  }

  lemma PadOperands(a: nat, b: nat, n: nat)
    requires BitLength(b) == n && a < Pow(2, n) * b
    ensures 0 < b && Shl(a, 1) == 2 * a && Shl(b, 1) == 2 * b
    ensures BitLength(2 * b) == n + 1 && 2 * a < Pow(2, n + 1) * (2 * b)
  {
    PadProduct(a, Pow(2, n), b);
    assert Shl(a, 1) == Shl(2 * a, 0) && Shl(b, 1) == Shl(2 * b, 0);
    assert 2 * b / 2 == b;
  }

  lemma PadProduct(a: nat, p: nat, b: nat)
    requires a < p * b
    ensures 0 < b && 2 * a < (2 * p) * (2 * b)
  {
    MulAssoc(2 * p, 2, b);
  }

  lemma SplitDivisor(b: nat, n: nat, half: nat)
    requires 0 < half && n == 2 * half && BitLength(b) == n
    ensures BitLength(Shr(b, half)) == half
    ensures BitAnd(b, Mask(half)) < Pow(2, half)
    ensures b == Shl(Shr(b, half), half) + BitAnd(b, Mask(half))
  {
    SplitLow(b, half);
    BitLengthShr(b, half);
  }

  lemma {:induction false} BitLengthShr(b: nat, k: nat)
    requires k <= BitLength(b)
    ensures BitLength(Shr(b, k)) == BitLength(b) - k
    decreases k
  {
    if k != 0 {
      BitLengthShr(b / 2, k - 1);
    }
  }

  lemma {:induction false} ShrTwice(a: nat, j: nat, k: nat)
    ensures Shr(Shr(a, j), k) == Shr(a, j + k)
    decreases j
  {
    if j != 0 {
      ShrTwice(a / 2, j - 1, k);
    }
  }

  lemma CombineHalves(a: nat, b: nat, half: nat, top: int, low: nat, q1: nat, r1: nat, q2: nat, r2: nat)
    requires top == b * q1 + r1 && Shl(r1, half) + low == b * q2 + r2
    requires a == Shl(top, half) + low && q2 < Pow(2, half)
    ensures 0 <= Shl(q1, half)
    ensures a == b * BitOr(Shl(q1, half), q2) + r2
  {
    OrIsSum(q1, q2, half);
    ShlIsProduct(top, half);
    ShlIsProduct(r1, half);
    ShlIsProduct(q1, half);
    CombineProducts(b, Pow(2, half), q1, r1, q2, r2, low);
  }

  lemma CombineProducts(b: int, p: int, q1: int, r1: int, q2: int, r2: int, low: int)
    requires r1 * p + low == b * q2 + r2
    ensures (b * q1 + r1) * p + low == b * (q1 * p + q2) + r2
  {
    MulAssoc(b, q1, p);
  }

  /** The remainder of the padded operands is even, so shifting it back loses nothing. */
  lemma UnpadRemainder(a: nat, b: nat, a': nat, b': nat, q: nat, r: nat)
    requires a' == 2 * a && b' == 2 * b && a' == b' * q + r && r < b'
    ensures r % 2 == 0 && a == b * q + Shr(r, 1) && Shr(r, 1) < b
  {
    MulAssoc(2, b, q);
    assert r == 2 * (a - b * q);
    assert Shr(r, 1) == Shr(r / 2, 0);
  }

  /** The top digit of `a12` never exceeds `b1`: either it equals it, or the recursive call's bound holds. */
  lemma TopDigit(a12: nat, b1: nat, b2: nat, n: nat)
    requires b2 < Pow(2, n) && a12 < Shl(b1, n) + b2
    ensures 0 < Shl(1, n) == Pow(2, n)
    ensures Shr(a12, n) != b1 ==> a12 < Pow(2, n) * b1
    ensures Shr(a12, n) == b1 ==> Shl(b1, n) <= a12 && a12 == b1 * (Shl(1, n) - 1) + (a12 - Shl(b1, n) + b1)
  {
    ShlIsProduct(1, n);
    ShlIsProduct(b1, n);
    SplitLow(a12, n);
    ShlIsProduct(Shr(a12, n), n);
    TopQuotient(a12, b1, Shr(a12, n), BitAnd(a12, Mask(n)), Pow(2, n));
  }

  lemma TopQuotient(a12: nat, b1: nat, top: nat, low: nat, p: nat)
    requires 0 < p && low < p && a12 == top * p + low && a12 < b1 * p + p
    ensures top != b1 ==> a12 < p * b1
    ensures top == b1 ==> b1 * p <= a12 && a12 == b1 * (p - 1) + (a12 - b1 * p + b1)
  {
    MulSucc(p, b1);
    MulCancelLess(p, top, b1 + 1);
    MulSucc(b1, p - 1);
    if top < b1 {
      MulMonotone(p, top + 1, b1);
    }
  }

  /** The estimate from the top halves is never too small, and at most two too large. */
  lemma EstimateBounds(a12: nat, a3: nat, b: nat, b1: nat, b2: nat, n: nat, q: int, r: int)
    requires 0 < n && BitLength(b1) == n && a3 < Pow(2, n) && b2 < Pow(2, n) && b == Shl(b1, n) + b2
    requires a12 < b && a12 == b1 * q + r && 0 <= r && 0 <= q < Pow(2, n)
    requires q == Pow(2, n) - 1 || r < b1
    ensures Shl(a12, n) + a3 == b * q + (Shl(r, n) + a3 - q * b2)
    ensures -2 * b <= Shl(r, n) + a3 - q * b2 < b
  {
    var p := Pow(2, n);
    ShlIsProduct(b1, n);
    ShlIsProduct(a12, n);
    ShlIsProduct(r, n);
    BitLengthExact(b1, n);
    EstimateArithmetic(a12, a3, b, b1, b2, p, q, r);
  }

  lemma EstimateArithmetic(a12: int, a3: int, b: int, b1: int, b2: int, p: int, q: int, r: int)
    requires 0 < p <= 2 * b1 && 0 <= a3 < p && 0 <= b2 < p && b == b1 * p + b2
    requires a12 < b && a12 == b1 * q + r && 0 <= r && 0 <= q < p
    requires q == p - 1 || r < b1
    ensures a12 * p + a3 == b * q + (r * p + a3 - q * b2)
    ensures -2 * b <= r * p + a3 - q * b2 < b
  {
    EstimateIdentity(a12, b1, b2, p, q, r);
    EstimateLower(b1, b2, p, q);
    MulMonotone(p, 0, r);
    EstimateUpper(a12, a3, b, b1, b2, p, q, r);
  }

  lemma EstimateIdentity(a12: int, b1: int, b2: int, p: int, q: int, r: int)
    requires a12 == b1 * q + r
    ensures a12 * p == (b1 * p + b2) * q + (r * p - q * b2)
  {
    MulAssoc(b1, q, p);
    MulAssoc(b1, p, q);
  }

  lemma EstimateLower(b1: int, b2: int, p: int, q: int)
    requires 0 < p <= 2 * b1 && 0 <= b2 < p && 0 <= q < p
    ensures q * b2 <= 2 * (b1 * p + b2)
  {
    MulMonotone(q, b2, p);
    MulMonotone(p, q, 2 * b1);
    MulAssoc(2, b1, p);
  }

  lemma EstimateUpper(a12: int, a3: int, b: int, b1: int, b2: int, p: int, q: int, r: int)
    requires 0 <= a3 < p && 0 <= b2 && b == b1 * p + b2 && 0 <= q
    requires a12 < b && a12 * p == b * q + (r * p - q * b2)
    requires q == p - 1 || r < b1
    ensures r * p + a3 - q * b2 < b
  {
    MulMonotone(q, 0, b2);
    if r < b1 {
      MulMonotone(p, r + 1, b1);
    } else {
      MulMonotone(p, a12 + 1, b);
      MulSucc(b, p - 1);
    }
  }

  /* ----- base-2**n digits ----- */

  ghost predicate IsDigits(ds: seq<nat>, n: nat)
  {
    forall i :: 0 <= i < |ds| ==> ds[i] < Pow(2, n)
  }

  /** No leading zeros: the most significant digit, which is the last, is not zero. */
  ghost predicate IsNormal(ds: seq<nat>)
  {
    |ds| != 0 ==> ds[|ds| - 1] != 0
  }

  /** The number that little-endian base-2**n digits stand for. */
  ghost function DigitsValue(ds: seq<nat>, n: nat): int
  {
    if |ds| == 0 then 0 else ds[0] + Shl(DigitsValue(ds[1..], n), n)
  }

  /** The bits that `count` digits of width `n` occupy. */
  ghost function Width(count: nat, n: nat): (w: nat)
  {
    if count == 0 then 0 else n + Width(count - 1, n)
  }

  lemma {:induction false} WidthIsProduct(count: nat, n: nat)
    ensures Width(count, n) == count * n
  {
    if count != 0 {
      WidthIsProduct(count - 1, n);
      MulSucc(n, count - 1);
    }
  }

  lemma {:induction false} WidthSum(i: nat, j: nat, n: nat)
    ensures Width(i + j, n) == Width(i, n) + Width(j, n)
  {
    if i != 0 {
      WidthSum(i - 1, j, n);
      assert i + j - 1 == i - 1 + j;
    }
  }

  lemma {:induction false} DigitsValueAppend(xs: seq<nat>, ys: seq<nat>, n: nat)
    ensures DigitsValue(xs + ys, n) == DigitsValue(xs, n) + Shl(DigitsValue(ys, n), Width(|xs|, n))
  {
    if |xs| == 0 {
      assert xs + ys == ys;
    } else {
      var y, w := DigitsValue(ys, n), Width(|xs[1..]|, n);
      assert (xs + ys)[1..] == xs[1..] + ys;
      DigitsValueAppend(xs[1..], ys, n);
      ShlSum(DigitsValue(xs[1..], n), Shl(y, w), n);
      ShlShl(y, w, n);
    }
  }

  lemma {:induction false} DigitsValueBound(ds: seq<nat>, n: nat)
    requires IsDigits(ds, n)
    ensures 0 <= DigitsValue(ds, n) < Pow(2, Width(|ds|, n))
  {
    if |ds| != 0 {
      DigitsValueBound(ds[1..], n);
      DigitCarry(ds[0], DigitsValue(ds[1..], n), n, Width(|ds| - 1, n));
    }
  }

  lemma DigitCarry(digit: nat, v: nat, n: nat, w: nat)
    requires digit < Pow(2, n) && v < Pow(2, w)
    ensures 0 <= digit + Shl(v, n) < Pow(2, n + w)
  {
    ShlIsProduct(v + 1, n);
    ShlSum(v, 1, n);
    ShlIsProduct(1, n);
    ShlNonNegative(v, n);
    PowAdd(2, n, w);
    MulMonotone(Pow(2, n), v + 1, Pow(2, w));
  }

  /** A number has only one normal list of digits. */
  lemma {:induction false} DigitsUnique(xs: seq<nat>, ys: seq<nat>, n: nat)
    requires IsDigits(xs, n) && IsDigits(ys, n) && IsNormal(xs) && IsNormal(ys)
    requires DigitsValue(xs, n) == DigitsValue(ys, n)
    ensures xs == ys
  {
    if |xs| == 0 || |ys| == 0 {
      if |xs| != 0 {
        NormalPositive(xs, n);
      } else if |ys| != 0 {
        NormalPositive(ys, n);
      }
    } else {
      ShiftedDigitUnique(xs[0], DigitsValue(xs[1..], n), ys[0], DigitsValue(ys[1..], n), n);
      DigitsUnique(xs[1..], ys[1..], n);
      assert xs == [xs[0]] + xs[1..] && ys == [ys[0]] + ys[1..];
    }
  }

  lemma ShiftedDigitUnique(d: nat, v: int, d': nat, v': int, n: nat)
    requires d < Pow(2, n) && d' < Pow(2, n) && d + Shl(v, n) == d' + Shl(v', n)
    ensures d == d' && v == v'
  {
    ShlIsProduct(v, n);
    ShlIsProduct(v', n);
    DivModUnique(d + Shl(v, n), Pow(2, n), v, d);
    DivModUnique(d + Shl(v, n), Pow(2, n), v', d');
  }

  lemma {:induction false} NormalPositive(ds: seq<nat>, n: nat)
    requires |ds| != 0 && IsNormal(ds)
    ensures 0 < DigitsValue(ds, n)
  {
    if |ds| == 1 {
      ShlIsProduct(0, n);
    } else {
      NormalPositive(ds[1..], n);
      ShlPositive(DigitsValue(ds[1..], n), n);
    }
  }

  lemma ShlPositive(a: nat, k: nat)
    requires 0 < a
    ensures 0 < Shl(a, k)
  {
    ShlIsProduct(a, k);
    MulPositive(a, Pow(2, k));
  }

  /** Splits `a` into base-2**n digits, least significant first, filling one array in place. */
  method Int2Digits(a: nat, n: nat) returns (digits: array<nat>)
    requires 0 < n
    ensures fresh(digits)
    ensures IsDigits(digits[..], n) && IsNormal(digits[..])
    ensures DigitsValue(digits[..], n) == a
  {
    var len := (BitLength(a) + n - 1) / n;
    digits := new nat[len](_ => 0);
    DigitCount(a, n, len);
    if a != 0 {
      FillDigits(digits, a, 0, len, n);
      assert digits[..] == digits[0..len];
      TopDigitNonZero(digits[..], n);
    }
  }

  method FillDigits(digits: array<nat>, x: nat, left: nat, right: nat, n: nat)
    requires left < right <= digits.Length
    requires x < Pow(2, Width(right - left, n))
    modifies digits
    ensures digits[..left] == old(digits[..left]) && digits[right..] == old(digits[right..])
    ensures IsDigits(digits[left..right], n) && DigitsValue(digits[left..right], n) == x
    decreases right - left
  {
    hide DigitsValue, Width, Pow, Shl, Shr, BitXor, IsDigits;
    if left + 1 == right {
      digits[left] := x;
      assert digits[left..right] == [x];
      SingleDigit(x, n);
    } else {
      var mid := (left + right) / 2;
      WidthIsProduct(mid - left, n);
      var shift := (mid - left) * n;
      var upper := Shr(x, shift);
      ShlNonNegative(upper, shift);
      var lower := BitXor(x, Shl(upper, shift));
      SplitAt(x, mid - left, right - mid, n);
      FillDigits(digits, lower, left, mid, n);
      ghost var lowDigits := digits[left..mid];
      FillDigits(digits, upper, mid, right, n);
      assert digits[left..mid] == digits[..mid][left..mid] == lowDigits;
      assert digits[left..right] == lowDigits + digits[mid..right];
      DigitsValueAppend(lowDigits, digits[mid..right], n);
      DigitsTogether(lowDigits, digits[mid..right], n);
    }
  }

  lemma SingleDigit(x: nat, n: nat)
    requires x < Pow(2, Width(1, n))
    ensures IsDigits([x], n) && DigitsValue([x], n) == x
  {
    ShlIsProduct(0, n);
    assert DigitsValue([x][1..], n) == 0;
    assert Width(1, n) == n + Width(0, n);
  }

  lemma DigitsTogether(xs: seq<nat>, ys: seq<nat>, n: nat)
    requires IsDigits(xs, n) && IsDigits(ys, n)
    ensures IsDigits(xs + ys, n)
  {
  }

  lemma SplitAt(x: nat, low: nat, high: nat, n: nat)
    requires x < Pow(2, Width(low + high, n))
    ensures var shift := Width(low, n);
      && Shr(x, shift) < Pow(2, Width(high, n))
      && 0 <= Shl(Shr(x, shift), shift) <= x
      && BitXor(x, Shl(Shr(x, shift), shift)) == x - Shl(Shr(x, shift), shift) < Pow(2, shift)
  {
    var shift := Width(low, n);
    WidthSum(low, high, n);
    PowAdd(2, shift, Width(high, n));
    ShrBelow(x, Pow(2, Width(high, n)), shift);
    SplitLow(x, shift);
    XorClearsHigh(Shr(x, shift), BitAnd(x, Mask(shift)), shift);
  }

  lemma DigitCount(a: nat, n: nat, len: nat)
    requires 0 < n && len == (BitLength(a) + n - 1) / n
    ensures a < Pow(2, Width(len, n))
    ensures a != 0 ==> 0 < len && Pow(2, Width(len - 1, n)) <= a
    ensures a == 0 ==> len == 0
  {
    CeilDiv(BitLength(a), n, len);
    BitLengthBound(a, Width(len, n));
    if a != 0 {
      BitLengthBound(a, Width(len - 1, n));
    }
  }

  lemma CeilDiv(bits: nat, n: nat, len: nat)
    requires 0 < n && len == (bits + n - 1) / n
    ensures bits <= Width(len, n)
    ensures bits == 0 ==> len == 0
    ensures bits != 0 ==> 0 < len && Width(len - 1, n) < bits
  {
    DivModFacts(bits + n - 1, n);
    WidthIsProduct(len, n);
    if bits == 0 {
      DivModUnique(n - 1, n, 0, n - 1);
    } else if len != 0 {
      WidthIsProduct(len - 1, n);
      MulSucc(n, len - 1);
    }
  }

  lemma TopDigitNonZero(ds: seq<nat>, n: nat)
    requires 0 < |ds| && IsDigits(ds, n) && Pow(2, Width(|ds| - 1, n)) <= DigitsValue(ds, n)
    ensures IsNormal(ds)
  {
    var init, last := ds[..|ds| - 1], ds[|ds| - 1];
    if last == 0 {
      assert ds == init + [last];
      DigitsValueAppend(init, [last], n);
      ShlIsProduct(0, n);
      ShlIsProduct(0, Width(|init|, n));
      assert DigitsValue([last], n) == last + Shl(DigitsValue([], n), n);
      DigitsValueBound(init, n);
    }
  }

  /** Joins base-2**n digits; the inverse of `Int2Digits`. */
  function Digits2Int(digits: seq<nat>, n: nat): (r: int)
    ensures r == DigitsValue(digits, n)
  {
    if |digits| == 0 then 0
    else
      assert digits[0..|digits|] == digits;
      JoinDigits(digits, 0, |digits|, n)
  }

  function JoinDigits(digits: seq<nat>, left: nat, right: nat, n: nat): (r: int)
    requires left < right <= |digits|
    ensures r == DigitsValue(digits[left..right], n)
    decreases right - left
  {
    if left + 1 == right then
      ShlIsProduct(0, n);
      assert digits[left..right][1..] == [];
      digits[left]
    else
      var mid := (left + right) / 2;
      WidthIsProduct(mid - left, n);
      var shift := (mid - left) * n;
      DigitsValueAppend(digits[left..mid], digits[mid..right], n);
      assert digits[left..mid] + digits[mid..right] == digits[left..right];
      Shl(JoinDigits(digits, mid, right, n), shift) + JoinDigits(digits, left, mid, n)
  }

  /* ----- whole division ----- */

  function Reversed(s: seq<nat>): seq<nat>
  {
    seq(|s|, i requires 0 <= i < |s| => s[|s| - 1 - i])
  }

  /** School division in base 2**n, where n is the width of `b`; every quotient digit fits in n bits. */
  method DivmodPos(a: nat, b: nat, limit: nat) returns (q: nat, r: nat)
    requires 0 < b
    ensures a == b * q + r && r < b
  {
    hide Pow, Shl, IsNormal, DigitsValue, Reversed;
    var n := BitLength(b);
    var digits := Int2Digits(a, n);
    var aDigits: seq<nat> := digits[..];
    r := 0;
    var qDigits: seq<nat> := [];
    var i := |aDigits|;
    NoDigits(n);
    assert aDigits[i..] == [] && b * 0 == 0;
    while 0 < i
      invariant 0 <= i <= |aDigits|
      invariant r < b && IsDigits(qDigits, n) && |qDigits| == |aDigits| - i
      invariant DigitsValue(aDigits[i..], n) == b * DigitsValue(Reversed(qDigits), n) + r
    {
      i := i - 1;
      NextDividend(r, aDigits[i], b, n);
      var qDigit, r' := Div2n1n(Shl(r, n) + aDigits[i], b, n, limit);
      DigitAbove(aDigits, i, n);
      DigitAppended(qDigits, qDigit, n);
      SchoolStep(b, n, DigitsValue(Reversed(qDigits), n), r, aDigits[i], qDigit, r');
      qDigits, r := qDigits + [qDigit], r';
    }
    assert aDigits[0..] == aDigits;
    ReversedDigits(qDigits, n);
    qDigits := Reversed(qDigits);
    DigitsValueBound(qDigits, n);
    q := Digits2Int(qDigits, n);
  }

  lemma NoDigits(n: nat)
    ensures DigitsValue([], n) == 0 && Reversed([]) == []
  {
  }

  lemma DigitAbove(ds: seq<nat>, i: nat, n: nat)
    requires i < |ds|
    ensures DigitsValue(ds[i..], n) == ds[i] + Shl(DigitsValue(ds[i + 1..], n), n)
  {
    assert ds[i..][1..] == ds[i + 1..];
  }

  lemma DigitAppended(ds: seq<nat>, d: nat, n: nat)
    ensures DigitsValue(Reversed(ds + [d]), n) == d + Shl(DigitsValue(Reversed(ds), n), n)
  {
    assert Reversed(ds + [d])[1..] == Reversed(ds);
  }

  lemma ReversedDigits(ds: seq<nat>, n: nat)
    requires IsDigits(ds, n)
    ensures IsDigits(Reversed(ds), n)
  {
  }

  lemma NextDividend(r: nat, digit: nat, b: nat, n: nat)
    requires r < b && digit < Pow(2, n)
    ensures 0 <= Shl(r, n) + digit < Pow(2, n) * b
  {
    ShlIsProduct(r, n);
    MulMonotone(Pow(2, n), r + 1, b);
  }

  lemma SchoolStep(b: nat, n: nat, q: int, r: nat, digit: nat, qDigit: nat, r': nat)
    requires Shl(r, n) + digit == b * qDigit + r'
    ensures digit + Shl(b * q + r, n) == b * (qDigit + Shl(q, n)) + r'
  {
    ShlSum(b * q, r, n);
    ShlIsProduct(b * q, n);
    ShlIsProduct(q, n);
    MulAssoc(b, q, Pow(2, n));
  }

  /** Floor division of any two integers, reduced to non-negative operands by sign flips and `~`. */
  method IntDivmod(a: int, b: int, limit: nat) returns (res: Result<(int, int)>)
    ensures b == 0 ==> res == Raise(ZeroDivisionError)
    ensures b != 0 ==> res == Ok((FloorDiv(a, b), FloorMod(a, b)))
    decreases b < 0, a < 0
  {
    if b == 0 {
      return Raise(ZeroDivisionError);
    }
    var q, r;
    if b < 0 {
      var flipped := IntDivmod(-a, -b, limit);
      FloorDivUnique(-a, -b, flipped.value.0, flipped.value.1);
      q, r := flipped.value.0, -flipped.value.1;
      assert b * q == -(-b * q);
    } else if a < 0 {
      var complement := IntDivmod(Invert(a), b, limit);
      FloorDivUnique(Invert(a), b, complement.value.0, complement.value.1);
      q, r := Invert(complement.value.0), b + Invert(complement.value.1);
      MulSucc(b, q);
      assert b * complement.value.0 == -(b * (q + 1));
    } else {
      q, r := DivmodPos(a, b, limit);
    }
    FloorDivUnique(a, b, q, r);
    return Ok((q, r));
  }

  /** Python's `~x`. */
  function Invert(x: int): int
  {
    -x - 1
  }
}
