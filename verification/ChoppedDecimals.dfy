/** Decimals as exact reals, chopped to a number of significant digits, and the error of dividing by a reciprocal. */
module ChoppedDecimals {
  import Arithmetic

  /* ----- exact products ----- */

  /** The product of two Decimals. Kept as a function so that products are compared as whole terms. */
  function Mul(x: real, y: real): real
  {
    x * y
  }

  lemma MulCommutes(x: real, y: real)
    ensures Mul(x, y) == Mul(y, x)
  {
  }

  lemma MulNonNegative(x: real, y: real)
    requires 0.0 <= x && 0.0 <= y
    ensures 0.0 <= Mul(x, y)
  {
  }

  lemma MulMonotone(m: real, x: real, y: real)
    requires 0.0 <= m && x <= y
    ensures Mul(m, x) <= Mul(m, y)
  {
  }

  lemma MulStrict(m: real, x: real, y: real)
    requires 0.0 < m && x < y
    ensures Mul(m, x) < Mul(m, y)
  {
  }

  lemma MulAtMost(x: real, x': real, y: real, y': real)
    requires 0.0 <= x <= x' && 0.0 <= y <= y'
    ensures 0.0 <= Mul(x, y) <= Mul(x', y')
  {
    MulNonNegative(x, y);
    MulMonotone(x, y, y');
    MulCommutes(x, y');
    MulMonotone(y', x, x');
    MulCommutes(x', y');
  }

  lemma MulBelow(x: real, x': real, y: real, y': real)
    requires 0.0 <= x < x' && 0.0 <= y <= y' && 0.0 < y'
    ensures Mul(x, y) < Mul(x', y')
  {
    MulMonotone(x, y, y');
    MulCommutes(x, y');
    MulStrict(y', x, x');
    MulCommutes(x', y');
  }

  lemma MulOfDifference(n: real, x: real, inv: real, r: real)
    ensures Mul(n, inv) == Mul(x, r) + Mul(x, inv - r) + Mul(n - x, inv)
  {
  }

  lemma MulTwice(x: real, y: real)
    ensures Mul(x, 2.0 * y) == 2.0 * Mul(x, y)
  {
  }

  /* ----- powers of ten ----- */

  /** `v * 10**e`. */
  function Scale10(v: real, e: int): real
    decreases if e < 0 then -e else e
  {
    if e == 0 then v else if 0 < e then Scale10(10.0 * v, e - 1) else Scale10(v / 10.0, e + 1)
  }

  function TenTo(e: int): real
  {
    Scale10(1.0, e)
  }

  lemma Scale10Succ(v: real, e: int)
    ensures Scale10(v, e + 1) == Scale10(10.0 * v, e)
  {
  }

  lemma {:induction false} Scale10Linear(v: real, c: real, vc: real, e: int)
    requires vc == Mul(v, c)
    ensures Scale10(vc, e) == Mul(Scale10(v, e), c)
    decreases if e < 0 then -e else e
  {
    if 0 < e {
      Scale10Linear(10.0 * v, c, 10.0 * vc, e - 1);
    } else if e < 0 {
      Scale10Linear(v / 10.0, c, vc / 10.0, e + 1);
    }
  }

  lemma {:induction false} Scale10Scale10(v: real, x: int, y: int)
    ensures Scale10(Scale10(v, x), y) == Scale10(v, x + y)
    decreases if x < 0 then -x else x
  {
    if 0 < x {
      Scale10Scale10(10.0 * v, x - 1, y);
      Scale10Succ(v, x - 1 + y);
    } else if x < 0 {
      Scale10Scale10(v / 10.0, x + 1, y);
      Scale10Succ(v / 10.0, x + y);
    }
  }

  lemma TenToSum(x: int, y: int, z: int)
    requires z == x + y
    ensures TenTo(z) == Mul(TenTo(x), TenTo(y))
  {
    var t := TenTo(x);
    Scale10Scale10(1.0, x, y);
    Scale10Linear(1.0, t, t, y);
    MulCommutes(TenTo(x), TenTo(y));
  }

  lemma TenToSucc(e: int)
    ensures TenTo(e + 1) == 10.0 * TenTo(e)
  {
    Scale10Succ(1.0, e);
    Scale10Linear(1.0, 10.0, 10.0, e);
  }

  lemma {:induction false} TenToPositive(e: int)
    ensures 0.0 < TenTo(e)
    decreases if e < 0 then -e else e
  {
    if 0 < e {
      TenToPositive(e - 1);
      TenToSucc(e - 1);
    } else if e < 0 {
      TenToPositive(e + 1);
      TenToSucc(e);
    }
  }

  lemma {:induction false} TenToMonotone(x: int, y: int)
    requires x <= y
    ensures 0.0 < TenTo(x) <= TenTo(y)
    decreases y - x
  {
    TenToPositive(x);
    if x < y {
      TenToMonotone(x, y - 1);
      TenToSucc(y - 1);
    }
  }

  lemma {:induction false} TenToIsInteger(k: nat)
    ensures TenTo(k).Floor as real == TenTo(k)
  {
    if k != 0 {
      TenToIsInteger(k - 1);
      TenToSucc(k - 1);
      assert TenTo(k) == (10 * TenTo(k - 1).Floor) as real;
    }
  }

  /* ----- order of magnitude and truncation ----- */

  /** The exponent of the most significant digit, as `Decimal.adjusted`; 0 for zero. */
  function Adjusted(x: real): (a: int)
    requires 0.0 <= x
    ensures 0.0 < x ==> TenTo(a) <= x < TenTo(a + 1)
    ensures x == 0.0 ==> a == 0
    decreases x < 1.0, if 1.0 <= x then x.Floor else if 0.0 < x then (1.0 / x).Floor else 0
  {
    if x == 0.0 then 0
    else if 10.0 <= x then
      var a := Adjusted(x / 10.0);
      TenToSucc(a);
      TenToSucc(a + 1);
      a + 1
    else if x < 1.0 then
      SmallMeasure(x);
      var a := Adjusted(10.0 * x);
      TenToSucc(a - 1);
      TenToSucc(a);
      a - 1
    else
      TenToSucc(0);
      0
  }

  lemma SmallMeasure(x: real)
    requires 0.0 < x < 1.0
    ensures 10.0 * x < 1.0 ==> 0 <= (1.0 / (10.0 * x)).Floor < (1.0 / x).Floor
    ensures 0 < (1.0 / x).Floor
  {
    assert 1.0 < 1.0 / x && 1.0 / (10.0 * x) == 1.0 / x / 10.0;
  }

  lemma AdjustedBelow(x: real, a: int)
    requires 0.0 < x < TenTo(a + 1)
    ensures Adjusted(x) <= a
  {
    if a < Adjusted(x) {
      TenToMonotone(a + 1, Adjusted(x));
    }
  }

  lemma AdjustedUnique(x: real, a: int)
    requires TenTo(a) <= x < TenTo(a + 1)
    ensures 0.0 < x && Adjusted(x) == a
  {
    TenToPositive(a);
    AdjustedBelow(x, a);
    if Adjusted(x) < a {
      TenToMonotone(Adjusted(x) + 1, a);
    }
  }

  lemma AdjustedOfInteger(p: nat)
    ensures 0 <= Adjusted(p as real)
  {
    if 0 < p && Adjusted(p as real) < 0 {
      TenToMonotone(Adjusted(p as real) + 1, 0);
    }
  }

  lemma BelowNextPower(x: real)
    requires 0.0 <= x
    ensures x < TenTo(Adjusted(x) + 1)
  {
    TenToPositive(1);
  }

  /** `x` rounded down to a multiple of `unit`. */
  function FloorTo(x: real, unit: real): (c: real)
    requires 0.0 <= x && 0.0 < unit
    ensures 0.0 <= c
  {
    var digits := (x / unit).Floor as real;
    MulNonNegative(digits, unit);
    Mul(digits, unit)
  }

  /** Unary `+` under ROUND_DOWN: `x` cut to `prec` significant digits. */
  function Chop(x: real, prec: nat): (c: real)
    requires 0.0 <= x && 0 < prec
    ensures 0.0 <= c
  {
    if x == 0.0 then 0.0
    else
      TenToPositive(Adjusted(x) - prec + 1);
      FloorTo(x, TenTo(Adjusted(x) - prec + 1))
  }

  lemma FloorToError(x: real, unit: real)
    requires 0.0 <= x && 0.0 < unit
    ensures FloorTo(x, unit) <= x <= FloorTo(x, unit) + unit
  {
    var q, f := x / unit, (x / unit).Floor as real;
    assert Mul(q, unit) == x;
    MulCommutes(unit, f);
    MulCommutes(unit, q);
    MulMonotone(unit, f, q);
    MulMonotone(unit, q, f + 1.0);
    assert Mul(unit, f + 1.0) == Mul(unit, f) + unit;
  }

  /** Chopping rounds down, and loses at most one unit in the last kept place. */
  lemma ChopError(x: real, prec: nat, a: int)
    requires 0 < prec && 0.0 <= x < TenTo(a + 1)
    ensures Chop(x, prec) <= x <= Chop(x, prec) + TenTo(a - prec + 1)
  {
    TenToPositive(a - prec + 1);
    if x != 0.0 {
      AdjustedBelow(x, a);
      TenToMonotone(Adjusted(x) - prec + 1, a - prec + 1);
      FloorToError(x, TenTo(Adjusted(x) - prec + 1));
    }
  }

  /** The Decimal with the digits of `k` and the exponent `e`. */
  function Scaled(k: nat, e: int): real
  {
    Mul(k as real, TenTo(e))
  }

  /** A Decimal that is not negative and has at most `prec` digits. */
  ghost predicate HasDigits(y: real, prec: nat)
  {
    exists k: nat, e: int :: k as real < TenTo(prec) && y == Scaled(k, e)
  }

  /** Chopping gives the greatest Decimal of that many digits that is not above. */
  lemma ChopIsGreatest(x: real, prec: nat)
    requires 0 < prec && 0.0 <= x
    ensures HasDigits(Chop(x, prec), prec) && Chop(x, prec) <= x
    ensures forall y :: HasDigits(y, prec) && y <= x ==> y <= Chop(x, prec)
  {
    hide Mul, TenTo, Chop, Adjusted;
    ChopHasDigits(x, prec);
    BelowNextPower(x);
    ChopError(x, prec, Adjusted(x));
    forall y | HasDigits(y, prec) && y <= x
      ensures y <= Chop(x, prec)
    {
      var k: nat, e: int :| k as real < TenTo(prec) && y == Scaled(k, e);
      ChopAtLeast(x, prec, k, e);
    }
  }

  lemma ChopHasDigits(x: real, prec: nat)
    requires 0 < prec && 0.0 <= x
    ensures HasDigits(Chop(x, prec), prec)
  {
    hide TenTo, Adjusted, HasDigits;
    TenToPositive(prec);
    if x == 0.0 {
      DigitsAre(0, 0, prec);
    } else {
      var a := Adjusted(x);
      var unit := TenTo(a - prec + 1);
      TenToPositive(a - prec + 1);
      TenToSum(prec, a - prec + 1, a + 1);
      var q := x / unit;
      if TenTo(prec) <= q {
        MulCommutes(TenTo(prec), unit);
        MulMonotone(unit, TenTo(prec), q);
      }
      DigitsAre(q.Floor, a - prec + 1, prec);
    }
  }

  lemma DigitsAre(k: nat, e: int, prec: nat)
    requires k as real < TenTo(prec)
    ensures HasDigits(Mul(k as real, TenTo(e)), prec)
  {
    assert Mul(k as real, TenTo(e)) == Scaled(k, e);
  }

  lemma MultipleBelow(x: real, unit: real, m: int)
    requires 0.0 <= x && 0.0 < unit && Mul(m as real, unit) <= x
    ensures Mul(m as real, unit) <= FloorTo(x, unit)
  {
    var q := x / unit;
    assert m as real <= q by {
      QuotientBack(x, unit);
      MulCommutes(unit, m as real);
      MulCommutes(unit, q);
      if q < m as real {
        MulStrict(unit, q, m as real);
      }
    }
    hide Mul;
    MulMonotone(unit, m as real, q.Floor as real);
    MulCommutes(unit, m as real);
    MulCommutes(unit, q.Floor as real);
  }

  lemma QuotientBack(x: real, unit: real)
    requires 0.0 < unit
    ensures Mul(x / unit, unit) == x
  {
  }

  lemma ChopAtLeast(x: real, prec: nat, k: nat, e: int)
    requires 0 < prec && 0.0 <= x && k as real < TenTo(prec) && Mul(k as real, TenTo(e)) <= x
    ensures Mul(k as real, TenTo(e)) <= Chop(x, prec)
  {
    hide TenTo, Adjusted, FloorTo, Mul;
    if x != 0.0 {
      var a := Adjusted(x);
      var at := a - prec + 1;
      var unit := TenTo(at);
      TenToPositive(at);
      if at <= e {
        TenToSum(e - at, at, e);
        TenToIsInteger(e - at);
        var m := TenTo(e - at).Floor;
        ProductOfThree(k, m, unit);
        MultipleBelow(x, unit, k * m);
      } else {
        TenToPositive(e);
        TenToSum(prec, e, prec + e);
        MulCommutes(k as real, TenTo(e));
        MulCommutes(TenTo(prec), TenTo(e));
        MulMonotone(TenTo(e), k as real, TenTo(prec));
        TenToMonotone(prec + e, a);
        TenToSum(prec - 1, at, a);
        TenToIsInteger(prec - 1);
        MultipleBelow(x, unit, TenTo(prec - 1).Floor);
      }
    }
  }

  lemma ProductOfThree(k: nat, m: int, unit: real)
    ensures Mul(k as real, Mul(m as real, unit)) == Mul((k * m) as real, unit)
  {
    assert (k * m) as real == k as real * m as real;
  }

  /** A power of ten has a single digit, so chopping leaves it alone. */
  lemma ChopPowerOfTen(e: int, prec: nat)
    requires 0 < prec
    ensures 0.0 <= TenTo(e) && Chop(TenTo(e), prec) == TenTo(e)
  {
    TenToPositive(e);
    TenToSucc(e);
    AdjustedUnique(TenTo(e), e);
    TenToSum(prec - 1, e - prec + 1, e);
    TenToPositive(e - prec + 1);
    TenToIsInteger(prec - 1);
    DivideBack(TenTo(e), TenTo(prec - 1), TenTo(e - prec + 1));
  }

  lemma DivideBack(x: real, m: real, unit: real)
    requires x == Mul(m, unit) && 0.0 < unit
    ensures x / unit == m
  {
  }

  /* ----- the quotient guess ----- */

  /** The working precision for dividing `n` by `p`. */
  function WorkingPrecision(n: nat, p: nat, guard: nat): int
  {
    Arithmetic.Max(Adjusted(n as real) - Adjusted(p as real), 0) + guard
  }

  /** The working precision is the guard digits and, give or take one, the quotient's digits after its first. */
  lemma PrecisionFitsQuotient(n: nat, p: nat, guard: nat)
    requires 0 < p
    ensures n < p ==> WorkingPrecision(n, p, guard) == guard
    ensures p <= n ==> var d := Adjusted((n / p) as real);
      0 <= d && d + guard <= WorkingPrecision(n, p, guard) <= d + guard + 1
  {
    hide TenTo, Adjusted, Mul;
    AdjustedOfInteger(p);
    BelowNextPower(p as real);
    if n == 0 {
    } else if n < p {
      AdjustedBelow(n as real, Adjusted(p as real));
    } else {
      QuotientMagnitude(n, p, n / p);
    }
  }

  lemma QuotientMagnitude(n: nat, p: nat, q: nat)
    requires 0 < p <= n && q == n / p
    ensures var d := Adjusted(q as real); 0 <= d && d <= Adjusted(n as real) - Adjusted(p as real) <= d + 1
  {
    hide TenTo, Adjusted, Mul;
    QuotientProducts(n, p, q);
    AdjustedOfInteger(q);
    LeastMagnitude(n as real, q as real, p as real);
    NextInteger(q, Adjusted(q as real) + 1);
    GreatestMagnitude(n as real, (q + 1) as real, p as real, Adjusted(q as real) + 1);
  }

  lemma LeastMagnitude(n: real, x: real, y: real)
    requires 0.0 < x && 0.0 < y && Mul(x, y) <= n
    ensures 0.0 < n && Adjusted(x) + Adjusted(y) <= Adjusted(n)
  {
    hide TenTo, Adjusted, Mul;
    var d, a := Adjusted(x), Adjusted(y);
    TenToPositive(d);
    TenToPositive(a);
    TenToPositive(d + a);
    TenToSum(d, a, d + a);
    MulAtMost(TenTo(d), x, TenTo(a), y);
    if Adjusted(n) < d + a {
      TenToMonotone(Adjusted(n) + 1, d + a);
    }
  }

  lemma GreatestMagnitude(n: real, x: real, y: real, d: int)
    requires 0.0 < n < Mul(x, y) && 0.0 <= x <= TenTo(d) && 0.0 < y
    ensures Adjusted(n) <= d + Adjusted(y)
  {
    hide TenTo, Adjusted, Mul;
    var a := Adjusted(y);
    TenToSum(d, a + 1, d + a + 1);
    MulAtMost(x, TenTo(d), y, TenTo(a + 1));
    AdjustedBelow(n, d + a);
  }

  lemma NextInteger(q: nat, d: nat)
    requires q as real < TenTo(d)
    ensures (q + 1) as real <= TenTo(d)
  {
    hide TenTo;
    TenToIsInteger(d);
    NextBelow(q, TenTo(d).Floor);
  }

  lemma NextBelow(q: int, m: int)
    requires q as real < m as real
    ensures (q + 1) as real <= m as real
  {
    var gap := m - q;
    assert m as real == q as real + gap as real;
    assert 0 < gap;
  }

  lemma QuotientProducts(n: nat, p: nat, q: nat)
    requires 0 < p <= n && q == n / p
    ensures 1 <= q && Mul(q as real, p as real) <= n as real < Mul((q + 1) as real, p as real)
  {
    assert q * p <= n < (q + 1) * p;
    assert (q * p) as real == q as real * p as real;
    assert ((q + 1) * p) as real == (q + 1) as real * p as real;
  }

  /** The precision at which the reciprocal of `p` is stored. */
  function StoredPrecision(p: nat, guard: nat): int
  {
    Adjusted(p as real) + guard + 1
  }

  /** The reciprocal of `p` as it is kept in the table. */
  function StoredReciprocal(p: nat, guard: nat): (r: real)
    requires 0 < p && 0 < guard
    ensures 0.0 <= r
  {
    AdjustedOfInteger(p);
    Chop(1.0 / p as real, StoredPrecision(p, guard))
  }

  /** The chopped product of the chopped `n` and the chopped reciprocal `r`. */
  function ChoppedProduct(n: real, r: real, prec: nat): (h: real)
    requires 0.0 <= n && 0.0 <= r && 0 < prec
    ensures 0.0 <= h
  {
    MulNonNegative(Chop(n, prec), Chop(r, prec));
    Chop(Mul(Chop(n, prec), Chop(r, prec)), prec)
  }

  /** The guessed quotient of `n` by `p`: the integer part of the chopped product. */
  function Guess(n: nat, p: nat, guard: nat): int
    requires 0 < p && 0 < guard
  {
    ChoppedProduct(n as real, StoredReciprocal(p, guard), WorkingPrecision(n, p, guard)).Floor
  }

  function TrueRatio(n: nat, p: nat): real
    requires 0 < p
  {
    Mul(n as real, 1.0 / p as real)
  }

  /** The stored reciprocal has at least the digits that any dividend below `p * p` will ask for. */
  lemma StoredDigitsSuffice(n: nat, p: nat, guard: nat)
    requires 0 < p && n < p * p
    ensures WorkingPrecision(n, p, guard) <= StoredPrecision(p, guard)
  {
    AdjustedOfInteger(p);
    var b := Adjusted(p as real);
    if 0 < n {
      TenToSum(b + 1, b + 1, 2 * b + 2);
      SquareOfInteger(p);
      MulBelow(p as real, TenTo(b + 1), p as real, TenTo(b + 1));
      AdjustedBelow(n as real, 2 * b + 1);
    }
  }

  lemma SquareOfInteger(p: nat)
    ensures (p * p) as real == Mul(p as real, p as real)
  {
  }

  lemma ReciprocalBounds(p: nat, b: int)
    requires 0 < p && TenTo(b) <= p as real
    ensures 0.0 < 1.0 / p as real <= TenTo(-b)
    ensures TenTo(b) < p as real ==> 1.0 / p as real < TenTo(-b)
  {
    TenToSum(b, -b, 0);
    TenToPositive(b);
    TenToPositive(-b);
    InvertBound(p as real, TenTo(b), TenTo(-b));
  }

  lemma InvertBound(p: real, t: real, t': real)
    requires 0.0 < t <= p && 0.0 < t' && Mul(t, t') == 1.0
    ensures 0.0 < 1.0 / p <= t' && (t < p ==> 1.0 / p < t')
  {
    MulCommutes(t', t);
    MulMonotone(t', t, p);
    DivideBack(Mul(t', p), t', p);
    if t < p {
      MulStrict(t', t, p);
    }
  }

  /** Storing and then chopping the reciprocal loses at most two units of the working precision. */
  lemma ReciprocalError(p: nat, guard: nat, prec: nat)
    requires 0 < p && 0 < guard && 0 < prec <= StoredPrecision(p, guard)
    ensures var b, inv, r := Adjusted(p as real), 1.0 / p as real, Chop(StoredReciprocal(p, guard), prec);
      r <= inv <= r + 2.0 * TenTo(-b - prec)
  {
    var b, inv, stored := Adjusted(p as real), 1.0 / p as real, StoredReciprocal(p, guard);
    ReciprocalBounds(p, b);
    TenToPositive(-b - prec);
    if TenTo(b) == p as real {
      TenToSum(-b, b, 0);
      DivideBack(1.0, TenTo(-b), p as real);
      ChopPowerOfTen(-b, StoredPrecision(p, guard));
      ChopPowerOfTen(-b, prec);
    } else {
      ChopError(inv, StoredPrecision(p, guard), -b - 1);
      TenToMonotone(-b - StoredPrecision(p, guard), -b - prec);
      ChopError(stored, prec, -b - 1);
    }
  }

  /** `c` is a lower bound of `x`, at most `err` away. */
  ghost predicate Approximates(c: real, x: real, err: real)
  {
    0.0 <= c <= x <= c + err
  }

  /** All four chops together lose at most `4 * 10**(1 - guard)` of the true quotient. */
  lemma ProductError(n: nat, p: nat, guard: nat)
    requires 0 < p && 0 < guard && n < p * p
    ensures Approximates(ChoppedProduct(n as real, StoredReciprocal(p, guard), WorkingPrecision(n, p, guard)),
                         TrueRatio(n, p), 4.0 * TenTo(1 - guard))
  {
    var prec := WorkingPrecision(n, p, guard);
    var a, b := Adjusted(n as real), Adjusted(p as real);
    StoredDigitsSuffice(n, p, guard);
    ReciprocalBounds(p, b);
    ReciprocalError(p, guard, prec);
    BelowNextPower(n as real);
    ChopError(n as real, prec, a);
    var x, r := Chop(n as real, prec), Chop(StoredReciprocal(p, guard), prec);
    FactorErrors(n as real, x, 1.0 / p as real, r, a, b, prec, guard);
  }

  lemma FactorErrors(n: real, x: real, inv: real, r: real, a: int, b: int, prec: nat, guard: nat)
    requires 0 < prec && a - b + guard <= prec
    requires Approximates(x, n, TenTo(a - prec + 1)) && n < TenTo(a + 1)
    requires Approximates(r, inv, 2.0 * TenTo(-b - prec)) && inv <= TenTo(-b)
    ensures 0.0 <= Mul(x, r) && Approximates(Chop(Mul(x, r), prec), Mul(n, inv), 4.0 * TenTo(1 - guard))
  {
    var unit := TenTo(a - b - prec + 1);
    TenToSum(a - prec + 1, -b, a - b - prec + 1);
    TenToSum(a + 1, -b - prec, a - b - prec + 1);
    TenToSum(a + 1, -b, a - b + 1);
    TenToPositive(-b);
    ProductBounds(n, x, inv, r, TenTo(a - prec + 1), TenTo(-b), TenTo(a + 1), TenTo(-b - prec), unit);
    ChopError(Mul(x, r), prec, a - b);
    TenToMonotone(a - b - prec + 1, 1 - guard);
  }

  lemma ProductBounds(n: real, x: real, inv: real, r: real, dn: real, ti: real, tn: real, dr: real, unit: real)
    requires Approximates(x, n, dn) && n < tn
    requires Approximates(r, inv, 2.0 * dr) && inv <= ti && 0.0 < ti
    requires unit == Mul(dn, ti) == Mul(tn, dr)
    ensures 0.0 <= Mul(x, r) <= Mul(n, inv) <= Mul(x, r) + 3.0 * unit
    ensures Mul(x, r) < Mul(tn, ti)
  {
    MulNonNegative(x, r);
    MulOfDifference(n, x, inv, r);
    MulAtMost(x, tn, inv - r, 2.0 * dr);
    MulTwice(tn, dr);
    MulAtMost(n - x, dn, inv, ti);
    MulBelow(x, tn, r, ti);
  }

  /**
    The guess never exceeds the true quotient, and with two guard digits or more it is at most one below it,
    so a single correction is enough.
    */
  lemma GuessBounds(n: nat, p: nat, guard: nat)
    requires 0 < p && 0 < guard && n < p * p
    ensures 0 <= Guess(n, p, guard) <= n / p
    ensures 2 <= guard ==> n / p <= Guess(n, p, guard) + 1
  {
    ProductError(n, p, guard);
    TenToSucc(-1);
    if 2 <= guard {
      TenToMonotone(1 - guard, -1);
    }
    var h := ChoppedProduct(n as real, StoredReciprocal(p, guard), WorkingPrecision(n, p, guard));
    FloorOfQuotient(n, p, h, 2 <= guard);
  }

  lemma FloorOfQuotient(n: nat, p: nat, h: real, tight: bool)
    requires 0 < p && 0.0 <= h <= TrueRatio(n, p)
    requires tight ==> TrueRatio(n, p) < h + 1.0
    ensures 0 <= h.Floor <= n / p
    ensures tight ==> n / p <= h.Floor + 1
  {
  }

  lemma SmallPowers()
    ensures TenTo(-10) == 0.0000000001 && TenTo(-8) == 0.00000001 && TenTo(-5) == 0.00001 && TenTo(-4) == 0.0001
    ensures TenTo(0) == 1.0 && TenTo(3) == 1000.0 && TenTo(4) == 10000.0 && TenTo(5) == 100000.0
    ensures TenTo(7) == 10000000.0 && TenTo(8) == 100000000.0
  {
  }

  /** With one guard digit the guess for 1483 * 65536 by 65536 is 1481: two below the quotient. */
  lemma OneGuardDigitIsTooFew()
    ensures Guess(97189888, 65536, 1) == 1481 && 97189888 / 65536 == 1483
  {
    SmallPowers();
    var inv := 1.0 / 65536.0;
    AdjustedUnique(97189888.0, 7);
    AdjustedUnique(65536.0, 4);
    AdjustedUnique(inv, -5);
    assert (inv / 0.0000000001).Floor == 152587;
    assert StoredReciprocal(65536, 1) == 0.0000152587;
    AdjustedUnique(0.0000152587, -5);
    assert Chop(0.0000152587, 4) == 0.00001525;
    assert Chop(97189888.0, 4) == 97180000.0;
    AdjustedUnique(1481.995, 3);
    assert Chop(1481.995, 4) == 1481.0;
  }

  ghost predicate OneCorrectionSuffices(n: nat, p: nat, guard: nat)
    requires 0 < guard
  {
    0 < p && n < p * p ==> n / p <= Guess(n, p, guard) + 1
  }

  /** For all dividends and divisors one correction is enough exactly when there are at least two guard digits. */
  lemma OneCorrectionIffTwoGuardDigits(guard: nat)
    requires 0 < guard
    ensures (forall n: nat, p: nat :: OneCorrectionSuffices(n, p, guard)) <==> 2 <= guard
  {
    hide Guess;
    if 2 <= guard {
      forall n: nat, p: nat
        ensures OneCorrectionSuffices(n, p, guard)
      {
        if 0 < p && n < p * p {
          GuessBounds(n, p, guard);
        }
      }
    } else {
      OneGuardDigitIsTooFew();
      assert !OneCorrectionSuffices(97189888, 65536, guard);
    }
  }
}
