/** Python's bit operations on non-negative integers, defined bit by bit, and what they mean arithmetically. */
module Bits {
  import opened Arithmetic

  function Shl(a: int, k: nat): int
    decreases k
  {
    if k == 0 then a else Shl(2 * a, k - 1)
  }

  function Shr(a: nat, k: nat): nat
    decreases k
  {
    if k == 0 then a else Shr(a / 2, k - 1)
  }

  function Mask(k: nat): nat
  {
    ShlIsProduct(1, k);
    Shl(1, k) - 1
  }

  function BitLength(a: nat): nat
  {
    if a == 0 then 0 else 1 + BitLength(a / 2)
  }

  function BitOr(a: nat, b: nat): nat
    decreases a + b
  {
    if a == 0 && b == 0 then 0
    else 2 * BitOr(a / 2, b / 2) + (if a % 2 == 1 || b % 2 == 1 then 1 else 0)
  }

  function BitAnd(a: nat, b: nat): nat
    decreases a + b
  {
    if a == 0 && b == 0 then 0
    else 2 * BitAnd(a / 2, b / 2) + (if a % 2 == 1 && b % 2 == 1 then 1 else 0)
  }

  function BitXor(a: nat, b: nat): nat
    decreases a + b
  {
    if a == 0 && b == 0 then 0
    else 2 * BitXor(a / 2, b / 2) + (if a % 2 == b % 2 then 0 else 1)
  }

  lemma {:induction false} ShlIsProduct(a: int, k: nat)
    ensures Shl(a, k) == a * Pow(2, k)
    decreases k
  {
    if k == 0 {
    } else {
      ShlIsProduct(2 * a, k - 1);
      MulAssoc(a, 2, Pow(2, k - 1));
    }
  }

  /** `a` fits in `n` bits exactly when its bit length is at most `n`. */
  lemma {:induction false} BitLengthBound(a: nat, n: nat)
    ensures BitLength(a) <= n <==> a < Pow(2, n)
  {
    if a == 0 {
    } else if n == 0 {
    } else {
      BitLengthBound(a / 2, n - 1);
    }
  }

  lemma BitLengthExact(a: nat, n: nat)
    requires 0 < n
    ensures BitLength(a) == n <==> Pow(2, n - 1) <= a < Pow(2, n)
  {
    BitLengthBound(a, n);
    BitLengthBound(a, n - 1);
  }

  lemma {:induction false} OrZero(a: nat)
    ensures BitOr(a, 0) == a
  {
    if a != 0 {
      OrZero(a / 2);
    }
  }

  /** `hi << k | lo` is `(hi << k) + lo` when `lo` fits in `k` bits. */
  lemma {:induction false} OrIsSum(hi: nat, lo: nat, k: nat)
    requires lo < Pow(2, k)
    ensures 0 <= Shl(hi, k) && BitOr(Shl(hi, k), lo) == Shl(hi, k) + lo
  {
    ShlNonNegative(hi, k);
    if k == 0 {
      OrZero(hi);
    } else {
      OrIsSum(hi, lo / 2, k - 1);
      ShlNonNegative(hi, k - 1);
      ShlTwice(hi, k - 1);
    }
  }

  lemma ShlSum(a: int, b: int, k: nat)
    ensures Shl(a + b, k) == Shl(a, k) + Shl(b, k)
  {
    ShlIsProduct(a + b, k);
    ShlIsProduct(a, k);
    ShlIsProduct(b, k);
  }

  lemma {:induction false} ShlShl(a: int, j: nat, k: nat)
    ensures Shl(Shl(a, j), k) == Shl(a, j + k)
    decreases j
  {
    if j != 0 {
      ShlShl(2 * a, j - 1, k);
    }
  }

  lemma {:induction false} ShlNonNegative(a: nat, k: nat)
    ensures 0 <= Shl(a, k)
    decreases k
  {
    if k != 0 {
      ShlNonNegative(2 * a, k - 1);
    }
  }

  lemma ShlTwice(a: int, k: nat)
    ensures Shl(a, k + 1) == 2 * Shl(a, k)
  {
    ShlIsProduct(a, k + 1);
    ShlIsProduct(a, k);
    MulAssoc(a, 2, Pow(2, k));
  }

  /** Shifting right and masking splits a number into its high part and its low `k` bits. */
  lemma {:induction false} SplitLow(a: nat, k: nat)
    ensures BitAnd(a, Mask(k)) < Pow(2, k)
    ensures a == Shl(Shr(a, k), k) + BitAnd(a, Mask(k))
    decreases k
  {
    if k == 0 {
      AndZero(a);
    } else {
      SplitLow(a / 2, k - 1);
      ShlTwice(1, k - 1);
      AndUnfold(a, Mask(k - 1));
      ShlTwice(Shr(a, k), k - 1);
    }
  }

  lemma AndUnfold(a: nat, m: nat)
    ensures BitAnd(a, 2 * m + 1) == 2 * BitAnd(a / 2, m) + a % 2
  {
    assert (2 * m + 1) / 2 == m && (2 * m + 1) % 2 == 1;
  }

  lemma {:induction false} AndZero(a: nat)
    ensures BitAnd(a, 0) == 0
  {
    if a != 0 {
      AndZero(a / 2);
    }
  }

  lemma ShrBelow(a: nat, b: nat, k: nat)
    requires a < Pow(2, k) * b
    ensures Shr(a, k) < b
  {
    hide Pow, Shl, Shr, BitAnd, Mask;
    SplitLow(a, k);
    ShlIsProduct(Shr(a, k), k);
    MulCancelLess(Pow(2, k), Shr(a, k), b);
  }

  lemma XorUnfold(t: nat, lo: nat)
    ensures BitXor(2 * t + lo, 2 * t) == 2 * BitXor(t + lo / 2, t) + lo % 2
  {
    assert (2 * t + lo) / 2 == t + lo / 2 && (2 * t + lo) % 2 == lo % 2;
    assert 2 * t / 2 == t && 2 * t % 2 == 0;
  }

  lemma {:induction false} XorSelf(a: nat)
    ensures BitXor(a, a) == 0
  {
    if a != 0 {
      XorSelf(a / 2);
    }
  }

  /** `x ^ (x >> k << k)` keeps the low `k` bits of `x == (hi << k) + lo`. */
  lemma {:induction false} XorClearsHigh(hi: nat, lo: nat, k: nat)
    requires lo < Pow(2, k)
    ensures 0 <= Shl(hi, k) && BitXor(Shl(hi, k) + lo, Shl(hi, k)) == lo
  {
    ShlNonNegative(hi, k);
    if k == 0 {
      XorSelf(hi);
    } else {
      hide Shl, BitXor;
      ShlNonNegative(hi, k - 1);
      ShlTwice(hi, k - 1);
      XorClearsHigh(hi, lo / 2, k - 1);
      XorUnfold(Shl(hi, k - 1), lo);
    }
  }
}
