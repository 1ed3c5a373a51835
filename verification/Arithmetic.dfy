/** Powers and integer division: the facts about `<<`, `>>` and `divmod` that the other modules share. */
module Arithmetic {

  function Pow(b: nat, e: nat): (p: nat)
    ensures 0 < b ==> 0 < p
  {
    if e == 0 then 1 else b * Pow(b, e - 1)
  }

  function Max(x: int, y: int): int
  {
    if x < y then y else x
  }

  function Min(x: int, y: int): int
  {
    if x < y then x else y
  }

  lemma {:induction false} PowAdd(b: nat, x: nat, y: nat)
    ensures Pow(b, x + y) == Pow(b, x) * Pow(b, y)
  {
    if x == 0 {
    } else {
      PowAdd(b, x - 1, y);
      assert x + y - 1 == x - 1 + y;
      MulAssoc(b, Pow(b, x - 1), Pow(b, y));
    }
  }

  lemma PowMonotone(b: nat, x: nat, y: nat)
    requires 0 < b && x <= y
    ensures Pow(b, x) <= Pow(b, y)
  {
    PowAdd(b, x, y - x);
    MulMonotone(Pow(b, x), 1, Pow(b, y - x));
  }

  lemma MulPositive(x: int, y: int)
    requires 0 < x && 0 < y
    ensures 0 < x * y
  {
  }

  lemma MulAssoc(x: int, y: int, z: int)
    ensures x * (y * z) == (x * y) * z
  {
  }

  lemma MulSucc(m: int, x: int)
    ensures m * (x + 1) == m * x + m
  {
  }

  lemma MulSum(m: int, x: int, y: int)
    ensures m * (x + y) == m * x + m * y
  {
  }

  lemma MulMonotone(m: int, x: int, y: int)
    requires 0 <= m && x <= y
    ensures m * x <= m * y
  {
  }

  lemma MulCancelLess(m: int, x: int, y: int)
    requires 0 < m && m * x < m * y
    ensures x < y
  {
    if y <= x {
      MulMonotone(m, y, x);
    }
  }

  /** Quotient and remainder are the only pair that recombines with the remainder in range. */
  lemma DivModUnique(a: int, b: int, q: int, r: int)
    requires 0 < b && a == b * q + r && 0 <= r < b
    ensures a / b == q && a % b == r
  {
    var q', r' := a / b, a % b;
    assert b * (q - q') == r' - r;
    if q < q' {
      MulMonotone(b, 1, q' - q);
    } else if q' < q {
      MulMonotone(b, 1, q - q');
    }
  }

  lemma DivModFacts(a: nat, b: nat)
    requires 0 < b
    ensures 0 <= a / b && 0 <= a % b < b && a == b * (a / b) + a % b
  {
  }

  lemma DivUpper(a: int, b: int, k: int)
    requires 0 < b && a < b * k
    ensures a / b < k
  {
    var q := a / b;
    assert b * q <= a;
    MulCancelLess(b, q, k);
  }

  /** Splitting by `b * c` is splitting by `b` and then by `c`. */
  lemma DivModCompose(a: nat, b: nat, c: nat)
    requires 0 < b && 0 < c
    ensures 0 < b * c
    ensures a / (b * c) == a / b / c
    ensures a % (b * c) == b * (a / b % c) + a % b
  {
    var q, r := a / b, a % b;
    var q', r' := q / c, q % c;
    MulPositive(b, c);
    assert b * q == b * (c * q') + b * r';
    MulAssoc(b, c, q');
    assert a == (b * c) * q' + (b * r' + r);
    MulMonotone(b, r', c - 1);
    assert b * (c - 1) == b * c - b;
    DivModUnique(a, b * c, q', b * r' + r);
  }

  /** Python's `//` and `%`: the quotient is rounded towards minus infinity. */
  function FloorDiv(a: int, b: int): int
    requires b != 0
  {
    if 0 < b then a / b else -a / -b
  }

  function FloorMod(a: int, b: int): int
    requires b != 0
  {
    if 0 < b then a % b else -(-a % -b)
  }

  /** Floor division is the one quotient whose remainder has the sign of the divisor. */
  lemma FloorDivUnique(a: int, b: int, q: int, r: int)
    requires b != 0
    ensures (a == b * q + r && (0 <= r < b || b < r <= 0)) <==> (q == FloorDiv(a, b) && r == FloorMod(a, b))
  {
    if 0 < b {
      if a == b * q + r && 0 <= r < b {
        DivModUnique(a, b, q, r);
      }
    } else {
      if a == b * q + r && b < r <= 0 {
        assert b * q == -(-b * q);
        DivModUnique(-a, -b, q, -r);
      }
      assert -a == -b * (-a / -b) + -a % -b;
    }
  }
}
