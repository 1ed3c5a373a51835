/** Durations with integer components: the normal form, and the arithmetic it stands for. */
module TimeDeltas {
  import opened Arithmetic
  import opened Outcome

  const US_PER_SECOND := 1000000
  const SECONDS_PER_DAY := 86400
  const US_PER_DAY := 86400000000
  const MAX_DAYS := 999999999

  datatype TimeDelta = TimeDelta(days: int, seconds: int, microseconds: int)

  predicate IsNormal(t: TimeDelta)
  {
    && -MAX_DAYS <= t.days <= MAX_DAYS
    && 0 <= t.seconds < SECONDS_PER_DAY
    && 0 <= t.microseconds < US_PER_SECOND
  }

  /** The duration in microseconds. */
  function Micros(t: TimeDelta): int
  {
    (t.days * SECONDS_PER_DAY + t.seconds) * US_PER_SECOND + t.microseconds
  }

  /** The constructor, for integer arguments: whole days and seconds are carried up one unit at a time. */
  function Make(days: int, seconds: int, microseconds: int, milliseconds: int, minutes: int, hours: int, weeks: int)
    : Result<TimeDelta>
  {
    var d0 := days + weeks * 7;
    var sec0 := seconds + minutes * 60 + hours * 3600;
    var us0 := microseconds + milliseconds * 1000;
    var d1, s1 := d0 + sec0 / SECONDS_PER_DAY, sec0 % SECONDS_PER_DAY;
    var sec1, us1 := us0 / US_PER_SECOND, us0 % US_PER_SECOND;
    var d2, s2 := d1 + sec1 / SECONDS_PER_DAY, s1 + sec1 % SECONDS_PER_DAY;
    var sec2, us2 := us1 / US_PER_SECOND, us1 % US_PER_SECOND;
    var s3 := s2 + sec2;
    var d3, s4 := d2 + s3 / SECONDS_PER_DAY, s3 % SECONDS_PER_DAY;
    if d3 < -MAX_DAYS || MAX_DAYS < d3 then Raise(OverflowError)
    else Ok(TimeDelta(d3, s4, us2))
  }

  function Delta(days: int, seconds: int, microseconds: int): Result<TimeDelta>
  {
    Make(days, seconds, microseconds, 0, 0, 0, 0)
  }

  /** `t` is what a total number of microseconds normalizes to: the one normal form, or an overflow without one. */
  ghost predicate Represents(t: Result<TimeDelta>, total: int)
  {
    match t
    case Ok(v) => IsNormal(v) && Micros(v) == total
    case Raise(e) => e == OverflowError && forall v :: IsNormal(v) ==> Micros(v) != total
  }

  lemma MicrosBound(t: TimeDelta)
    requires IsNormal(t)
    ensures t.days * US_PER_DAY <= Micros(t) < t.days * US_PER_DAY + US_PER_DAY
  {
  }

  /** A number of microseconds has at most one normal form. */
  lemma RepresentsUnique(t: Result<TimeDelta>, t': Result<TimeDelta>, total: int)
    requires Represents(t, total) && Represents(t', total)
    ensures t == t'
  {
    if t.Ok? && t'.Ok? {
      MicrosBound(t.value);
      MicrosBound(t'.value);
    }
  }

  /** The constructor normalizes the total of its arguments. */
  lemma MakeRepresents(days: int, seconds: int, us: int, ms: int, minutes: int, hours: int, weeks: int)
    ensures Represents(Make(days, seconds, us, ms, minutes, hours, weeks),
                       (days + weeks * 7) * 86400000000
                       + (seconds + minutes * 60 + hours * 3600) * 1000000 + us + ms * 1000)
  {
    var total := (days + weeks * 7) * US_PER_DAY
                 + (seconds + minutes * 60 + hours * 3600) * US_PER_SECOND + us + ms * 1000;
    var sec0, us0 := seconds + minutes * 60 + hours * 3600, us + ms * 1000;
    var d := (days + weeks * 7) + sec0 / SECONDS_PER_DAY + us0 / US_PER_SECOND / SECONDS_PER_DAY;
    var s := sec0 % SECONDS_PER_DAY + us0 / US_PER_SECOND % SECONDS_PER_DAY;
    assert us0 % US_PER_SECOND / US_PER_SECOND == 0 && us0 % US_PER_SECOND % US_PER_SECOND == us0 % US_PER_SECOND;
    var v := TimeDelta(d + s / SECONDS_PER_DAY, s % SECONDS_PER_DAY, us0 % US_PER_SECOND);
    assert Micros(v) == total;
    forall w | IsNormal(w) && Micros(w) == total
      ensures v == w
    {
      SameForm(v, w);
    }
  }

  /** The limits of a duration, in days and in microseconds. */
  lemma DurationLimits(days: int, t: TimeDelta)
    ensures Make(days, 0, 0, 0, 0, 0, 0) ==
            if -999999999 <= days <= 999999999 then Ok(TimeDelta(days, 0, 0)) else Raise(OverflowError)
    ensures IsNormal(t) ==> -86399999913600000000 <= Micros(t) <= 86399999999999999999
    ensures Micros(TimeDelta(-999999999, 0, 0)) == -86399999913600000000
    ensures Micros(TimeDelta(999999999, 86399, 999999)) == 86399999999999999999
  {
  }

  lemma SameForm(v: TimeDelta, w: TimeDelta)
    requires 0 <= v.seconds < SECONDS_PER_DAY && 0 <= v.microseconds < US_PER_SECOND
    requires IsNormal(w) && Micros(v) == Micros(w)
    ensures v == w
  {
  }

  lemma DeltaRepresents(days: int, seconds: int, us: int)
    ensures Represents(Delta(days, seconds, us), days * US_PER_DAY + seconds * US_PER_SECOND + us)
  {
    MakeRepresents(days, seconds, us, 0, 0, 0, 0);
  }

  /* ----- arithmetic ----- */

  function Add(a: TimeDelta, b: TimeDelta): Result<TimeDelta>
  {
    Delta(a.days + b.days, a.seconds + b.seconds, a.microseconds + b.microseconds)
  }

  function Sub(a: TimeDelta, b: TimeDelta): Result<TimeDelta>
  {
    Delta(a.days - b.days, a.seconds - b.seconds, a.microseconds - b.microseconds)
  }

  function Neg(a: TimeDelta): Result<TimeDelta>
  {
    Delta(-a.days, -a.seconds, -a.microseconds)
  }

  function Abs(a: TimeDelta): Result<TimeDelta>
  {
    if a.days < 0 then Neg(a) else Ok(a)
  }

  function MulInt(a: TimeDelta, k: int): Result<TimeDelta>
  {
    Delta(a.days * k, a.seconds * k, a.microseconds * k)
  }

  function FloorDivInt(a: TimeDelta, k: int): Result<TimeDelta>
  {
    if k == 0 then Raise(ZeroDivisionError) else Delta(0, 0, FloorDiv(Micros(a), k))
  }

  function TrueDivInt(a: TimeDelta, k: int): Result<TimeDelta>
  {
    if k == 0 then Raise(ZeroDivisionError) else Delta(0, 0, DivideAndRound(Micros(a), k))
  }

  /** Multiplication by a float, which is the fraction `num / den` with a positive denominator. */
  function MulRatio(a: TimeDelta, num: int, den: int): Result<TimeDelta>
    requires 0 < den
  {
    Delta(0, 0, DivideAndRound(Micros(a) * num, den))
  }

  function TrueDivRatio(a: TimeDelta, num: int, den: int): Result<TimeDelta>
    requires 0 < den
  {
    if num == 0 then Raise(ZeroDivisionError) else Delta(0, 0, DivideAndRound(den * Micros(a), num))
  }

  function FloorDivDelta(a: TimeDelta, b: TimeDelta): Result<int>
  {
    if Micros(b) == 0 then Raise(ZeroDivisionError) else Ok(FloorDiv(Micros(a), Micros(b)))
  }

  function ModDelta(a: TimeDelta, b: TimeDelta): Result<TimeDelta>
  {
    if Micros(b) == 0 then Raise(ZeroDivisionError) else Delta(0, 0, FloorMod(Micros(a), Micros(b)))
  }

  function DivMod(a: TimeDelta, b: TimeDelta): Result<(int, TimeDelta)>
  {
    if Micros(b) == 0 then Raise(ZeroDivisionError)
    else
      var r :- Delta(0, 0, FloorMod(Micros(a), Micros(b)));
      Ok((FloorDiv(Micros(a), Micros(b)), r))
  }

  function DivideAndRound(a: int, b: int): int
    requires b != 0
  {
    var q, r := FloorDiv(a, b), 2 * FloorMod(a, b);
    var greaterThanHalf := if b > 0 then r > b else r < b;
    if greaterThanHalf || (r == b && q % 2 == 1) then q + 1 else q
  }

  function Cmp(x: int, y: int): int
  {
    if x == y then 0 else if x > y then 1 else -1
  }

  /** Comparison of the (days, seconds, microseconds) tuples. */
  function Compare(a: TimeDelta, b: TimeDelta): int
  {
    if a.days != b.days then Cmp(a.days, b.days)
    else if a.seconds != b.seconds then Cmp(a.seconds, b.seconds)
    else Cmp(a.microseconds, b.microseconds)
  }

  /** Sums, differences, negation, absolute value and integer multiples are those of the microseconds. */
  lemma ArithmeticIsExact(a: TimeDelta, b: TimeDelta, k: int)
    requires IsNormal(a) && IsNormal(b)
    ensures Represents(Add(a, b), Micros(a) + Micros(b))
    ensures Represents(Sub(a, b), Micros(a) - Micros(b))
    ensures Represents(Neg(a), -Micros(a))
    ensures Represents(Abs(a), if Micros(a) < 0 then -Micros(a) else Micros(a))
    ensures Represents(MulInt(a, k), Micros(a) * k)
  {
    hide Represents, Make;
    DeltaRepresents(a.days + b.days, a.seconds + b.seconds, a.microseconds + b.microseconds);
    DeltaRepresents(a.days - b.days, a.seconds - b.seconds, a.microseconds - b.microseconds);
    DeltaRepresents(-a.days, -a.seconds, -a.microseconds);
    DeltaRepresents(a.days * k, a.seconds * k, a.microseconds * k);
    MicrosTimes(a, k);
    AbsRepresents(a);
  }

  lemma MicrosTimes(a: TimeDelta, k: int)
    ensures Micros(a) * k == a.days * k * US_PER_DAY + a.seconds * k * US_PER_SECOND + a.microseconds * k
  {
  }

  lemma AbsRepresents(a: TimeDelta)
    requires IsNormal(a)
    ensures Represents(Abs(a), if Micros(a) < 0 then -Micros(a) else Micros(a))
  {
    hide Make;
    MicrosBound(a);
    DeltaRepresents(-a.days, -a.seconds, -a.microseconds);
  }

  /** Division by a number is floor division, or division to the nearest, of the microseconds. */
  lemma DivisionsAreExact(a: TimeDelta, k: int)
    ensures k == 0 ==> FloorDivInt(a, k) == Raise(ZeroDivisionError) == TrueDivInt(a, k)
    ensures k != 0 ==> Represents(FloorDivInt(a, k), FloorDiv(Micros(a), k))
    ensures k != 0 ==> Represents(TrueDivInt(a, k), DivideAndRound(Micros(a), k))
  {
    hide Represents, Make, DivideAndRound, FloorDiv;
    if k != 0 {
      DeltaRepresents(0, 0, FloorDiv(Micros(a), k));
      DeltaRepresents(0, 0, DivideAndRound(Micros(a), k));
    }
  }

  /** A product or quotient with a fraction is the nearest number of microseconds, and the even one of two. */
  lemma RatiosAreNearest(a: TimeDelta, num: int, den: int, q: int)
    requires 0 < den
    ensures Near(Micros(a) * num, den, q) ==> Represents(MulRatio(a, num, den), q)
    ensures num == 0 ==> TrueDivRatio(a, num, den) == Raise(ZeroDivisionError)
    ensures num != 0 && Near(den * Micros(a), num, q) ==> Represents(TrueDivRatio(a, num, den), q)
  {
    hide Represents, Make, DivideAndRound;
    DeltaRepresents(0, 0, DivideAndRound(Micros(a) * num, den));
    DivideAndRoundIsNearest(Micros(a) * num, den, q);
    if num != 0 {
      DeltaRepresents(0, 0, DivideAndRound(den * Micros(a), num));
      DivideAndRoundIsNearest(den * Micros(a), num, q);
    }
  }

  /** Tuple order is duration order: the sign of the comparison is that of the difference. */
  lemma CompareIsDuration(a: TimeDelta, b: TimeDelta)
    requires IsNormal(a) && IsNormal(b)
    ensures Compare(a, b) < 0 <==> Micros(a) < Micros(b)
    ensures Compare(a, b) > 0 <==> Micros(a) > Micros(b)
    ensures Compare(a, b) == 0 <==> a == b
    ensures -1 <= Compare(a, b) <= 1
  {
  }

  /** `divmod` by a non-zero duration always succeeds: a floor quotient, a normal remainder with the divisor's sign. */
  lemma DivModIsFloor(a: TimeDelta, b: TimeDelta)
    requires IsNormal(a) && IsNormal(b)
    ensures Micros(b) == 0 ==>
      && DivMod(a, b) == Raise(ZeroDivisionError)
      && FloorDivDelta(a, b) == Raise(ZeroDivisionError) && ModDelta(a, b) == Raise(ZeroDivisionError)
    ensures Micros(b) != 0 ==>
      && DivMod(a, b).Ok?
      && var (q, r) := DivMod(a, b).value;
      && FloorDivDelta(a, b) == Ok(q) && ModDelta(a, b) == Ok(r)
      && IsNormal(r) && Micros(a) == Micros(b) * q + Micros(r)
      && (0 <= Micros(r) < Micros(b) || Micros(b) < Micros(r) <= 0)
  {
    hide Make;
    if Micros(b) != 0 {
      var q, r := FloorDiv(Micros(a), Micros(b)), FloorMod(Micros(a), Micros(b));
      FloorDivUnique(Micros(a), Micros(b), q, r);
      DeltaRepresents(0, 0, r);
      SmallerIsInRange(b, r);
    }
  }

  /** Anything between zero and a normal duration has a normal form. */
  lemma SmallerIsInRange(b: TimeDelta, r: int)
    requires IsNormal(b) && (0 <= r < Micros(b) || Micros(b) < r <= 0)
    ensures exists v :: IsNormal(v) && Micros(v) == r
  {
    var day, rest := r / US_PER_DAY, r % US_PER_DAY;
    var v := TimeDelta(day, rest / US_PER_SECOND, rest % US_PER_SECOND);
    MicrosBound(b);
    assert r == day * US_PER_DAY + rest;
    assert rest == v.seconds * US_PER_SECOND + v.microseconds && v.seconds < SECONDS_PER_DAY;
    assert IsNormal(v) && Micros(v) == r;
  }

  /** `q` is nearest to `a / b`, and even when another integer is as near. */
  predicate Near(a: int, b: int, q: int)
    requires b != 0
  {
    var e, m := 2 * (a - b * q), if b < 0 then -b else b;
    -m < e < m || ((e == m || e == -m) && q % 2 == 0)
  }

  /** The nearest integer to `a / b`, and the even one of two equally near, for both signs of `b`. */
  lemma DivideAndRoundIsNearest(a: int, b: int, q: int)
    requires b != 0
    ensures q == DivideAndRound(a, b) <==> Near(a, b, q)
  {
    hide FloorDiv, FloorMod;
    var f, r := FloorDiv(a, b), FloorMod(a, b);
    FloorDivUnique(a, b, f, r);
    var e := QuotientError(a, b, f, r, q);
  }

  /** Twice the error of taking `q` for `a / b`, by how far `q` is from the floor quotient. */
  lemma QuotientError(a: int, b: int, f: int, r: int, q: int) returns (e: int)
    requires b != 0 && a == b * f + r && (0 <= r < b || b < r <= 0)
    ensures e == 2 * (a - b * q)
    ensures q == f ==> e == 2 * r
    ensures q == f + 1 ==> e == 2 * r - 2 * b
    ensures q < f || f + 1 < q ==> if 0 < b then e < -b || b < e else e < b || -b < e
  {
    e := 2 * (a - b * q);
    Distribute(b, f, q - f);
    if f < q {
      FartherQuotient(b, q - f);
    } else if q < f {
      FartherQuotient(b, f - q);
    }
  }

  lemma Distribute(b: int, x: int, y: int)
    ensures b * (x + y) == b * x + b * y && b * -y == -(b * y)
  {
  }

  lemma FartherQuotient(b: int, k: int)
    requires 1 <= k
    ensures if 0 <= b then b <= b * k else b * k <= b
    ensures 2 <= k ==> if 0 <= b then 2 * b <= b * k else b * k <= 2 * b
    ensures k == 1 ==> b * k == b
  {
  }
}
