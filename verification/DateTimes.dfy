/** Datetimes, naive or with a fixed UTC offset: adding a duration and taking a difference. */
module DateTimes {
  import opened Calendar
  import opened IsoWeeks
  import opened Outcome
  import opened TimeDeltas

  const MAXORDINAL := 3652059

  datatype DateTime = DateTime(date: Ymd, hour: int, minute: int, second: int, microsecond: int)

  predicate IsDateTime(t: DateTime)
  {
    && IsYmd(t.date) && MINYEAR <= t.date.year <= MAXYEAR
    && 0 <= t.hour < 24 && 0 <= t.minute < 60 && 0 <= t.second < 60 && 0 <= t.microsecond < US_PER_SECOND
  }

  function SecondOfDay(t: DateTime): int
  {
    t.second + t.minute * 60 + t.hour * 3600
  }

  /** Microseconds since the start of ordinal 0. */
  function Instant(t: DateTime): int
    requires IsYmd(t.date)
  {
    Ymd2Ord(t.date) * US_PER_DAY + SecondOfDay(t) * US_PER_SECOND + t.microsecond
  }

  function Plus(t: DateTime, d: TimeDelta): Result<DateTime>
    requires IsDateTime(t)
  {
    var start :- Make(Ymd2Ord(t.date), t.second, t.microsecond, 0, t.minute, t.hour, 0);
    var delta :- Add(start, d);
    var hour, rem := delta.seconds / 3600, delta.seconds % 3600;
    var minute, second := rem / 60, rem % 60;
    if 0 < delta.days <= MAXORDINAL then
      Ok(DateTime(Ord2Ymd(delta.days), hour, minute, second, delta.microseconds))
    else
      Raise(OverflowError)
  }

  function Minus(t: DateTime, u: DateTime): Result<TimeDelta>
    requires IsDateTime(t) && IsDateTime(u)
  {
    Delta(Ymd2Ord(t.date) - Ymd2Ord(u.date), SecondOfDay(t) - SecondOfDay(u), t.microsecond - u.microsecond)
  }

  /** `t` is the datetime at instant `x`, or an overflow when no supported datetime is. */
  ghost predicate IsAt(t: Result<DateTime>, x: int)
  {
    match t
    case Ok(v) => IsDateTime(v) && Instant(v) == x
    case Raise(e) => e == OverflowError && forall v :: IsDateTime(v) ==> Instant(v) != x
  }

  lemma OrdinalRange(d: Ymd)
    requires IsYmd(d)
    ensures 1 <= d.year <= 9999 <==> 1 <= Ymd2Ord(d) <= 3652059
  {
    hide DaysBeforeYear;
    OrdinalOfSupportedYear(d);
    Week1Bounds(10000);
    YearOfCycles(10000, 24, 3, 24, 3);
  }

  lemma InstantBound(t: DateTime)
    requires IsDateTime(t)
    ensures Ymd2Ord(t.date) * US_PER_DAY <= Instant(t) < Ymd2Ord(t.date) * US_PER_DAY + US_PER_DAY
    ensures US_PER_DAY <= Instant(t) < (MAXORDINAL + 1) * US_PER_DAY
  {
    hide DaysBeforeYear, Ymd2Ord;
    OrdinalRange(t.date);
  }

  /** Different datetimes are at different instants. */
  lemma InstantUnique(t: DateTime, u: DateTime)
    requires IsDateTime(t) && IsDateTime(u) && Instant(t) == Instant(u)
    ensures t == u
  {
    hide DaysBeforeYear, Ymd2Ord, Ord2Ymd, DaysInMonth;
    SameParts(Ymd2Ord(t.date), SecondOfDay(t), t.microsecond, Ymd2Ord(u.date), SecondOfDay(u), u.microsecond);
    SameClock(t, u);
    DateRoundTrip(t.date);
    DateRoundTrip(u.date);
  }

  lemma SameParts(day: int, sec: int, us: int, day': int, sec': int, us': int)
    requires 0 <= sec < SECONDS_PER_DAY && 0 <= us < US_PER_SECOND
    requires 0 <= sec' < SECONDS_PER_DAY && 0 <= us' < US_PER_SECOND
    requires day * US_PER_DAY + sec * US_PER_SECOND + us == day' * US_PER_DAY + sec' * US_PER_SECOND + us'
    ensures day == day' && sec == sec' && us == us'
  {
  }

  lemma SameClock(t: DateTime, u: DateTime)
    requires 0 <= t.minute < 60 && 0 <= t.second < 60 && 0 <= u.minute < 60 && 0 <= u.second < 60
    requires SecondOfDay(t) == SecondOfDay(u)
    ensures t.hour == u.hour && t.minute == u.minute && t.second == u.second
  {
  }

  lemma IsAtUnique(r: Result<DateTime>, r': Result<DateTime>, x: int)
    requires IsAt(r, x) && IsAt(r', x)
    ensures r == r'
  {
    if r.Ok? && r'.Ok? {
      InstantUnique(r.value, r'.value);
    }
  }

  /** The fields of a day count and a second count are a datetime at that instant. */
  lemma FromDelta(delta: TimeDelta)
    requires IsNormal(delta) && 0 < delta.days <= MAXORDINAL
    ensures var rem := delta.seconds % 3600;
      var t := DateTime(Ord2Ymd(delta.days), delta.seconds / 3600, rem / 60, rem % 60, delta.microseconds);
      IsDateTime(t) && Instant(t) == Micros(delta)
  {
    hide DaysBeforeYear, Ymd2Ord, Ord2Ymd;
    OrdinalRoundTrip(delta.days);
    OrdinalRange(Ord2Ymd(delta.days));
  }

  lemma StartOf(t: DateTime)
    requires IsDateTime(t)
    ensures var start := Make(Ymd2Ord(t.date), t.second, t.microsecond, 0, t.minute, t.hour, 0);
      start.Ok? && IsNormal(start.value) && Micros(start.value) == Instant(t)
  {
    hide DaysBeforeYear, Ymd2Ord, Make;
    OrdinalRange(t.date);
    MakeRepresents(Ymd2Ord(t.date), t.second, t.microsecond, 0, t.minute, t.hour, 0);
    var v := TimeDelta(Ymd2Ord(t.date), SecondOfDay(t), t.microsecond);
    assert IsNormal(v) && Micros(v) == Instant(t);
  }

  /** Adding a duration moves the instant by exactly that duration, and fails exactly outside years 1 to 9999. */
  lemma PlusIsExact(t: DateTime, d: TimeDelta)
    requires IsDateTime(t) && IsNormal(d)
    ensures IsAt(Plus(t, d), Instant(t) + Micros(d))
  {
    hide DaysBeforeYear, Ymd2Ord, Make, Add, Instant;
    StartOf(t);
    var start := Make(Ymd2Ord(t.date), t.second, t.microsecond, 0, t.minute, t.hour, 0).value;
    ArithmeticIsExact(start, d, 0);
    var total := Instant(t) + Micros(d);
    match Add(start, d)
    case Ok(delta) =>
      MicrosBound(delta);
      if 0 < delta.days <= MAXORDINAL {
        FromDelta(delta);
      } else {
        forall v | IsDateTime(v)
          ensures Instant(v) != total
        {
          InstantBound(v);
        }
      }
    case Raise(_) =>
      forall v | IsDateTime(v)
        ensures Instant(v) != total
      {
        StartOf(v);
      }
  }

  lemma MinusIsExact(t: DateTime, u: DateTime)
    requires IsDateTime(t) && IsDateTime(u)
    ensures Minus(t, u).Ok? && IsNormal(Minus(t, u).value) && Micros(Minus(t, u).value) == Instant(t) - Instant(u)
  {
    hide DaysBeforeYear, Ymd2Ord, Make, Represents;
    var days, secs := Ymd2Ord(t.date) - Ymd2Ord(u.date), SecondOfDay(t) - SecondOfDay(u);
    DeltaRepresents(days, secs, t.microsecond - u.microsecond);
    OrdinalRange(t.date);
    OrdinalRange(u.date);
    DifferenceFits(Minus(t, u), days, secs, t.microsecond - u.microsecond);
  }

  lemma DifferenceFits(r: Result<TimeDelta>, days: int, secs: int, us: int)
    requires Represents(r, days * US_PER_DAY + secs * US_PER_SECOND + us)
    requires -MAXORDINAL <= days <= MAXORDINAL && -SECONDS_PER_DAY < secs < SECONDS_PER_DAY
    requires -US_PER_SECOND < us < US_PER_SECOND
    ensures r.Ok? && IsNormal(r.value) && Micros(r.value) == days * US_PER_DAY + secs * US_PER_SECOND + us
  {
    SmallFits(r, days * US_PER_DAY + secs * US_PER_SECOND + us);
  }

  /** Anything up to a few million days has a normal form. */
  lemma SmallFits(r: Result<TimeDelta>, total: int)
    requires Represents(r, total) && -4000000 * US_PER_DAY <= total <= 4000000 * US_PER_DAY
    ensures r.Ok? && IsNormal(r.value) && Micros(r.value) == total
  {
    var day, rest := total / US_PER_DAY, total % US_PER_DAY;
    var v := TimeDelta(day, rest / US_PER_SECOND, rest % US_PER_SECOND);
    assert IsNormal(v) && Micros(v) == total;
  }

  /** Subtracting a duration is adding its negation. */
  function MinusDelta(t: DateTime, d: TimeDelta): Result<DateTime>
    requires IsDateTime(t)
  {
    var negated :- Neg(d);
    Plus(t, negated)
  }

  /** When the negation itself overflows, so does the difference: no supported datetime is that far away. */
  lemma MinusDeltaIsExact(t: DateTime, d: TimeDelta)
    requires IsDateTime(t) && IsNormal(d)
    ensures IsAt(MinusDelta(t, d), Instant(t) - Micros(d))
  {
    hide DaysBeforeYear, Ymd2Ord, Make, Neg, Instant, Plus;
    ArithmeticIsExact(d, d, 0);
    match Neg(d)
    case Ok(negated) =>
      PlusIsExact(t, negated);
    case Raise(_) =>
      forall v | IsDateTime(v)
        ensures Instant(v) != Instant(t) - Micros(d)
      {
        MinusIsExact(v, t);
      }
  }

  /** The difference of datetimes that may have a UTC offset; one with and one without cannot be mixed. */
  function MinusAware(t: DateTime, myoff: Option<TimeDelta>, u: DateTime, otoff: Option<TimeDelta>): Result<TimeDelta>
    requires IsDateTime(t) && IsDateTime(u)
  {
    var base :- Minus(t, u);
    if myoff == otoff then Ok(base)
    else if myoff.None? || otoff.None? then Raise(TypeError)
    else
      var sum :- Add(base, otoff.value);
      Sub(sum, myoff.value)
  }

  /** UTC offsets are strictly between minus and plus 24 hours. */
  predicate IsOffset(off: TimeDelta)
  {
    IsNormal(off) && -US_PER_DAY < Micros(off) < US_PER_DAY
  }

  /** Two naive datetimes, or two with one offset, differ as on the clock; a naive and an aware one do not mix. */
  lemma MinusByZones(t: DateTime, myoff: Option<TimeDelta>, u: DateTime, otoff: Option<TimeDelta>)
    requires IsDateTime(t) && IsDateTime(u)
    ensures myoff == otoff ==>
      var r := MinusAware(t, myoff, u, otoff);
      r.Ok? && IsNormal(r.value) && Micros(r.value) == Instant(t) - Instant(u)
    ensures myoff.Some? != otoff.Some? ==> MinusAware(t, myoff, u, otoff) == Raise(TypeError)
  {
    hide Minus, IsDateTime, Instant, IsNormal, Micros;
    MinusIsExact(t, u);
  }

  /** With offsets within 24 hours the difference is exactly that of the two UTC instants. */
  lemma AwareMinusIsExact(t: DateTime, myoff: TimeDelta, u: DateTime, otoff: TimeDelta)
    requires IsDateTime(t) && IsDateTime(u) && IsOffset(myoff) && IsOffset(otoff)
    ensures var r := MinusAware(t, Some(myoff), u, Some(otoff));
      && r.Ok? && IsNormal(r.value)
      && Micros(r.value) == (Instant(t) - Micros(myoff)) - (Instant(u) - Micros(otoff))
  {
    hide DaysBeforeYear, Ymd2Ord, Make, Add, Sub, Minus, Represents, Instant;
    MinusIsExact(t, u);
    InstantBound(t);
    InstantBound(u);
    var base := Minus(t, u).value;
    if myoff != otoff {
      ArithmeticIsExact(base, otoff, 0);
      SmallFits(Add(base, otoff), Micros(base) + Micros(otoff));
      var sum := Add(base, otoff).value;
      ArithmeticIsExact(sum, myoff, 0);
      SmallFits(Sub(sum, myoff), Micros(sum) - Micros(myoff));
    }
  }

  /** Adding a duration keeps the time zone. */
  function PlusAware(t: DateTime, off: Option<TimeDelta>, d: TimeDelta): Result<(DateTime, Option<TimeDelta>)>
    requires IsDateTime(t)
  {
    var u :- Plus(t, d);
    Ok((u, off))
  }

  /** Adding a duration moves the clock by it, keeps the zone, and overflows exactly out of range. */
  lemma PlusAwareIsExact(t: DateTime, off: Option<TimeDelta>, d: TimeDelta)
    requires IsDateTime(t) && IsNormal(d)
    ensures match PlusAware(t, off, d)
            case Ok((v, off')) => IsDateTime(v) && Instant(v) == Instant(t) + Micros(d) && off' == off
            case Raise(e) =>
              e == OverflowError && forall v :: IsDateTime(v) ==> Instant(v) != Instant(t) + Micros(d)
  {
    hide Plus, IsDateTime, Instant, IsNormal, Micros;
    PlusIsExact(t, d);
  }

  /** Adding a duration moves the difference to any datetime, in any other zone, by exactly that duration. */
  lemma AwarePlusMovesDifference(t: DateTime, off: TimeDelta, d: TimeDelta, v: DateTime, u: DateTime, off': TimeDelta)
    requires IsDateTime(t) && IsDateTime(u) && IsNormal(d) && IsOffset(off) && IsOffset(off')
    requires PlusAware(t, Some(off), d) == Ok((v, Some(off)))
    ensures IsDateTime(v) && MinusAware(t, Some(off), u, Some(off')).Ok?
    ensures MinusAware(v, Some(off), u, Some(off')) == Add(MinusAware(t, Some(off), u, Some(off')).value, d)
  {
    hide Plus, MinusAware, IsDateTime, Instant, Add, Represents, IsOffset, IsNormal, Micros, Sub, Neg, Abs, MulInt;
    PlusIsExact(t, d);
    StaysAt(t, d, v);
    AwareMinusIsExact(t, off, u, off');
    AwareMinusIsExact(v, off, u, off');
    var before, after := MinusAware(t, Some(off), u, Some(off')), MinusAware(v, Some(off), u, Some(off'));
    ArithmeticIsExact(before.value, d, 0);
    NormalRepresents(after, Micros(before.value) + Micros(d));
    RepresentsUnique(after, Add(before.value, d), Micros(before.value) + Micros(d));
  }

  lemma StaysAt(t: DateTime, d: TimeDelta, v: DateTime)
    requires IsDateTime(t) && IsNormal(d) && Plus(t, d) == Ok(v)
    ensures IsDateTime(v) && Instant(v) == Instant(t) + Micros(d)
  {
    hide Plus, IsDateTime, Instant;
    PlusIsExact(t, d);
  }

  lemma NormalRepresents(r: Result<TimeDelta>, total: int)
    requires r.Ok? && IsNormal(r.value) && Micros(r.value) == total
    ensures Represents(r, total)
  {
  }

  /** `(t + d) - t == d`. */
  lemma PlusThenMinus(t: DateTime, d: TimeDelta, u: DateTime)
    requires IsDateTime(t) && IsNormal(d) && IsDateTime(u) && Plus(t, d) == Ok(u)
    ensures Minus(u, t) == Ok(d)
  {
    hide DaysBeforeYear, Ymd2Ord, Plus, Minus, Instant, IsDateTime;
    PlusIsExact(t, d);
    MinusIsExact(u, t);
    RepresentsUnique(Minus(u, t), Ok(d), Micros(d));
  }

  /** `u + (t - u) == t`. */
  lemma MinusThenPlus(t: DateTime, u: DateTime, d: TimeDelta)
    requires IsDateTime(t) && IsDateTime(u) && Minus(t, u) == Ok(d)
    ensures Plus(u, d) == Ok(t)
  {
    hide DaysBeforeYear, Ymd2Ord, Plus, Minus, Instant;
    MinusIsExact(t, u);
    PlusIsExact(u, d);
    IsAtUnique(Plus(u, d), Ok(t), Instant(t));
  }

  /** `(t + a) + b == t + (a + b)`, overflows included, once `t + a` is in range. */
  lemma PlusAssociates(t: DateTime, a: TimeDelta, b: TimeDelta, u: DateTime)
    requires IsDateTime(t) && IsNormal(a) && IsNormal(b) && IsDateTime(u) && Plus(t, a) == Ok(u)
    ensures Plus(u, b) == if Add(a, b).Ok? then Plus(t, Add(a, b).value) else Raise(OverflowError)
  {
    hide DaysBeforeYear, Ymd2Ord, Plus, Make, Add, Instant, Minus, Micros, IsNormal, IsYmd;
    PlusIsExact(t, a);
    PlusIsExact(u, b);
    ArithmeticIsExact(a, b, 0);
    if Add(a, b).Ok? {
      PlusIsExact(t, Add(a, b).value);
      IsAtUnique(Plus(u, b), Plus(t, Add(a, b).value), Instant(t) + Micros(a) + Micros(b));
    } else if Plus(u, b).Ok? {
      MinusIsExact(Plus(u, b).value, t);
    }
  }
}
