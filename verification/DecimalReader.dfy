/** Decimal string to int through base 256: divisions by powers of 256 become products with chopped reciprocals. */
module DecimalReader {
  import opened Arithmetic
  import opened Bits
  import opened ChoppedDecimals
  import opened IntPowers
  import opened Numerals
  import opened Outcome
  import opened PowerTable

  /* ----- big-endian bytes ----- */

  ghost predicate IsBytes(bytes: seq<nat>)
  {
    forall i :: 0 <= i < |bytes| ==> bytes[i] < 256
  }

  /** `int.to_bytes(w)`: exactly `w` bytes, most significant first. */
  function ToBytes(n: nat, w: nat): (bytes: seq<nat>)
    requires n < Pow(256, w)
    ensures |bytes| == w && IsBytes(bytes)
  {
    if w == 0 then [] else ToBytes(n / 256, w - 1) + [n % 256]
  }

  /** `int.from_bytes`. */
  function FromBytes(bytes: seq<nat>): nat
  {
    if |bytes| == 0 then 0 else 256 * FromBytes(bytes[..|bytes| - 1]) + bytes[|bytes| - 1]
  }

  lemma {:induction false} FromToBytes(n: nat, w: nat)
    requires n < Pow(256, w)
    ensures FromBytes(ToBytes(n, w)) == n
  {
    if w != 0 {
      FromToBytes(n / 256, w - 1);
      assert ToBytes(n, w)[..w - 1] == ToBytes(n / 256, w - 1);
    }
  }

  /** Dividing by a power of 256 splits the bytes. */
  lemma {:induction false} ToBytesSplit(n: nat, w1: nat, w2: nat)
    requires n < Pow(256, w1 + w2)
    ensures 0 <= n / Pow(256, w2) < Pow(256, w1)
    ensures ToBytes(n, w1 + w2) == ToBytes(n / Pow(256, w2), w1) + ToBytes(n % Pow(256, w2), w2)
  {
    if w2 == 0 {
    } else {
      var p := Pow(256, w2 - 1);
      assert n / 256 < Pow(256, w1 + (w2 - 1));
      ToBytesSplit(n / 256, w1, w2 - 1);
      DivModCompose(n, 256, p);
      var low := n / 256 % p;
      assert (256 * low + n % 256) / 256 == low && (256 * low + n % 256) % 256 == n % 256;
      assert ToBytes(n % Pow(256, w2), w2) == ToBytes(low, w2 - 1) + [n % 256];
    }
  }

  /* ----- the table ----- */

  /** A power of 256 and its chopped reciprocal. */
  datatype Entry = Entry(power: nat, recip: real)

  ghost predicate IsEntry(e: Entry, k: nat, guard: nat)
    requires 0 < guard
  {
    e == Entry(Pow(256, k), StoredReciprocal(Pow(256, k), guard))
  }

  ghost predicate HasReciprocals(table: map<nat, Entry>, w: nat, limit: nat, guard: nat)
    requires 0 < guard
  {
    forall k :: k in Needed(w, limit, true) ==> k in table && IsEntry(table[k], k, guard)
  }

  lemma MulMonoid()
    ensures IsMonoid(Mul, 1.0)
  {
  }

  lemma {:induction false} PowOfReciprocal(k: nat)
    ensures PowOf(Mul, 1.0, 1.0 / 256.0, k) == 1.0 / Pow(256, k) as real
  {
    if k != 0 {
      PowOfReciprocal(k - 1);
      ReciprocalStep(Pow(256, k - 1) as real);
      assert Pow(256, k) as real == 256.0 * Pow(256, k - 1) as real;
    }
  }

  lemma ReciprocalStep(p: real)
    requires 0.0 < p
    ensures Mul(1.0 / p, 1.0 / 256.0) == 1.0 / (256.0 * p)
  {
  }

  /* ----- how often the division fallback is used ----- */

  /** Dividing `n` by `p` needs more than one correction. */
  predicate FallsBack(n: nat, p: nat, guard: nat)
    requires 0 < p && 0 < guard
  {
    Guess(n, p, guard) + 1 < n / p
  }

  /** The divisions, of all that converting `n` to `w` bytes asks for, that need more than one correction. */
  ghost function Fallbacks(n: nat, w: nat, byteLimit: nat, guard: nat): nat
    requires 0 < byteLimit && 0 < guard
    decreases w
  {
    if w <= byteLimit then 0
    else
      var p := Pow(256, High(w));
      DivModFacts(n, p);
      (if FallsBack(n, p, guard) then 1 else 0)
      + Fallbacks(n / p, Low(w), byteLimit, guard) + Fallbacks(n % p, High(w), byteLimit, guard)
  }

  lemma {:induction false} NoFallbacks(n: nat, w: nat, byteLimit: nat, guard: nat)
    requires 0 < byteLimit && 2 <= guard && n < Pow(256, w)
    ensures Fallbacks(n, w, byteLimit, guard) == 0
    decreases w
  {
    if byteLimit < w {
      var p := Pow(256, High(w));
      DividendFits(n, w, High(w));
      GuessBounds(n, p, guard);
      ToBytesSplit(n, Low(w), High(w));
      NoFallbacks(n / p, Low(w), byteLimit, guard);
      NoFallbacks(n % p, High(w), byteLimit, guard);
    }
  }

  /** A four-byte number for which a reader with one guard digit, and leaves of two or three bytes, falls back. */
  lemma FallbackReached(byteLimit: nat)
    requires 2 <= byteLimit <= 3
    ensures 97189888 < Pow(256, 4) && 0 < Fallbacks(97189888, 4, byteLimit, 1)
  {
    assert Pow(256, 2) == 65536 && Pow(256, 4) == 4294967296;
    OneGuardDigitIsTooFew();
    assert High(4) == 2;
  }

  ghost predicate NeverFallsBack(guard: nat, n: nat, w: nat, byteLimit: nat)
    requires 0 < guard
  {
    0 < byteLimit && n < Pow(256, w) ==> Fallbacks(n, w, byteLimit, guard) == 0
  }

  /** The fallback is unreachable, whatever is read, exactly when there are at least two guard digits. */
  lemma NoFallbackIffTwoGuardDigits(guard: nat)
    requires 0 < guard
    ensures (forall n: nat, w: nat, byteLimit: nat :: NeverFallsBack(guard, n, w, byteLimit)) <==> 2 <= guard
  {
    hide Fallbacks, Pow;
    if 2 <= guard {
      forall n: nat, w: nat, byteLimit: nat
        ensures NeverFallsBack(guard, n, w, byteLimit)
      {
        if 0 < byteLimit && n < Pow(256, w) {
          NoFallbacks(n, w, byteLimit, guard);
        }
      }
    } else {
      FallbackReached(2);
      assert !NeverFallsBack(guard, 97189888, 4, 2);
    }
  }

  const MAX_PREC: nat := 999999999999999999

  class Reader {
    const guard: nat
    const byteLimit: nat
    var result: seq<nat>
    var prec: nat
    /** How often each correction count was seen: 0, 1, or 999 for the division fallback. */
    var spread: multiset<nat>

    constructor (guard: nat, byteLimit: nat)
      ensures this.guard == guard && this.byteLimit == byteLimit
      ensures result == [] && spread == multiset{} && prec == MAX_PREC
    {
      this.guard, this.byteLimit := guard, byteLimit;
      result, spread, prec := [], multiset{}, MAX_PREC;
    }

    /** The powers that `Inner` will ask for, each with its reciprocal cut to the digits that can matter. */
    method BuildTable(w: nat) returns (table: map<nat, Entry>)
      requires 0 < guard
      modifies this`prec
      ensures table.Keys == Needed(w, byteLimit, true) && HasReciprocals(table, w, byteLimit, guard)
      ensures prec == MAX_PREC
    {
      MulMonoid();
      var pow256 := PowersOfInt(w, 256, byteLimit, true);
      var rpow256, extra, _ := ComputePowers(w, 1.0 / 256.0, byteLimit, true, Mul, 1.0);
      table := map[];
      var keys := pow256.Keys;
      while keys != {}
        invariant keys <= pow256.Keys == rpow256.Keys
        invariant forall k :: k in table <==> k in pow256 && k !in keys
        invariant forall k :: k in table ==> IsEntry(table[k], k, guard)
      {
        var k :| k in keys;
        keys := keys - {k};
        var entry := MakeEntry(k, pow256[k], rpow256[k]);
        table := table[k := entry];
      }
      prec := MAX_PREC;
    }

    method MakeEntry(ghost k: nat, v: int, r: real) returns (entry: Entry)
      requires 0 < guard && v == Pow(256, k) && r == PowOf(Mul, 1.0, 1.0 / 256.0, k)
      modifies this`prec
      ensures IsEntry(entry, k, guard)
    {
      PowOfReciprocal(k);
      AdjustedOfInteger(v);
      prec := Adjusted(v as real) + guard + 1;
      entry := Entry(v, Chop(r, prec));
    }

    /** The integer part of the chopped product, and what it leaves of `n`. */
    method GuessQuotient(n: nat, entry: Entry, ghost k: nat) returns (hi: nat, lo: nat)
      requires 0 < guard && IsEntry(entry, k, guard) && n < entry.power * entry.power
      modifies this`prec
      ensures n == entry.power * hi + lo && hi == Guess(n, entry.power, guard)
      ensures 2 <= guard ==> lo < 2 * entry.power
      ensures prec == MAX_PREC
    {
      GuessBounds(n, entry.power, guard);
      prec := WorkingPrecision(n, entry.power, guard);
      hi := ChoppedProduct(n as real, entry.recip, prec).Floor;
      prec := MAX_PREC;
      GuessRemainder(n, entry.power, hi);
      lo := n - hi * entry.power;
    }

    /** Floor division of `n` by an entry's power: the guess, corrected at most once, or by a real division. */
    method Divide(n: nat, entry: Entry, ghost k: nat) returns (hi: nat, lo: nat)
      requires 0 < guard && IsEntry(entry, k, guard) && n < entry.power * entry.power
      modifies this`prec, this`spread
      ensures n == entry.power * hi + lo && lo < entry.power
      ensures spread[999] == old(spread[999]) + if FallsBack(n, entry.power, guard) then 1 else 0
      ensures old(spread) <= spread && |spread| == |old(spread)| + 1
      ensures prec == MAX_PREC
    {
      var p256 := entry.power;
      hi, lo := GuessQuotient(n, entry, k);
      FallbackRemainder(n, p256, hi, lo, guard);
      var count := 0;
      if p256 <= lo {
        count := 1;
        MulSucc(p256, hi);
        lo := lo - p256;
        hi := hi + 1;
        if p256 <= lo {
          count := 999;
          DivModFacts(lo, p256);
          MulSum(p256, hi, lo / p256);
          hi, lo := hi + lo / p256, lo % p256;
        }
      }
      spread := spread + multiset{count};
    }

    /** Appends exactly the `w` bytes of `n`; the division fallback is used as often as `Fallbacks` says. */
    method Inner(n: nat, w: nat, pow256: map<nat, Entry>)
      requires 0 < guard && 0 < byteLimit
      requires n < Pow(256, w) && HasReciprocals(pow256, w, byteLimit, guard)
      modifies this
      ensures result == old(result) + ToBytes(n, w)
      ensures spread[999] == old(spread[999]) + Fallbacks(n, w, byteLimit, guard)
      ensures old(prec) == MAX_PREC ==> prec == MAX_PREC
      decreases w
    {
      hide Fallbacks, Pow, ToBytes, HasReciprocals, FallsBack, IsEntry;
      if w <= byteLimit {
        result := result + ToBytes(n, w);
        NoDivisions(n, w, byteLimit, guard);
      } else {
        var w1 := Low(w);
        var w2 := w - w1;
        HasReciprocalsHalves(pow256, w, byteLimit, guard);
        DividendFits(n, w, w2);
        var hi, lo := Divide(n, pow256[w2], w2);
        DivModUnique(n, pow256[w2].power, hi, lo);
        ToBytesSplit(n, w1, w2);
        DivisionsOfHalves(n, w, byteLimit, guard);
        Inner(hi, w1, pow256);
        Inner(lo, w2, pow256);
      }
    }
  }

  lemma HasReciprocalsHalves(table: map<nat, Entry>, w: nat, limit: nat, guard: nat)
    requires 0 < guard && HasReciprocals(table, w, limit, guard) && limit < w
    ensures High(w) in table && IsEntry(table[High(w)], High(w), guard)
    ensures table[High(w)].power == Pow(256, High(w))
    ensures HasReciprocals(table, Low(w), limit, guard) && HasReciprocals(table, High(w), limit, guard)
  {
    hide StoredReciprocal;
    NeededStep(w, limit, true);
  }

  lemma NoDivisions(n: nat, w: nat, byteLimit: nat, guard: nat)
    requires 0 < byteLimit && 0 < guard && w <= byteLimit
    ensures Fallbacks(n, w, byteLimit, guard) == 0
  {
  }

  lemma DivisionsOfHalves(n: nat, w: nat, byteLimit: nat, guard: nat)
    requires 0 < byteLimit < w && 0 < guard
    ensures var p := Pow(256, High(w));
      && 0 <= n / p && 0 <= n % p
      && Fallbacks(n, w, byteLimit, guard) ==
         (if FallsBack(n, p, guard) then 1 else 0)
         + Fallbacks(n / p, Low(w), byteLimit, guard) + Fallbacks(n % p, High(w), byteLimit, guard)
  {
    hide Pow, FallsBack;
    DivModFacts(n, Pow(256, High(w)));
  }

  /** The dividend is below the square of the divisor because the halves are split with the larger one below. */
  lemma DividendFits(n: nat, w: nat, w2: nat)
    requires n < Pow(256, w) && w2 == High(w)
    ensures n < Pow(256, w2) * Pow(256, w2)
  {
    PowMonotone(256, w, w2 + w2);
    PowAdd(256, w2, w2);
  }

  lemma FallbackRemainder(n: nat, p: nat, hi: nat, lo: nat, guard: nat)
    requires 0 < p && 0 < guard && hi == Guess(n, p, guard) && n == p * hi + lo
    ensures FallsBack(n, p, guard) <==> 2 * p <= lo
  {
    hide Guess;
    DivModFacts(n, p);
    MulSum(p, hi, lo / p);
    DivModUnique(n, p, hi + lo / p, lo % p);
    if 2 * p <= lo {
      DivUpper(lo, p, lo / p + 1);
    }
  }

  lemma GuessRemainder(n: nat, p: nat, hi: int)
    requires 0 < p && 0 <= hi <= n / p
    ensures 0 <= n - hi * p && n == p * hi + (n - hi * p)
    ensures n / p <= hi + 1 ==> n - hi * p < 2 * p
  {
    DivModFacts(n, p);
    Arithmetic.MulMonotone(p, hi, n / p);
    MulSucc(p, hi);
    if n / p <= hi + 1 {
      Arithmetic.MulMonotone(p, n / p, hi + 1);
    }
  }

  /**
    The int that `s` stands for. `w` is the estimated number of bytes, which must be large enough; sizes of
    46 bits and more are refused.
    */
  method DecStrToInt(s: string, w: nat, guard: nat, byteLimit: nat) returns (res: Result<nat>, ghost fallbacks: nat)
    requires IsNumeral(s) && DecimalValue(s) < Pow(256, w)
    requires 0 < guard && 0 < byteLimit
    ensures res == if 46 <= BitLength(w) then Raise(ValueError) else Ok(DecimalValue(s))
    ensures res.Ok? ==> fallbacks == Fallbacks(DecimalValue(s), w, byteLimit, guard)
    ensures 2 <= guard ==> fallbacks == 0
  {
    if 46 <= BitLength(w) {
      return Raise(ValueError), 0;
    }
    var reader := new Reader(guard, byteLimit);
    var pow256 := reader.BuildTable(w);
    reader.Inner(DecimalValue(s), w, pow256);
    assert reader.result == ToBytes(DecimalValue(s), w);
    FromToBytes(DecimalValue(s), w);
    fallbacks := reader.spread[999];
    if 2 <= guard {
      NoFallbacks(DecimalValue(s), w, byteLimit, guard);
    }
    res := Ok(FromBytes(reader.result));
  }
}
