/** Tables of powers of an int base, as the digit-splitting recursions use them. */
module IntPowers {
  import opened Arithmetic
  import opened PowerTable

  /** Every power of `base` that a recursion of width `w` looks up is in the table, with the right value. */
  ghost predicate HasPowers(table: map<nat, int>, base: nat, w: nat, limit: nat, needHi: bool)
  {
    forall k :: k in Needed(w, limit, needHi) ==> k in table && table[k] == Pow(base, k)
  }

  lemma HasPowersHalves(table: map<nat, int>, base: nat, w: nat, limit: nat, needHi: bool)
    requires HasPowers(table, base, w, limit, needHi) && limit < w
    ensures Which(w, needHi) in table && table[Which(w, needHi)] == Pow(base, Which(w, needHi))
    ensures HasPowers(table, base, Low(w), limit, needHi) && HasPowers(table, base, High(w), limit, needHi)
  {
    NeededStep(w, limit, needHi);
  }

  function Times(x: int, y: int): int
  {
    x * y
  }

  lemma TimesMonoid()
    ensures IsMonoid(Times, 1)
  {
    forall x, y, z
      ensures Times(x, Times(y, z)) == Times(Times(x, y), z)
    {
      MulAssoc(x, y, z);
    }
  }

  lemma {:induction false} PowOfInt(base: nat, n: nat)
    ensures PowOf(Times, 1, base, n) == Pow(base, n)
  {
    if n != 0 {
      PowOfInt(base, n - 1);
    }
  }

  /** The table of powers of an int base. */
  method PowersOfInt(w: nat, base: nat, limit: nat, needHi: bool) returns (table: map<nat, int>)
    ensures table.Keys == Needed(w, limit, needHi)
    ensures HasPowers(table, base, w, limit, needHi)
  {
    TimesMonoid();
    var powers, extra, _ := ComputePowers(w, base as int, limit, needHi, Times, 1);
    table := powers;
    forall k | k in table
      ensures table[k] == Pow(base, k)
    {
      PowOfInt(base, k);
    }
  }
}
