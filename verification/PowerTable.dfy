/** The worklist that predicts, and then computes, exactly the powers that a halving recursion will look up. */
module PowerTable {

  /* ----- the consumer: a recursion that halves `w` until it is at most `limit` ----- */

  function Low(w: nat): nat
  {
    w / 2
  }

  function High(w: nat): nat
  {
    w - Low(w)
  }

  function Which(w: nat, needHi: bool): nat
  {
    if needHi then High(w) else Low(w)
  }

  /** Every width above `limit` that the halving recursion started at `w` reaches. */
  ghost function Widths(w: nat, limit: nat): set<nat>
  {
    if w <= limit then {}
    else {w} + Widths(Low(w), limit) + (if High(w) < w then Widths(High(w), limit) else {})
  }

  /** Every exponent that the halving recursion started at `w` looks up. */
  ghost function Needed(w: nat, limit: nat, needHi: bool): set<nat>
  {
    set x | x in Widths(w, limit) :: Which(x, needHi)
  }

  /** What a consumer relies on: its own exponent and those of both halves are in the table. */
  lemma NeededStep(w: nat, limit: nat, needHi: bool)
    requires limit < w
    ensures Which(w, needHi) in Needed(w, limit, needHi)
    ensures Needed(Low(w), limit, needHi) <= Needed(w, limit, needHi)
    ensures Needed(High(w), limit, needHi) <= Needed(w, limit, needHi)
  {
    assert w in Widths(w, limit);
    assert Widths(High(w), limit) <= Widths(w, limit);
  }

  lemma {:induction false} WidthsBound(w: nat, limit: nat, x: nat)
    requires x in Widths(w, limit)
    ensures limit < x <= w
  {
    if x == w {
    } else if x in Widths(Low(w), limit) {
      WidthsBound(Low(w), limit, x);
    } else {
      WidthsBound(High(w), limit, x);
    }
  }

  /** The widths are closed under halving. */
  lemma {:induction false} WidthsClosed(w: nat, limit: nat, x: nat)
    requires x in Widths(w, limit)
    ensures limit < Low(x) ==> Low(x) in Widths(w, limit)
    ensures limit < High(x) ==> High(x) in Widths(w, limit)
  {
    if x == w {
      assert High(x) == x || limit < High(x) ==> High(x) in {High(x)} + Widths(High(x), limit);
    } else if x in Widths(Low(w), limit) {
      WidthsClosed(Low(w), limit, x);
    } else {
      WidthsClosed(High(w), limit, x);
    }
  }

  predicate IsHalf(w: nat, half: nat)
  {
    half == Low(w) || half == High(w)
  }

  ghost predicate Closed(seen: set<nat>, pending: set<nat>, limit: nat)
  {
    forall x: nat, half: nat {:trigger x in seen, IsHalf(x, half)} ::
      x in seen && IsHalf(x, half) ==> half <= limit || half in seen || half in pending
  }

  /** Anything closed under halving that holds `w` holds every width. */
  lemma {:induction false} WidthsLeast(w: nat, limit: nat, seen: set<nat>)
    requires Closed(seen, {}, limit) && (w <= limit || w in seen)
    ensures Widths(w, limit) <= seen
  {
    if limit < w {
      assert IsHalf(w, Low(w)) && IsHalf(w, High(w));
      WidthsLeast(Low(w), limit, seen);
      if High(w) < w {
        WidthsLeast(High(w), limit, seen);
      }
    }
  }

  /* ----- powers in anything that can be multiplied ----- */

  ghost predicate IsMonoid<T(!new)>(mul: (T, T) -> T, one: T)
  {
    && (forall x, y, z :: mul(x, mul(y, z)) == mul(mul(x, y), z))
    && (forall x :: mul(x, one) == x)
  }

  function PowOf<T>(mul: (T, T) -> T, one: T, base: T, n: nat): T
  {
    if n == 0 then one else mul(PowOf(mul, one, base, n - 1), base)
  }

  lemma {:induction false} PowOfSum<T(!new)>(mul: (T, T) -> T, one: T, base: T, m: nat, n: nat)
    requires IsMonoid(mul, one)
    ensures PowOf(mul, one, base, m + n) == mul(PowOf(mul, one, base, m), PowOf(mul, one, base, n))
  {
    if n == 0 {
    } else {
      PowOfSum(mul, one, base, m, n - 1);
      assert m + n - 1 == m + (n - 1);
    }
  }

  /* ----- the worklist ----- */

  method MaxOf(s: set<nat>) returns (m: nat)
    requires s != {}
    ensures m in s && forall x :: x in s ==> x <= m
  {
    m :| m in s;
    var rest := s - {m};
    while rest != {}
      invariant rest <= s && m in s
      invariant forall x :: x in s && x !in rest ==> x <= m
    {
      var x :| x in rest;
      rest := rest - {x};
      if m < x {
        m := x;
      }
    }
  }

  method MinOf(s: set<nat>) returns (m: nat)
    requires s != {}
    ensures m in s && forall x :: x in s ==> m <= x
  {
    m :| m in s;
    var rest := s - {m};
    while rest != {}
      invariant rest <= s && m in s
      invariant forall x :: x in s && x !in rest ==> m <= x
    {
      var x :| x in rest;
      rest := rest - {x};
      if x < m {
        m := x;
      }
    }
  }

  lemma WhichNeeded(w: nat, limit: nat, needHi: bool, x: nat)
    requires x in Widths(w, limit)
    ensures Which(x, needHi) in Needed(w, limit, needHi)
  {
  }

  lemma ClosedStep(seen: set<nat>, pending: set<nat>, pending': set<nat>, w: nat, limit: nat)
    requires Closed(seen, pending, limit)
    requires forall x :: x in pending && x != w ==> x in pending'
    requires Low(w) in pending' && High(w) in pending'
    ensures Closed(seen + {w}, pending', limit)
  {
  }

  lemma ClosedWithout(seen: set<nat>, pending: set<nat>, w: nat, limit: nat)
    requires Closed(seen, pending, limit) && (w in seen || w <= limit)
    ensures Closed(seen, pending - {w}, limit)
  {
  }

  /** The exponents the recursion started at `w0` needs, found with a set of pending widths. */
  method FindNeeded(w0: nat, moreThan: nat, needHi: bool) returns (need: set<nat>)
    ensures need == Needed(w0, moreThan, needHi)
  {
    hide Widths, Needed, Closed;
    FirstWidth(w0, moreThan);
    var seen: set<nat> := {};
    need := {};
    var ws: set<nat> := {w0};
    while ws != {}
      invariant seen <= Widths(w0, moreThan)
      invariant need <= Needed(w0, moreThan, needHi)
      invariant forall x :: x in seen ==> Which(x, needHi) in need
      invariant forall x :: x in ws && moreThan < x ==> x in Widths(w0, moreThan)
      invariant Closed(seen, ws, moreThan)
      invariant w0 <= moreThan || w0 in seen || w0 in ws
      decreases Widths(w0, moreThan) - seen, ws
    {
      var w :| w in ws;
      ghost var before := ws;
      ws := ws - {w};
      if w in seen || w <= moreThan {
        ClosedWithout(seen, before, w, moreThan);
        continue;
      }
      WidthsClosed(w0, moreThan, w);
      WhichNeeded(w0, moreThan, needHi, w);
      ghost var seenBefore := seen;
      seen := seen + {w};
      var lo := Low(w);
      var hi := High(w);
      var which := Which(w, needHi);
      need := need + {which};
      ws := ws + {which};
      if lo != hi {
        ws := ws + {w - which};
      }
      ClosedStep(seenBefore, before, ws, w, moreThan);
    }
    WidthsLeast(w0, moreThan, seen);
    AllNeeded(w0, moreThan, needHi, seen, need);
  }

  lemma FirstWidth(w: nat, limit: nat)
    ensures limit < w ==> w in Widths(w, limit)
    ensures Closed({}, {w}, limit)
  {
  }

  lemma AllNeeded(w: nat, limit: nat, needHi: bool, seen: set<nat>, need: set<nat>)
    requires Widths(w, limit) <= seen && forall x :: x in seen ==> Which(x, needHi) in need
    ensures Needed(w, limit, needHi) <= need
  {
  }

  /** `n` can be made from a smaller member of `all` by one multiplication or by squaring. */
  ghost predicate Reachable(n: nat, all: set<nat>, moreThan: nat)
  {
    moreThan < Low(n) ==> n - 1 in all || Low(n) in all
  }

  ghost predicate AllReachable(all: set<nat>, moreThan: nat)
  {
    forall n {:trigger Reachable(n, all, moreThan)} :: n in all ==> Reachable(n, all, moreThan)
  }

  ghost predicate HasLows(need: set<nat>, moreThan: nat)
  {
    forall n: nat, half: nat {:trigger n in need, IsHalf(n, half)} ::
      n in need && half == Low(n) && IsHalf(n, half) && moreThan < half ==> half in need
  }

  lemma LowNeeded(need: set<nat>, moreThan: nat, n: nat)
    ensures HasLows(need, moreThan) && n in need && moreThan < Low(n) ==> Low(n) in need
  {
    assert IsHalf(n, Low(n));
  }

  /** Adds the exponents without which some needed one could not be made from a smaller one. */
  method FindExtra(need: set<nat>, moreThan: nat) returns (extra: set<nat>)
    ensures AllReachable(need + extra, moreThan)
    ensures HasLows(need, moreThan) ==> extra == {}
  {
    hide HasLows, IsHalf;
    var cands := need;
    extra := {};
    ghost var bound: nat := 0;
    ghost var all := need;
    if cands != {} {
      var top := MaxOf(cands);
      bound := top + 1;
    }
    while cands != {}
      invariant cands <= all && all == need + extra
      invariant forall x :: x in cands ==> x < bound
      invariant forall n :: n in all && n !in cands ==> bound <= n
      invariant forall n {:trigger Reachable(n, all, moreThan)} ::
                  n in all && n !in cands ==> Reachable(n, all, moreThan)
      invariant HasLows(need, moreThan) ==> extra == {}
      decreases bound
    {
      var w := MaxOf(cands);
      cands := cands - {w};
      var lo := Low(w);
      LowNeeded(need, moreThan, w);
      ghost var before := all;
      if moreThan < lo && w - 1 !in cands && lo !in cands {
        extra := extra + {lo};
        cands := cands + {lo};
        all := all + {lo};
      }
      bound := w;
      forall n | n in all && n !in cands
        ensures Reachable(n, all, moreThan)
      {
        assert n == w || Reachable(n, before, moreThan);
      }
    }
  }

  /**
    One power, from a smaller one in the table when there is one: times the base, or squared and then perhaps times the
    base. `products` counts the multiplications.
    */
  method NextPower<T(!new)>(n: nat, base: T, d: map<nat, T>, mul: (T, T) -> T, one: T)
    returns (result: T, ghost usedPow: bool, ghost products: nat)
    requires IsMonoid(mul, one)
    requires forall k :: k in d ==> d[k] == PowOf(mul, one, base, k)
    ensures result == PowOf(mul, one, base, n)
    ensures usedPow <==> n - 1 !in d && n / 2 !in d
    ensures products == if n - 1 in d then 1 else if n / 2 !in d then 0 else if n % 2 == 0 then 1 else 2
  {
    var lo := Low(n);
    var hi := High(n);
    usedPow, products := false, 1;
    if n - 1 in d {
      result := mul(d[n - 1], base);
    } else if lo in d {
      PowOfSum(mul, one, base, lo, lo);
      result := mul(d[lo], d[lo]);
      if hi != lo {
        result := mul(result, base);
        products := products + 1;
      }
    } else {
      result := PowOf(mul, one, base, n);
      usedPow, products := true, 0;
    }
  }

  /**
    The powers of `base` that the halving recursion started at `w` looks up: those keys and no others.
    `viaPow` records the exponents for which the general power operator was used.
    */
  method ComputePowers<T(!new)>(w: nat, base: T, moreThan: nat, needHi: bool, mul: (T, T) -> T, one: T)
    returns (d: map<nat, T>, extra: set<nat>, ghost viaPow: set<nat>)
    requires IsMonoid(mul, one)
    ensures d.Keys == Needed(w, moreThan, needHi)
    ensures forall k :: k in d ==> d[k] == PowOf(mul, one, base, k)
    ensures !needHi ==> extra == {}
    ensures forall k :: k in viaPow ==> k / 2 <= moreThan
  {
    hide Needed, Widths, PowOf, IsMonoid, HasLows;
    var need := FindNeeded(w, moreThan, needHi);
    extra := FindExtra(need, moreThan);
    assert !needHi ==> extra == {} by {
      LowsClosed(w, moreThan);
    }
    var all := need + extra;
    var todo := all;
    d, viaPow := map[], {};
    ghost var bound := 0;
    while todo != {}
      invariant todo <= all && forall k :: k in d <==> k in all && k !in todo
      invariant (forall k :: k in d ==> k < bound) && (forall n :: n in todo ==> bound <= n)
      invariant forall k :: k in d ==> d[k] == PowOf(mul, one, base, k)
      invariant forall k :: k in viaPow ==> k / 2 <= moreThan
    {
      var n := MinOf(todo);
      assert Reachable(n, all, moreThan);
      var result, usedPow, _ := NextPower(n, base, d, mul, one);
      if usedPow {
        viaPow := viaPow + {n};
      }
      d, todo, bound := d[n := result], todo - {n}, n + 1;
    }
    d := map k | k in d && k in need :: d[k];
  }

  /** With floor halves every needed exponent's own half is needed too, so nothing extra is added. */
  lemma LowsClosed(w: nat, limit: nat)
    ensures HasLows(Needed(w, limit, false), limit)
  {
    forall n | n in Needed(w, limit, false) && limit < Low(n)
      ensures Low(n) in Needed(w, limit, false)
    {
      var x :| x in Widths(w, limit) && Which(x, false) == n;
      WidthsClosed(w, limit, x);
      WhichNeeded(w, limit, false, n);
    }
  }
}
