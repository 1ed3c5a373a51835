/** Solving `t = local(u)` for `u`: the POSIX time of a naive local time, with PEP 495's fold. */
module LocalTime {
  import opened Arithmetic

  const MAX_FOLD_SECONDS := 86400

  /** The UTC offset in force at `u`. */
  function OffsetAt(local: int -> int, u: int): int
  {
    local(u) - u
  }

  /** `local` maps POSIX seconds to local wall-clock seconds; `fold` picks the later of two solutions. */
  function MkTime(t: int, fold: bool, local: int -> int): int
  {
    var a := local(t) - t;
    var u1 := t - a;
    var t1 := local(u1);
    if t1 == t then
      var probe := u1 + if fold then MAX_FOLD_SECONDS else -MAX_FOLD_SECONDS;
      var b := local(probe) - probe;
      if a == b then u1
      else
        var u2 := t - b;
        if local(u2) == t then u2 else u1
    else
      var b := t1 - u1;
      assert a != b;
      var u2 := t - b;
      if local(u2) == t then u2
      else if fold then Min(u1, u2) else Max(u1, u2)
  }

  /* ----- what is asked for ----- */

  /** `r` is not later than `u`, or for fold 1 not earlier. */
  predicate NotBeaten(fold: bool, r: int, u: int)
  {
    if fold then u <= r else r <= u
  }

  /** When some time reads `t`, the result is one, the earliest of all for fold 0 and the latest for fold 1. */
  ghost predicate Solves(t: int, fold: bool, local: int -> int)
  {
    var r := MkTime(t, fold, local);
    forall u :: local(u) == t ==> local(r) == t && NotBeaten(fold, r, u)
  }

  /* ----- one transition ----- */

  /**
    UTC offsets are at most `m` seconds either way. As far around `t` as that and a day more, the offset changes at
    most once, at `when`, and by at most 24 hours.
    */
  ghost predicate OneTransition(local: int -> int, t: int, m: int, when: int, before: int, after: int)
  {
    && -86400 <= after - before <= 86400
    && (forall u :: -m <= OffsetAt(local, u) <= m)
    && forall u :: t - m - 86400 <= u <= t + m + 86400 ==>
         OffsetAt(local, u) == if u < when then before else after
  }

  /**
    A single transition nearby is solved, whatever the size of the offsets. When no time reads `t`, it was skipped, and
    the result uses the offset from before the transition for fold 0 and the one from after it for fold 1.
    */
  lemma MkTimeSolves(t: int, fold: bool, local: int -> int, m: int, when: int, before: int, after: int)
    requires OneTransition(local, t, m, when, before, after)
    ensures Solves(t, fold, local)
    ensures var r := MkTime(t, fold, local);
      local(r) != t ==> r == t - if fold then after else before
  {
    var r := MkTime(t, fold, local);
    var a := OffsetAt(local, t);
    assert a == before || a == after;
    var u1 := t - a;
    assert OffsetAt(local, u1) == before || OffsetAt(local, u1) == after;
    var probe := u1 + if fold then MAX_FOLD_SECONDS else -MAX_FOLD_SECONDS;
    assert OffsetAt(local, probe) == before || OffsetAt(local, probe) == after;
    assert OffsetAt(local, t - before) == if t - before < when then before else after;
    assert OffsetAt(local, t - after) == if t - after < when then before else after;
    forall u | local(u) == t
      ensures local(r) == t && NotBeaten(fold, r, u)
    {
      assert -m <= OffsetAt(local, u) <= m;
      assert u == t - before || u == t - after;
    }
  }

  /** The same for a local time with one change in all of history, with no bound on the offsets. */
  lemma OneChangeSolves(t: int, fold: bool, local: int -> int, when: int, before: int, after: int)
    requires -86400 <= after - before <= 86400
    requires forall u :: OffsetAt(local, u) == if u < when then before else after
    ensures Solves(t, fold, local)
  {
    var m := Max(Max(before, -before), Max(after, -after));
    MkTimeSolves(t, fold, local, m, when, before, after);
  }

  /* ----- the way from a timestamp to local time and back ----- */

  /** The fold that a conversion to local time records: set when the clock showed the same reading before. */
  function FoldOf(u: int, local: int -> int): bool
  {
    var trans := local(u) - local(u - MAX_FOLD_SECONDS) - MAX_FOLD_SECONDS;
    trans < 0 && local(u + trans) == local(u)
  }

  /** The fold is recorded exactly when the clock showed the same reading at an earlier time. */
  lemma FoldIsRepetition(u: int, local: int -> int, m: int, when: int, before: int, after: int)
    requires OneTransition(local, local(u), m, when, before, after)
    ensures FoldOf(u, local) <==> exists v :: v < u && local(v) == local(u)
  {
    var t := local(u);
    assert -m <= OffsetAt(local, u) <= m;
    assert OffsetAt(local, u) == if u < when then before else after;
    var p := u - MAX_FOLD_SECONDS;
    assert OffsetAt(local, p) == if p < when then before else after;
    var q := u + (local(u) - local(p) - MAX_FOLD_SECONDS);
    assert OffsetAt(local, q) == if q < when then before else after;
    if v :| v < u && local(v) == t {
      assert -m <= OffsetAt(local, v) <= m;
      assert OffsetAt(local, v) == if v < when then before else after;
    }
  }

  /** Converting a timestamp to local time, with its fold, and back gives the timestamp. */
  lemma TimestampRoundTrip(u: int, local: int -> int, m: int, when: int, before: int, after: int)
    requires OneTransition(local, local(u), m, when, before, after)
    ensures MkTime(local(u), FoldOf(u, local), local) == u
  {
    var t, fold := local(u), FoldOf(u, local);
    MkTimeSolves(t, fold, local, m, when, before, after);
    assert -m <= OffsetAt(local, u) <= m;
    assert OffsetAt(local, u) == if u < when then before else after;
    var u' := u - MAX_FOLD_SECONDS;
    assert OffsetAt(local, u') == if u' < when then before else after;
    var r := MkTime(t, fold, local);
    assert -m <= OffsetAt(local, r) <= m;
    assert OffsetAt(local, r) == if r < when then before else after;
    var other := u + after - before;
    assert OffsetAt(local, other) == if other < when then before else after;
    var twin := u + before - after;
    assert OffsetAt(local, twin) == if twin < when then before else after;
  }

  /* ----- several transitions ----- */

  /** A local time by its transitions: offsets[0] before times[0], then offsets[1] before times[1], and so on. */
  datatype Zone = Zone(times: seq<int>, offsets: seq<int>)

  /** Transitions in order, each by at most 24 hours. */
  predicate IsZone(z: Zone)
  {
    && |z.offsets| == |z.times| + 1
    && (forall i :: 0 < i < |z.times| ==> z.times[i - 1] < z.times[i])
    && (forall i :: 0 <= i < |z.times| ==> -86400 <= z.offsets[i + 1] - z.offsets[i] <= 86400)
  }

  function ZoneOffset(z: Zone, u: int): int
    requires IsZone(z)
    decreases |z.times|
  {
    if |z.times| == 0 || u < z.times[0] then z.offsets[0]
    else ZoneOffset(Zone(z.times[1..], z.offsets[1..]), u)
  }

  function LocalIn(z: Zone): int -> int
    requires IsZone(z)
  {
    (u: int) => u + ZoneOffset(z, u)
  }

  ghost predicate AlwaysSolves(z: Zone)
    requires IsZone(z)
  {
    forall t, fold :: Solves(t, fold, LocalIn(z))
  }

  lemma OneTransitionZone(z: Zone)
    requires IsZone(z) && |z.times| <= 1
    ensures AlwaysSolves(z)
  {
    var when := if |z.times| == 0 then 0 else z.times[0];
    var before, after := z.offsets[0], z.offsets[|z.times|];
    forall u
      ensures OffsetAt(LocalIn(z), u) == if u < when then before else after
    {
      if |z.times| == 1 && when <= u {
        var rest := Zone(z.times[1..], z.offsets[1..]);
        assert ZoneOffset(z, u) == ZoneOffset(rest, u) == rest.offsets[0];
      }
    }
    forall t, fold
      ensures Solves(t, fold, LocalIn(z))
    {
      OneChangeSolves(t, fold, LocalIn(z), when, before, after);
    }
  }

  /** Offsets of three hours, one hour and two hours, with the transitions an hour apart. */
  const TWO_TRANSITIONS := Zone([-9000, -5400], [10800, 3600, 7200])

  lemma TwoTransitionOffsets(u: int)
    ensures IsZone(TWO_TRANSITIONS)
    ensures ZoneOffset(TWO_TRANSITIONS, u) == if u < -9000 then 10800 else if u < -5400 then 3600 else 7200
  {
    var z := TWO_TRANSITIONS;
    var z1 := Zone(z.times[1..], z.offsets[1..]);
    assert z1 == Zone([-5400], [3600, 7200]);
    assert Zone(z1.times[1..], z1.offsets[1..]) == Zone([], [7200]);
  }

  /** With two transitions close together a solution can be missed for either fold: -10800 reads 0 here. */
  lemma TwoTransitionsMiss(fold: bool)
    ensures IsZone(TWO_TRANSITIONS) && !Solves(0, fold, LocalIn(TWO_TRANSITIONS))
  {
    var local := LocalIn(TWO_TRANSITIONS);
    TwoTransitionOffsets(0);
    TwoTransitionOffsets(-7200);
    TwoTransitionOffsets(-3600);
    TwoTransitionOffsets(-10800);
    assert local(0) == 7200 && local(-7200) == -3600 && local(-3600) == 3600 && local(-10800) == 0;
    assert local(MkTime(0, fold, local)) != 0;
  }

  /** Times can be recovered in every zone with at most `k` transitions exactly when `k` is at most one. */
  lemma SolvesIffOneTransition(k: nat)
    ensures (forall z :: IsZone(z) && |z.times| <= k ==> AlwaysSolves(z)) <==> k <= 1
  {
    if k <= 1 {
      forall z | IsZone(z) && |z.times| <= k
        ensures AlwaysSolves(z)
      {
        OneTransitionZone(z);
      }
    } else {
      TwoTransitionsMiss(false);
      assert !AlwaysSolves(TWO_TRANSITIONS);
    }
  }

  /** An hour forward and back again: a solution is found, but not the earliest. */
  const BRIEF_CHANGE := Zone([-5000, -2000], [0, 3600, 0])

  lemma LaterSolutionReturned()
    ensures IsZone(BRIEF_CHANGE)
    ensures var local := LocalIn(BRIEF_CHANGE);
      MkTime(0, false, local) == 0 && local(0) == 0 && local(-3600) == 0 && !Solves(0, false, local)
  {
    var z := BRIEF_CHANGE;
    var z1 := Zone(z.times[1..], z.offsets[1..]);
    assert z1 == Zone([-2000], [3600, 0]);
    assert Zone(z1.times[1..], z1.offsets[1..]) == Zone([], [0]);
  }

  /* ----- any local time at all ----- */

  /** The two offsets that the solver looks at: the one at `t` and the one at its first guess or a day from it. */
  function FirstOffset(t: int, local: int -> int): int
  {
    OffsetAt(local, t)
  }

  function SecondOffset(t: int, fold: bool, local: int -> int): int
  {
    var u1 := t - FirstOffset(t, local);
    OffsetAt(local, if local(u1) != t then u1 else if fold then u1 + MAX_FOLD_SECONDS else u1 - MAX_FOLD_SECONDS)
  }

  /** The clock shows `t` at offset `o`. */
  predicate Shows(local: int -> int, t: int, o: int)
  {
    OffsetAt(local, t - o) == o
  }

  /**
    For any `local` at all the result is right exactly when whatever offset shows `t` is matched by one of the two
    looked at, and the second of these, when both show `t`, lies on the side that the fold asks for.
    */
  lemma SolvesIff(t: int, fold: bool, local: int -> int)
    ensures var a, b := FirstOffset(t, local), SecondOffset(t, fold, local);
      Solves(t, fold, local) <==>
        && (forall o :: Shows(local, t, o) ==>
              || (Shows(local, t, a) && NotBeaten(fold, t - a, t - o))
              || (Shows(local, t, b) && NotBeaten(fold, t - b, t - o)))
        && (Shows(local, t, a) && Shows(local, t, b) ==> if fold then b <= a else a <= b)
  {
    var a, b := FirstOffset(t, local), SecondOffset(t, fold, local);
    var r := MkTime(t, fold, local);
    if Solves(t, fold, local) {
      forall o | Shows(local, t, o)
        ensures (Shows(local, t, a) && NotBeaten(fold, t - a, t - o)) ||
                (Shows(local, t, b) && NotBeaten(fold, t - b, t - o))
      {
        assert local(t - o) == t;
      }
    } else {
      var u :| local(u) == t && !(local(r) == t && NotBeaten(fold, r, u));
      assert Shows(local, t, t - u);
    }
  }

  /** Some solution, not always the one asked for, is returned exactly when the offset at the guess leads to one. */
  lemma MkTimeFindsSolution(t: int, fold: bool, local: int -> int)
    ensures var u1 := t - (local(t) - t);
      local(MkTime(t, fold, local)) == t <==> local(t - (local(u1) - u1)) == t
  {
  }
}
