/** Classes, the links from a class to those counted below it, and the subclass relation without any cache. */
module SubclassGraph {

  /**
    A class: whether it is an abstract base class, the classes in its method resolution order (itself included), and
    the classes just below it, which are its registered classes and its direct subclasses. Classes are numbered in the
    order of their creation.
    */
  datatype Node = Node(abc: bool, mro: set<nat>, below: set<nat>)

  type Graph = seq<Node>

  ghost predicate WellFormed(g: Graph)
  {
    && (forall c: nat :: c < |g| ==> c in g[c].mro)
    && (forall c: nat, a: nat :: c < |g| && a in g[c].mro ==> a < |g|)
    && (forall c: nat, b: nat :: c < |g| && b in g[c].below ==> b < |g|)
    && (forall c: nat :: c < |g| && !g[c].abc ==> g[c].below == {})
  }

  /* ----- the relation ----- */

  /** `sub` derives from `cls`, or from a class at most `n` links below it. */
  ghost predicate Within(g: Graph, n: nat, cls: nat, sub: nat)
  {
    && cls < |g| && sub < |g|
    && (cls in g[sub].mro || (n > 0 && exists c :: c in g[cls].below && Within(g, n - 1, c, sub)))
  }

  /** The answer to `issubclass(sub, cls)` when nothing is remembered. */
  ghost predicate IsSub(g: Graph, cls: nat, sub: nat)
  {
    exists n: nat :: Within(g, n, cls, sub)
  }

  /** The relation is the one that the recursive search describes: in the MRO, or below a class just below. */
  lemma IsSubUnfolds(g: Graph, cls: nat, sub: nat)
    requires WellFormed(g) && cls < |g| && sub < |g|
    ensures IsSub(g, cls, sub) <==> cls in g[sub].mro || exists c :: c in g[cls].below && IsSub(g, c, sub)
  {
    if IsSub(g, cls, sub) && cls !in g[sub].mro {
      var n: nat :| Within(g, n, cls, sub);
      var c :| c in g[cls].below && Within(g, n - 1, c, sub);
      assert IsSub(g, c, sub);
    }
    if cls in g[sub].mro {
      assert Within(g, 0, cls, sub);
    } else if c :| c in g[cls].below && IsSub(g, c, sub) {
      var n: nat :| Within(g, n, c, sub);
      assert Within(g, n + 1, cls, sub);
    }
  }

  /* ----- paths, and graphs without cycles ----- */

  ghost predicate Path(g: Graph, n: nat, a: nat, b: nat)
  {
    a < |g| && if n == 0 then a == b else exists c :: c in g[a].below && Path(g, n - 1, c, b)
  }

  ghost predicate Reaches(g: Graph, a: nat, b: nat)
  {
    exists n: nat :: Path(g, n, a, b)
  }

  ghost predicate Acyclic(g: Graph)
  {
    forall a: nat, n: nat :: n > 0 ==> !Path(g, n, a, a)
  }

  ghost predicate Beneath(g: Graph, a: nat, b: nat)
  {
    exists n: nat :: n > 0 && Path(g, n, a, b)
  }

  /** The classes a search from `a` can get to, without `a` unless it lies on a cycle. */
  ghost function Descendants(g: Graph, a: nat): set<nat>
  {
    set b: nat | b < |g| && Beneath(g, a, b)
  }

  /** In a graph without cycles every link leads to fewer descendants, so every search ends. */
  lemma DescendantsShrink(g: Graph, a: nat, c: nat)
    requires WellFormed(g) && Acyclic(g) && a < |g| && c in g[a].below
    ensures Descendants(g, c) < Descendants(g, a)
  {
    forall b | b in Descendants(g, c)
      ensures b in Descendants(g, a)
    {
      var n: nat :| n > 0 && Path(g, n, c, b);
      assert Path(g, n + 1, a, b);
    }
    assert Path(g, 0, c, c);
    assert Path(g, 1, a, c);
    assert c in Descendants(g, a) && c !in Descendants(g, c);
  }

  lemma {:induction false} PathConcat(g: Graph, n: nat, a: nat, b: nat, m: nat, c: nat)
    requires Path(g, n, a, b) && Path(g, m, b, c)
    ensures Path(g, n + m, a, c)
  {
    if n > 0 {
      var d :| d in g[a].below && Path(g, n - 1, d, b);
      PathConcat(g, n - 1, d, b, m, c);
    }
  }

  /** What derives from a class that `a` leads to is a subclass of `a`. */
  lemma {:induction false} PathIsSub(g: Graph, n: nat, a: nat, b: nat, sub: nat)
    requires WellFormed(g) && Path(g, n, a, b) && IsSub(g, b, sub)
    ensures IsSub(g, a, sub)
  {
    if n > 0 {
      var c :| c in g[a].below && Path(g, n - 1, c, b);
      PathIsSub(g, n - 1, c, b, sub);
      var m: nat :| Within(g, m, c, sub);
      assert Within(g, m + 1, a, sub);
    }
  }

  lemma SubOfItself(g: Graph, c: nat)
    requires WellFormed(g) && c < |g|
    ensures IsSub(g, c, c)
  {
    assert Within(g, 0, c, c);
  }

  /* ----- registration ----- */

  function Registered(g: Graph, cls: nat, sub: nat): (g': Graph)
    requires cls < |g|
    ensures |g'| == |g|
  {
    g[cls := g[cls].(below := g[cls].below + {sub})]
  }

  lemma {:induction false} PathsStay(g: Graph, cls: nat, sub: nat, n: nat, a: nat, b: nat)
    requires cls < |g| && Path(g, n, a, b)
    ensures Path(Registered(g, cls, sub), n, a, b)
  {
    if n > 0 {
      var c :| c in g[a].below && Path(g, n - 1, c, b);
      assert c in Registered(g, cls, sub)[a].below;
      PathsStay(g, cls, sub, n - 1, c, b);
    }
  }

  /** A path of the graph with the new link is an old path, or it enters and leaves the new link by old paths. */
  lemma {:induction false} PathsThroughLink(g: Graph, cls: nat, sub: nat, n: nat, a: nat, b: nat)
    requires cls < |g| && sub < |g| && Path(Registered(g, cls, sub), n, a, b)
    ensures Path(g, n, a, b) || (Reaches(g, a, cls) && Reaches(g, sub, b))
  {
    if n > 0 {
      var c :| c in Registered(g, cls, sub)[a].below && Path(Registered(g, cls, sub), n - 1, c, b);
      PathsThroughLink(g, cls, sub, n - 1, c, b);
      if c in g[a].below {
        if Reaches(g, c, cls) {
          var m: nat :| Path(g, m, c, cls);
          assert Path(g, m + 1, a, cls);
        }
      } else {
        assert Path(g, 0, a, cls);
      }
    }
  }

  /** Refusing a class that the registering class is already a subclass of is enough to keep cycles out. */
  lemma RegisteredIsAcyclic(g: Graph, cls: nat, sub: nat)
    requires WellFormed(g) && Acyclic(g) && cls < |g| && sub < |g| && !IsSub(g, sub, cls)
    ensures Acyclic(Registered(g, cls, sub))
  {
    var g' := Registered(g, cls, sub);
    forall a: nat, n: nat | n > 0 && Path(g', n, a, a)
      ensures false
    {
      PathsThroughLink(g, cls, sub, n, a, a);
      var m: nat :| Path(g, m, a, cls);
      var k: nat :| Path(g, k, sub, a);
      PathConcat(g, k, sub, a, m, cls);
      SubOfItself(g, cls);
      PathIsSub(g, k + m, sub, cls, cls);
    }
  }

  lemma {:induction false} WithinStays(g: Graph, cls: nat, sub: nat, n: nat, c: nat, s: nat)
    requires cls < |g| && Within(g, n, c, s)
    ensures Within(Registered(g, cls, sub), n, c, s)
  {
    if c !in g[s].mro {
      var d :| d in g[c].below && Within(g, n - 1, d, s);
      assert d in Registered(g, cls, sub)[c].below;
      WithinStays(g, cls, sub, n - 1, d, s);
    }
  }

  lemma {:induction false} WithinThroughLink(g: Graph, cls: nat, sub: nat, n: nat, c: nat, s: nat)
    requires cls < |g| && sub < |g| && Within(Registered(g, cls, sub), n, c, s)
    ensures IsSub(g, c, s) || (Reaches(g, c, cls) && IsSub(g, sub, s))
  {
    var g' := Registered(g, cls, sub);
    if c in g[s].mro {
      assert Within(g, 0, c, s);
    } else {
      var d :| d in g'[c].below && Within(g', n - 1, d, s);
      WithinThroughLink(g, cls, sub, n - 1, d, s);
      if d in g[c].below {
        if IsSub(g, d, s) {
          var m: nat :| Within(g, m, d, s);
          assert Within(g, m + 1, c, s);
        } else {
          var m: nat :| Path(g, m, d, cls);
          assert Path(g, m + 1, c, cls);
        }
      } else {
        assert Path(g, 0, c, cls);
      }
    }
  }

  /** The exact effect of a registration: only classes that lead to `cls` gain, and only what is below `sub`. */
  lemma RegisteredRelation(g: Graph, cls: nat, sub: nat, c: nat, s: nat)
    requires WellFormed(g) && cls < |g| && sub < |g| && g[cls].abc
    ensures WellFormed(Registered(g, cls, sub))
    ensures IsSub(Registered(g, cls, sub), c, s) <==> IsSub(g, c, s) || (Reaches(g, c, cls) && IsSub(g, sub, s))
  {
    var g' := Registered(g, cls, sub);
    if IsSub(g', c, s) {
      var n: nat :| Within(g', n, c, s);
      WithinThroughLink(g, cls, sub, n, c, s);
    }
    if IsSub(g, c, s) {
      var n: nat :| Within(g, n, c, s);
      WithinStays(g, cls, sub, n, c, s);
    }
    if Reaches(g, c, cls) && IsSub(g, sub, s) {
      var n: nat :| Within(g, n, sub, s);
      WithinStays(g, cls, sub, n, sub, s);
      assert sub in g'[cls].below;
      assert Within(g', n + 1, cls, s);
      var m: nat :| Path(g, m, c, cls);
      PathsStay(g, cls, sub, m, c, cls);
      PathIsSub(g', m, c, cls, s);
    }
  }

  /* ----- class creation ----- */

  /** A class made with an abstract base class among its bases is one itself. */
  predicate MadeAbc(g: Graph, abc: bool, bases: set<nat>)
    requires forall b :: b in bases ==> b < |g|
  {
    abc || exists b :: b in bases && g[b].abc
  }

  function MadeMro(g: Graph, bases: set<nat>): set<nat>
    requires forall b :: b in bases ==> b < |g|
  {
    {|g|} + set b, a | b in bases && a in g[b].mro :: a
  }

  function Linked(g: Graph, bases: set<nat>, c: nat): (node: Node)
    requires c < |g|
  {
    if c in bases && g[c].abc then g[c].(below := g[c].below + {|g|}) else g[c]
  }

  function Created(g: Graph, abc: bool, bases: set<nat>): (g': Graph)
    requires forall b :: b in bases ==> b < |g|
    ensures |g'| == |g| + 1
  {
    seq(|g|, c requires 0 <= c < |g| => Linked(g, bases, c)) + [Node(MadeAbc(g, abc, bases), MadeMro(g, bases), {})]
  }

  lemma CreatedIsWellFormed(g: Graph, abc: bool, bases: set<nat>)
    requires WellFormed(g) && forall b :: b in bases ==> b < |g|
    ensures WellFormed(Created(g, abc, bases))
  {
  }

  lemma {:induction false} OldPaths(g: Graph, abc: bool, bases: set<nat>, n: nat, a: nat, b: nat)
    requires WellFormed(g) && forall b :: b in bases ==> b < |g|
    requires b < |g| && Path(Created(g, abc, bases), n, a, b)
    ensures Path(g, n, a, b)
  {
    var g' := Created(g, abc, bases);
    if n > 0 {
      var c :| c in g'[a].below && Path(g', n - 1, c, b);
      OldPaths(g, abc, bases, n - 1, c, b);
    }
  }

  lemma CreatedIsAcyclic(g: Graph, abc: bool, bases: set<nat>)
    requires WellFormed(g) && Acyclic(g) && forall b :: b in bases ==> b < |g|
    ensures Acyclic(Created(g, abc, bases))
  {
    var g' := Created(g, abc, bases);
    forall a: nat, n: nat | n > 0 && Path(g', n, a, a)
      ensures false
    {
      if a < |g| {
        OldPaths(g, abc, bases, n, a, a);
      }
    }
  }

  lemma {:induction false} OldWithin(g: Graph, abc: bool, bases: set<nat>, n: nat, c: nat, s: nat)
    requires WellFormed(g) && forall b :: b in bases ==> b < |g|
    requires s < |g|
    ensures Within(Created(g, abc, bases), n, c, s) <==> Within(g, n, c, s)
  {
    var g' := Created(g, abc, bases);
    if c < |g| && c !in g[s].mro && n > 0 {
      if d :| d in g'[c].below && Within(g', n - 1, d, s) {
        OldWithin(g, abc, bases, n - 1, d, s);
      }
      if d :| d in g[c].below && Within(g, n - 1, d, s) {
        OldWithin(g, abc, bases, n - 1, d, s);
        assert d in g'[c].below;
      }
    }
  }

  /** Creating a class changes no answer about the classes that were there, so no cache need be cleared for it. */
  lemma OldAnswers(g: Graph, abc: bool, bases: set<nat>, c: nat, s: nat)
    requires WellFormed(g) && forall b :: b in bases ==> b < |g|
    requires s < |g|
    ensures IsSub(Created(g, abc, bases), c, s) <==> IsSub(g, c, s)
  {
    forall n: nat
      ensures Within(Created(g, abc, bases), n, c, s) <==> Within(g, n, c, s)
    {
      OldWithin(g, abc, bases, n, c, s);
    }
  }

  lemma {:induction false} NewWithin(g: Graph, abc: bool, bases: set<nat>, n: nat, c: nat)
    requires WellFormed(g) && forall b :: b in bases ==> b < |g|
    requires c < |g| && Within(Created(g, abc, bases), n, c, |g|)
    ensures exists b :: b in bases && IsSub(g, c, b)
  {
    var g' := Created(g, abc, bases);
    if c in g'[|g|].mro {
      var b :| b in bases && c in g[b].mro;
      assert Within(g, 0, c, b);
    } else {
      var d :| d in g'[c].below && Within(g', n - 1, d, |g|);
      if d == |g| {
        SubOfItself(g, c);
      } else {
        NewWithin(g, abc, bases, n - 1, d);
        var b :| b in bases && IsSub(g, d, b);
        var m: nat :| Within(g, m, d, b);
        assert Within(g, m + 1, c, b);
      }
    }
  }

  lemma {:induction false} BaseWithin(g: Graph, abc: bool, bases: set<nat>, n: nat, c: nat, b: nat)
    requires WellFormed(g) && forall b :: b in bases ==> b < |g|
    requires b in bases && Within(g, n, c, b)
    ensures Within(Created(g, abc, bases), n, c, |g|)
  {
    if c !in g[b].mro {
      var d :| d in g[c].below && Within(g, n - 1, d, b);
      assert d in Created(g, abc, bases)[c].below;
      BaseWithin(g, abc, bases, n - 1, d, b);
    }
  }

  /** A new class is a subclass of itself and of just what its bases are subclasses of. */
  lemma NewClassRelation(g: Graph, abc: bool, bases: set<nat>, c: nat)
    requires WellFormed(g) && forall b :: b in bases ==> b < |g|
    ensures IsSub(Created(g, abc, bases), c, |g|) <==> c == |g| || exists b :: b in bases && IsSub(g, c, b)
  {
    var g' := Created(g, abc, bases);
    if c == |g| {
      assert Within(g', 0, c, c);
    } else {
      if n: nat :| Within(g', n, c, |g|) {
        NewWithin(g, abc, bases, n, c);
      }
      if b :| b in bases && IsSub(g, c, b) {
        var n: nat :| Within(g, n, c, b);
        BaseWithin(g, abc, bases, n, c, b);
      }
    }
  }

  /* ----- abstract classes and what derives from them ----- */

  /** A class that derives from an abstract one is abstract itself, and the links lead from the one to the other. */
  ghost predicate Inherits(g: Graph)
  {
    forall a: nat, c: nat :: c < |g| && a < |g| && a in g[c].mro && g[a].abc ==> g[c].abc && Reaches(g, a, c)
  }

  lemma RegisteredInherits(g: Graph, cls: nat, sub: nat)
    requires WellFormed(g) && Inherits(g) && cls < |g|
    ensures Inherits(Registered(g, cls, sub))
  {
    var g' := Registered(g, cls, sub);
    forall a: nat, c: nat | c < |g| && a < |g| && a in g'[c].mro && g'[a].abc
      ensures g'[c].abc && Reaches(g', a, c)
    {
      assert a in g[c].mro && g[a].abc && Reaches(g, a, c);
      var n: nat :| Path(g, n, a, c);
      PathsStay(g, cls, sub, n, a, c);
    }
  }

  lemma {:induction false} PathsStayCreated(g: Graph, abc: bool, bases: set<nat>, n: nat, a: nat, b: nat)
    requires (forall b :: b in bases ==> b < |g|) && Path(g, n, a, b)
    ensures Path(Created(g, abc, bases), n, a, b)
  {
    if n > 0 {
      var c :| c in g[a].below && Path(g, n - 1, c, b);
      assert c in Created(g, abc, bases)[a].below;
      PathsStayCreated(g, abc, bases, n - 1, c, b);
    }
  }

  lemma CreatedInherits(g: Graph, abc: bool, bases: set<nat>)
    requires WellFormed(g) && Inherits(g) && forall b :: b in bases ==> b < |g|
    ensures Inherits(Created(g, abc, bases))
  {
    var g' := Created(g, abc, bases);
    forall a: nat, c: nat | c < |g'| && a < |g'| && a in g'[c].mro && g'[a].abc
      ensures g'[c].abc && Reaches(g', a, c)
    {
      if a == c {
        assert Path(g', 0, a, c);
      } else if c < |g| {
        assert a in g[c].mro && a < |g| && g[a].abc && Reaches(g, a, c);
        var n: nat :| Path(g, n, a, c);
        PathsStayCreated(g, abc, bases, n, a, c);
      } else {
        var b :| b in bases && a in g[b].mro;
        assert g[a].abc && g[b].abc && Reaches(g, a, b);
        var n: nat :| Path(g, n, a, b);
        PathsStayCreated(g, abc, bases, n, a, b);
        assert |g| in g'[b].below && Path(g', 0, |g|, |g|);
        assert Path(g', 1, b, |g|);
        PathConcat(g', n, a, b, 1, |g|);
      }
    }
  }

  /** What is registered with a class is below every abstract class that it derives from, not only below itself. */
  lemma RegisteredBelowBases(g: Graph, cls: nat, sub: nat, a: nat)
    requires WellFormed(g) && Inherits(g) && cls < |g| && sub < |g| && g[cls].abc
    requires a in g[cls].mro && a < |g| && g[a].abc
    ensures IsSub(Registered(g, cls, sub), a, sub)
  {
    SubOfItself(g, sub);
    RegisteredRelation(g, cls, sub, a, sub);
  }

  /** Between abstract classes and what derives from one of them, the relation is transitive. */
  lemma SubOfDerived(g: Graph, a: nat, b: nat, sub: nat)
    requires WellFormed(g) && Inherits(g) && b < |g| && a in g[b].mro && a < |g| && g[a].abc
    requires IsSub(g, b, sub)
    ensures IsSub(g, a, sub)
  {
    var n: nat :| Path(g, n, a, b);
    PathIsSub(g, n, a, b, sub);
  }
}
