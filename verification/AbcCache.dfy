/** Abstract base classes with their positive and negative caches, as objects that every check updates in place. */
module AbcCache {
  import opened Outcome
  import opened SubclassGraph

  /** What a caller may pass where a class is expected. */
  datatype Argument = AClass(id: nat) | NotAClass

  /** What a class remembers: classes below it, classes not below it, and the date of the latter. */
  datatype Caches = Caches(positive: set<nat>, negative: set<nat>, version: nat)

  class PyClass {
    const abc: bool
    const mro: set<nat>
    var subclasses: set<nat>
    var registry: set<nat>
    var cache: set<nat>
    var negativeCache: set<nat>
    var negativeCacheVersion: nat

    constructor (abc: bool, mro: set<nat>, version: nat)
      ensures this.abc == abc && this.mro == mro
      ensures subclasses == {} && registry == {}
      ensures cache == {} && negativeCache == {} && negativeCacheVersion == version
    {
      this.abc, this.mro := abc, mro;
      subclasses, registry := {}, {};
      cache, negativeCache, negativeCacheVersion := {}, {}, version;
    }

    function Remembered(): Caches
      reads this
    {
      Caches(cache, negativeCache, negativeCacheVersion)
    }

    /** The object records this node of the graph. */
    predicate Matches(node: Node)
      reads this
    {
      && abc == node.abc && mro == node.mro
      && node.below == if abc then registry + subclasses else {}
    }
  }

  /** Every class remembered as below `cls` is; none remembered as not below it is, if the record is up to date. */
  ghost predicate CachesTrue(g: Graph, cls: nat, counter: nat, c: Caches)
  {
    && c.version <= counter
    && (forall s :: s in c.positive ==> IsSub(g, cls, s))
    && (c.version == counter ==> forall s :: s in c.negative ==> s < |g| && !IsSub(g, cls, s))
  }

  /** Nothing is forgotten, but for negative answers that are out of date. */
  predicate Learns(counter: nat, before: Caches, after: Caches)
  {
    && before.positive <= after.positive
    && (before.version == counter ==> after.version == counter && before.negative <= after.negative)
  }

  ghost predicate AllLearn(counter: nat, before: seq<Caches>, after: seq<Caches>)
  {
    |before| == |after| && forall i :: 0 <= i < |before| ==> Learns(counter, before[i], after[i])
  }

  lemma LearnTwice(counter: nat, r: seq<Caches>, r': seq<Caches>, r'': seq<Caches>)
    requires AllLearn(counter, r, r') && AllLearn(counter, r', r'')
    ensures AllLearn(counter, r, r'')
  {
    forall i | 0 <= i < |r|
      ensures Learns(counter, r[i], r''[i])
    {
      assert Learns(counter, r[i], r'[i]) && Learns(counter, r'[i], r''[i]);
    }
  }

  function Adding(c: Caches, sub: nat, ok: bool): Caches
  {
    if ok then c.(positive := c.positive + {sub}) else c.(negative := c.negative + {sub})
  }

  /** The answer about `sub` is on record, so asking again needs no search. */
  predicate OnRecord(counter: nat, c: Caches, sub: nat, ok: bool)
  {
    if ok then sub in c.positive else sub in c.negative && c.version == counter
  }

  /* ----- what each operation does when nothing is remembered ----- */

  ghost predicate Registers(g: Graph, cls: nat, sub: nat)
  {
    !IsSub(g, cls, sub) && !IsSub(g, sub, cls)
  }

  /** Registering a class already below is a no-op; registering one above would make a cycle and is refused. */
  ghost function RegisterResult(g: Graph, cls: nat, arg: Argument): Result<nat>
  {
    if arg.NotAClass? then Raise(TypeError)
    else if IsSub(g, cls, arg.id) || Registers(g, cls, arg.id) then Ok(arg.id)
    else Raise(RuntimeError)
  }

  ghost function RegisterGraph(g: Graph, cls: nat, arg: Argument): Graph
    requires cls < |g|
  {
    if arg.AClass? && Registers(g, cls, arg.id) then Registered(g, cls, arg.id) else g
  }

  /** A registration that is not refused takes effect, and the pairs that it adds are exactly these. */
  lemma RegisterEffect(g: Graph, cls: nat, arg: Argument, c: nat, s: nat)
    requires WellFormed(g) && cls < |g| && g[cls].abc && (arg.AClass? ==> arg.id < |g|)
    ensures RegisterResult(g, cls, arg).Ok? ==>
      arg.AClass? && RegisterResult(g, cls, arg).value == arg.id && IsSub(RegisterGraph(g, cls, arg), cls, arg.id)
    ensures IsSub(RegisterGraph(g, cls, arg), c, s) <==>
      || IsSub(g, c, s)
      || (arg.AClass? && !IsSub(g, cls, arg.id) && !IsSub(g, arg.id, cls) && Reaches(g, c, cls) && IsSub(g, arg.id, s))
    ensures RegisterResult(g, cls, arg) == Raise(TypeError) <==> arg.NotAClass?
    ensures RegisterResult(g, cls, arg) == Raise(RuntimeError) <==>
      arg.AClass? && IsSub(g, arg.id, cls) && !IsSub(g, cls, arg.id)
  {
    hide IsSub, Reaches, WellFormed, Registered;
    if arg.AClass? && Registers(g, cls, arg.id) {
      RegisteredRelation(g, cls, arg.id, c, s);
      RegisteredRelation(g, cls, arg.id, cls, arg.id);
      ReachesItself(g, cls);
      SubOfItself(g, arg.id);
    }
  }

  lemma ReachesItself(g: Graph, c: nat)
    requires c < |g|
    ensures Reaches(g, c, c)
  {
    assert Path(g, 0, c, c);
  }

  /** All classes of a running program, by number, and the counter that dates negative caches. */
  class Classes {
    var counter: nat
    var all: seq<PyClass>
    ghost var graph: Graph

    ghost predicate Valid()
      reads this, all
    {
      && |all| == |graph| && WellFormed(graph) && Acyclic(graph)
      && (forall i, j :: 0 <= i < j < |all| ==> all[i] != all[j])
      && (forall i :: 0 <= i < |all| ==> all[i].Matches(graph[i]))
      && (forall i :: 0 <= i < |all| ==> IsTrue(i))
    }

    ghost predicate IsTrue(i: nat)
      requires i < |all|
      reads this, all
    {
      CachesTrue(graph, i, counter, all[i].Remembered())
    }

    ghost function Records(): (r: seq<Caches>)
      reads this, all
      ensures |r| == |all| && forall i :: 0 <= i < |all| ==> r[i] == all[i].Remembered()
    {
      seq(|all|, i requires 0 <= i < |all| reads this, all => all[i].Remembered())
    }

    constructor ()
      ensures Valid() && graph == [] && all == [] && counter == 0
    {
      counter, all, graph := 0, [], [];
    }

    /** `issubclass`: abstract base classes have their own check, other classes look in the MRO. */
    method IsSubclass(sub: nat, cls: nat) returns (ok: bool)
      requires Valid() && sub < |all| && cls < |all|
      modifies all`cache, all`negativeCache, all`negativeCacheVersion
      ensures Valid()
      ensures AllLearn(counter, old(Records()), Records())
      ensures ok <==> IsSub(graph, cls, sub)
      decreases Descendants(graph, cls), 1
    {
      hide IsSub, Descendants, IsTrue, Acyclic;
      if all[cls].abc {
        ok := CheckClass(cls, sub);
      } else {
        ok := cls in all[sub].mro;
        BelowClass(cls, sub);
      }
    }

    /** The check of an abstract base class, whose caches may answer at once and are brought up to date. */
    method CheckClass(cls: nat, sub: nat) returns (ok: bool)
      requires Valid() && sub < |all| && cls < |all| && all[cls].abc
      modifies all`cache, all`negativeCache, all`negativeCacheVersion
      ensures Valid()
      ensures AllLearn(counter, old(Records()), Records())
      ensures ok <==> IsSub(graph, cls, sub)
      ensures OnRecord(counter, Records()[cls], sub, ok)
      decreases Descendants(graph, cls), 0
    {
      hide IsSub, Descendants, Valid, IsTrue, CachesTrue;
      CachedAnswers(cls, sub);
      BelowClass(cls, sub);
      ghost var start := Records();
      if sub in all[cls].cache {
        return true;
      }
      if all[cls].negativeCacheVersion < counter {
        Invalidate(cls);
      } else if sub in all[cls].negativeCache {
        return false;
      }
      assert Records()[cls].version == counter;
      if cls in all[sub].mro {
        ghost var r := Records();
        Remember(cls, sub);
        LearnTwice(counter, start, r, Records());
        return true;
      }
      ghost var r := Records();
      ok := SearchBelow(all[cls].registry, cls, sub);
      LearnTwice(counter, start, r, Records());
      if ok {
        return;
      }
      r := Records();
      ok := SearchBelow(all[cls].subclasses, cls, sub);
      LearnTwice(counter, start, r, Records());
      if ok {
        return;
      }
      r := Records();
      RememberNot(cls, sub);
      LearnTwice(counter, start, r, Records());
      return false;
    }

    lemma BelowClass(cls: nat, sub: nat)
      requires Valid() && cls < |all| && sub < |all|
      ensures |all| == |graph| && WellFormed(graph) && graph[cls].abc == all[cls].abc
      ensures graph[cls].below == if all[cls].abc then all[cls].registry + all[cls].subclasses else {}
      ensures IsSub(graph, cls, sub)
         <==> cls in all[sub].mro || exists b :: b in graph[cls].below && IsSub(graph, b, sub)
    {
      hide IsSub, Descendants, Acyclic, IsTrue;
      assert all[cls].Matches(graph[cls]) && all[sub].Matches(graph[sub]);
      assert !graph[cls].abc ==> graph[cls].below == {};
      IsSubUnfolds(graph, cls, sub);
    }

    lemma CachedAnswers(cls: nat, sub: nat)
      requires Valid() && cls < |all|
      ensures all[cls].negativeCacheVersion <= counter
      ensures sub in all[cls].cache ==> IsSub(graph, cls, sub)
      ensures all[cls].negativeCacheVersion == counter && sub in all[cls].negativeCache ==> !IsSub(graph, cls, sub)
    {
      hide IsSub, Descendants, Acyclic;
      assert IsTrue(cls);
    }

    method Invalidate(cls: nat)
      requires Valid() && cls < |all|
      modifies {all[cls]}`negativeCache, {all[cls]}`negativeCacheVersion
      ensures Valid() && Records() == old(Records())[cls := Caches(old(all[cls].cache), {}, counter)]
      ensures old(all[cls].negativeCacheVersion) < counter ==> AllLearn(counter, old(Records()), Records())
    {
      hide IsSub, WellFormed, Acyclic;
      all[cls].negativeCache := {};
      all[cls].negativeCacheVersion := counter;
      forall i | 0 <= i < |all|
        ensures all[i].Matches(graph[i]) && IsTrue(i)
      {
        assert old(all[i].Matches(graph[i])) && old(IsTrue(i));
      }
    }

    method Remember(cls: nat, sub: nat)
      requires Valid() && cls < |all| && IsSub(graph, cls, sub)
      modifies {all[cls]}`cache
      ensures Valid() && Records() == old(Records())[cls := Adding(old(Records())[cls], sub, true)]
      ensures AllLearn(counter, old(Records()), Records())
    {
      hide IsSub, WellFormed, Acyclic;
      all[cls].cache := all[cls].cache + {sub};
      forall i | 0 <= i < |all|
        ensures all[i].Matches(graph[i]) && IsTrue(i)
      {
        assert old(all[i].Matches(graph[i])) && old(IsTrue(i));
      }
    }

    method RememberNot(cls: nat, sub: nat)
      requires Valid() && cls < |all| && sub < |all| && !IsSub(graph, cls, sub)
      modifies {all[cls]}`negativeCache
      ensures Valid() && Records() == old(Records())[cls := Adding(old(Records())[cls], sub, false)]
      ensures AllLearn(counter, old(Records()), Records())
    {
      hide IsSub, WellFormed, Acyclic;
      all[cls].negativeCache := all[cls].negativeCache + {sub};
      forall i | 0 <= i < |all|
        ensures all[i].Matches(graph[i]) && IsTrue(i)
      {
        assert old(all[i].Matches(graph[i])) && old(IsTrue(i));
      }
    }

    /** Looks for a class of `below` that `sub` is a subclass of, and remembers a success in the cache of `cls`. */
    method SearchBelow(below: set<nat>, cls: nat, sub: nat) returns (ok: bool)
      requires Valid() && sub < |all| && cls < |all| && below <= graph[cls].below
      modifies all`cache, all`negativeCache, all`negativeCacheVersion
      ensures Valid()
      ensures AllLearn(counter, old(Records()), Records())
      ensures ok <==> exists b :: b in below && IsSub(graph, b, sub)
      ensures ok ==> sub in Records()[cls].positive
      decreases Descendants(graph, cls), 0, below
    {
      hide IsSub, Descendants, Valid, IsTrue, CachesTrue;
      ghost var start := Records();
      var todo := below;
      while todo != {}
        invariant todo <= below
        invariant Valid() && AllLearn(counter, start, Records())
        invariant forall b :: b in below - todo ==> !IsSub(graph, b, sub)
      {
        var b :| b in todo;
        todo := todo - {b};
        SmallerSearch(cls, b);
        ghost var r := Records();
        ok := IsSubclass(sub, b);
        LearnTwice(counter, start, r, Records());
        if ok {
          BelowClass(cls, sub);
          r := Records();
          Remember(cls, sub);
          LearnTwice(counter, start, r, Records());
          return;
        }
      }
      return false;
    }

    lemma SmallerSearch(cls: nat, b: nat)
      requires Valid() && cls < |all| && b in graph[cls].below
      ensures b < |all| && Descendants(graph, b) < Descendants(graph, cls)
    {
      hide Descendants, Acyclic, IsTrue;
      DescendantsShrink(graph, cls, b);
    }

    /** `cls.__subclasscheck__(arg)`. */
    method SubclassCheck(cls: nat, arg: Argument) returns (r: Result<bool>)
      requires Valid() && cls < |all| && all[cls].abc && (arg.AClass? ==> arg.id < |all|)
      modifies all`cache, all`negativeCache, all`negativeCacheVersion
      ensures Valid()
      ensures AllLearn(counter, old(Records()), Records())
      ensures r == if arg.AClass? then Ok(IsSub(graph, cls, arg.id)) else Raise(TypeError)
    {
      if arg.NotAClass? {
        return Raise(TypeError);
      }
      var ok := CheckClass(cls, arg.id);
      return Ok(ok);
    }

    /** `cls.__instancecheck__(instance)`, for an instance whose `__class__` need not be its type. */
    method InstanceCheck(cls: nat, claimed: nat, actual: nat) returns (ok: bool)
      requires Valid() && cls < |all| && all[cls].abc && claimed < |all| && actual < |all|
      modifies all`cache, all`negativeCache, all`negativeCacheVersion
      ensures Valid()
      ensures AllLearn(counter, old(Records()), Records())
      ensures ok <==> IsSub(graph, cls, claimed) || IsSub(graph, cls, actual)
    {
      hide IsSub, Descendants, Valid, IsTrue, CachesTrue;
      CachedAnswers(cls, claimed);
      ghost var start := Records();
      if claimed in all[cls].cache {
        return true;
      }
      if claimed == actual {
        if all[cls].negativeCacheVersion == counter && claimed in all[cls].negativeCache {
          return false;
        }
        ok := CheckClass(cls, claimed);
        return;
      }
      ok := CheckClass(cls, claimed);
      if !ok {
        ghost var r := Records();
        ok := CheckClass(cls, actual);
        LearnTwice(counter, start, r, Records());
      }
    }

    /** `isinstance`: an exact match needs no check; classes that are not abstract look in both MROs. */
    method IsInstance(claimed: nat, actual: nat, cls: nat) returns (ok: bool)
      requires Valid() && cls < |all| && claimed < |all| && actual < |all|
      modifies all`cache, all`negativeCache, all`negativeCacheVersion
      ensures Valid()
      ensures AllLearn(counter, old(Records()), Records())
      ensures ok <==> IsSub(graph, cls, claimed) || IsSub(graph, cls, actual)
    {
      hide IsSub, IsTrue, WellFormed, Acyclic;
      if actual == cls {
        SubOfItself(graph, cls);
        return true;
      }
      if all[cls].abc {
        ok := InstanceCheck(cls, claimed, actual);
      } else {
        ok := cls in all[actual].mro || cls in all[claimed].mro;
        BelowClass(cls, claimed);
        BelowClass(cls, actual);
      }
    }

    /** The new link dates every negative cache, and a longer relation keeps every positive one true. */
    method AddToRegistry(cls: nat, sub: nat)
      requires Valid() && cls < |all| && all[cls].abc && sub < |all| && !IsSub(graph, sub, cls)
      modifies {all[cls]}`registry, this`counter, this`graph
      ensures Valid() && all[cls].registry == old(all[cls].registry) + {sub}
      ensures graph == Registered(old(graph), cls, sub) && counter == old(counter) + 1
      ensures Records() == old(Records())
    {
      hide IsSub, WellFormed, Acyclic, Reaches;
      ghost var g := graph;
      assert all[cls].Matches(g[cls]);
      RegisteredIsAcyclic(g, cls, sub);
      RegisteredRelation(g, cls, sub, cls, cls);
      all[cls].registry := all[cls].registry + {sub};
      counter := counter + 1;
      graph := Registered(g, cls, sub);
      forall i | 0 <= i < |all|
        ensures all[i].Matches(graph[i]) && IsTrue(i)
      {
        assert old(all[i].Matches(graph[i])) && old(IsTrue(i));
        forall s | s in all[i].cache
          ensures IsSub(graph, i, s)
        {
          RegisteredRelation(g, cls, sub, i, s);
        }
      }
    }

    /** `cls.register(arg)`: the relation grows unless the class was already below, or a cycle would arise. */
    method Register(cls: nat, arg: Argument) returns (r: Result<nat>)
      requires Valid() && cls < |all| && all[cls].abc && (arg.AClass? ==> arg.id < |all|)
      modifies this`counter, this`graph, all
      ensures Valid() && all == old(all)
      ensures r == RegisterResult(old(graph), cls, arg)
      ensures graph == RegisterGraph(old(graph), cls, arg)
      ensures r.Ok? ==> arg == AClass(r.value) && IsSub(graph, cls, r.value)
      ensures r.Raise? ==> graph == old(graph)
      ensures r == Raise(RuntimeError) <==>
              arg.AClass? && IsSub(old(graph), arg.id, cls) && !IsSub(old(graph), cls, arg.id)
      ensures counter == old(counter) + if arg.AClass? && Registers(old(graph), cls, arg.id) then 1 else 0
      ensures AllLearn(old(counter), old(Records()), Records())
    {
      hide IsSub, Descendants, Valid, IsTrue, CachesTrue;
      ghost var start := Records();
      if arg.NotAClass? {
        return Raise(TypeError);
      }
      var sub := arg.id;
      var already := IsSubclass(sub, cls);
      BelowClass(cls, sub);
      RegisterEffect(graph, cls, arg, cls, sub);
      if already {
        return Ok(sub);
      }
      ghost var r0 := Records();
      var cycle := IsSubclass(cls, sub);
      LearnTwice(counter, start, r0, Records());
      if cycle {
        return Raise(RuntimeError);
      }
      AddToRegistry(cls, sub);
      return Ok(sub);
    }

    /** Everything but the new class itself is in place for the graph with one class more. */
    ghost predicate BasesLinked(abc: bool, bases: set<nat>)
      requires forall b :: b in bases ==> b < |graph|
      reads this, all
    {
      && |all| == |graph| && WellFormed(graph) && Acyclic(graph)
      && (forall i, j :: 0 <= i < j < |all| ==> all[i] != all[j])
      && (forall i :: 0 <= i < |all| ==> all[i].Matches(Created(graph, abc, bases)[i]))
      && (forall i :: 0 <= i < |all| ==> IsTrue(i))
    }

    /** The bases learn of their new direct subclass. */
    method LinkToBases(abc: bool, bases: set<nat>)
      requires Valid() && forall b :: b in bases ==> b < |all|
      modifies all`subclasses
      ensures BasesLinked(abc, bases)
    {
      hide IsSub, Acyclic, WellFormed, Created, CachesTrue;
      forall b | b in bases {
        all[b].subclasses := all[b].subclasses + {|all|};
      }
      forall i | 0 <= i < |all|
        ensures all[i].Matches(Created(graph, abc, bases)[i]) && IsTrue(i)
      {
        assert old(all[i].Matches(graph[i])) && old(IsTrue(i));
        OldNode(graph, abc, bases, i, old(all[i].registry), old(all[i].subclasses));
      }
    }

    method AddClass(c: PyClass, abc: bool, bases: set<nat>)
      requires (forall b :: b in bases ==> b < |graph|) && BasesLinked(abc, bases)
      requires c !in all && c.Matches(Created(graph, abc, bases)[|all|])
      requires c.cache == {} && c.negativeCache == {} && c.negativeCacheVersion == counter
      modifies this`all, this`graph
      ensures Valid() && all == old(all) + [c] && graph == Created(old(graph), abc, bases)
    {
      hide IsSub, Acyclic, WellFormed, Created;
      CreatedIsWellFormed(graph, abc, bases);
      CreatedIsAcyclic(graph, abc, bases);
      forall i | 0 <= i < |all|
        ensures CachesTrue(Created(graph, abc, bases), i, counter, all[i].Remembered())
      {
        assert IsTrue(i);
        CachesStayTrue(graph, abc, bases, i, counter, all[i].Remembered());
      }
      all := all + [c];
      graph := Created(graph, abc, bases);
    }

    /** A new class object with empty caches, an abstract base class if any base is one. */
    method MakeClass(abc: bool, bases: set<nat>) returns (c: PyClass)
      requires Valid() && forall b :: b in bases ==> b < |all|
      ensures fresh(c) && c.Matches(Created(graph, abc, bases)[|all|])
      ensures c.cache == {} && c.negativeCache == {} && c.negativeCacheVersion == counter
    {
      hide IsSub, Acyclic, WellFormed, Created, MadeMro, IsTrue;
      assert forall b :: b in bases ==> all[b].Matches(graph[b]);
      var madeAbc := abc || exists b :: b in bases && all[b].abc;
      var mro := {|all|} + set b, a | b in bases && a in all[b].mro :: a;
      NewNode(graph, abc, bases, mro);
      c := new PyClass(madeAbc, mro, counter);
    }

    /** Creates a class; the others keep their caches. */
    method Create(abc: bool, bases: set<nat>) returns (id: nat)
      requires Valid() && forall b :: b in bases ==> b < |all|
      modifies this`all, this`graph, all`subclasses
      ensures Valid() && id == |old(all)| && |all| == id + 1 && all[..id] == old(all) && fresh(all[id])
      ensures graph == Created(old(graph), abc, bases)
      ensures counter == old(counter) && Records() == old(Records()) + [Caches({}, {}, counter)]
    {
      hide IsSub, Acyclic, WellFormed, Created, MadeMro, IsTrue;
      id := |all|;
      var c := MakeClass(abc, bases);
      LinkToBases(abc, bases);
      AddClass(c, abc, bases);
    }
  }

  lemma OldNode(g: Graph, abc: bool, bases: set<nat>, i: nat, registry: set<nat>, subclasses: set<nat>)
    requires (forall b :: b in bases ==> b < |g|) && i < |g|
    requires g[i].below == if g[i].abc then registry + subclasses else {}
    ensures var node := Created(g, abc, bases)[i];
            node.abc == g[i].abc && node.mro == g[i].mro &&
            node.below == if g[i].abc then registry + (subclasses + if i in bases then {|g|} else {}) else {}
  {
  }

  lemma NewNode(g: Graph, abc: bool, bases: set<nat>, mro: set<nat>)
    requires forall b :: b in bases ==> b < |g|
    requires mro == {|g|} + set b, a | b in bases && a in g[b].mro :: a
    ensures Created(g, abc, bases)[|g|] == Node(MadeAbc(g, abc, bases), mro, {})
  {
  }

  /** Caches of the classes that were there stay true when a class is created, the negative ones too. */
  lemma CachesStayTrue(g: Graph, abc: bool, bases: set<nat>, i: nat, counter: nat, c: Caches)
    requires WellFormed(g) && (forall b :: b in bases ==> b < |g|) && i < |g|
    requires CachesTrue(g, i, counter, c)
    ensures CachesTrue(Created(g, abc, bases), i, counter, c)
  {
    forall s: nat | s < |g|
      ensures IsSub(Created(g, abc, bases), i, s) <==> IsSub(g, i, s)
    {
      OldAnswers(g, abc, bases, i, s);
    }
  }
}
