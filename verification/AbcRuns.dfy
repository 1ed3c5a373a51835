/** Whole runs of class creations, registrations and checks: with the caches they answer as without. */
module AbcRuns {
  import opened Outcome
  import opened SubclassGraph
  import opened AbcCache

  datatype Op =
    | Create(abc: bool, bases: set<nat>)
    | Register(cls: nat, arg: Argument)
    | CheckSubclass(cls: nat, arg: Argument)
    | CheckInstance(cls: nat, claimed: nat, actual: nat)

  datatype Answer = Class(id: nat) | Truth(ok: bool) | Raised(error: PyError)

  /* ----- runs without caches ----- */

  /** The operation mentions only classes among the `n` that exist. */
  predicate Names(n: nat, op: Op)
  {
    match op
    case Create(_, bases) => forall b :: b in bases ==> b < n
    case Register(cls, arg) => cls < n && (arg.AClass? ==> arg.id < n)
    case CheckSubclass(cls, arg) => cls < n && (arg.AClass? ==> arg.id < n)
    case CheckInstance(cls, claimed, actual) => cls < n && claimed < n && actual < n
  }

  ghost function AnswerTo(g: Graph, op: Op): Answer
  {
    if !Names(|g|, op) then Raised(NameError)
    else match op
      case Create(_, _) => Class(|g|)
      case Register(cls, arg) =>
        if !g[cls].abc then Raised(AttributeError)
        else var r := RegisterResult(g, cls, arg); if r.Ok? then Class(r.value) else Raised(r.error)
      case CheckSubclass(cls, arg) =>
        if arg.NotAClass? then Raised(TypeError) else Truth(IsSub(g, cls, arg.id))
      case CheckInstance(cls, claimed, actual) => Truth(IsSub(g, cls, claimed) || IsSub(g, cls, actual))
  }

  ghost function After(g: Graph, op: Op): Graph
  {
    if !Names(|g|, op) then g
    else match op
      case Create(abc, bases) => Created(g, abc, bases)
      case Register(cls, arg) => if g[cls].abc then RegisterGraph(g, cls, arg) else g
      case _ => g
  }

  ghost function Answers(g: Graph, ops: seq<Op>): seq<Answer>
    decreases |ops|
  {
    if ops == [] then [] else [AnswerTo(g, ops[0])] + Answers(After(g, ops[0]), ops[1..])
  }

  ghost function AfterAll(g: Graph, ops: seq<Op>): Graph
    decreases |ops|
  {
    if ops == [] then g else AfterAll(After(g, ops[0]), ops[1..])
  }

  /* ----- what holds in every run ----- */

  lemma StepKeeps(g: Graph, op: Op)
    requires WellFormed(g) && Acyclic(g) && Inherits(g)
    ensures WellFormed(After(g, op)) && Acyclic(After(g, op)) && Inherits(After(g, op)) && |g| <= |After(g, op)|
    ensures forall c: nat, s: nat :: IsSub(g, c, s) ==> IsSub(After(g, op), c, s)
  {
    hide IsSub, WellFormed, Acyclic, Inherits, Created, Registered;
    if Names(|g|, op) {
      match op {
        case Create(abc, bases) =>
          CreatedIsWellFormed(g, abc, bases);
          CreatedIsAcyclic(g, abc, bases);
          CreatedInherits(g, abc, bases);
          forall c: nat, s: nat | IsSub(g, c, s)
            ensures IsSub(After(g, op), c, s)
          {
            SubsExist(g, c, s);
            OldAnswers(g, abc, bases, c, s);
          }
        case Register(cls, arg) =>
          if g[cls].abc && arg.AClass? && Registers(g, cls, arg.id) {
            RegisteredRelation(g, cls, arg.id, cls, cls);
            RegisteredIsAcyclic(g, cls, arg.id);
            RegisteredInherits(g, cls, arg.id);
            forall c: nat, s: nat | IsSub(g, c, s)
              ensures IsSub(After(g, op), c, s)
            {
              RegisteredRelation(g, cls, arg.id, c, s);
            }
          }
        case _ =>
      }
    }
  }

  lemma SubsExist(g: Graph, c: nat, s: nat)
    requires IsSub(g, c, s)
    ensures c < |g| && s < |g|
  {
    var n: nat :| Within(g, n, c, s);
  }

  /**
    The links never form a cycle, so no check searches forever; they always lead from an abstract class to what derives
    from it; and an answer once positive is so ever after.
    */
  lemma {:induction false} RunKeeps(g: Graph, ops: seq<Op>, c: nat, s: nat)
    requires WellFormed(g) && Acyclic(g) && Inherits(g)
    ensures WellFormed(AfterAll(g, ops)) && Acyclic(AfterAll(g, ops)) && Inherits(AfterAll(g, ops))
    ensures IsSub(g, c, s) ==> IsSub(AfterAll(g, ops), c, s)
    decreases |ops|
  {
    hide IsSub, WellFormed, Acyclic, Inherits, After;
    if ops != [] {
      StepKeeps(g, ops[0]);
      RunKeeps(After(g, ops[0]), ops[1..], c, s);
    }
  }

  /**
    After `register` has returned the class, `issubclass` finds it ever after, and so it does from every abstract class
    that the registering class derives from.
    */
  lemma RegistrationHolds(g: Graph, cls: nat, sub: nat, ops: seq<Op>, a: nat)
    requires WellFormed(g) && Acyclic(g) && Inherits(g) && cls < |g| && sub < |g| && g[cls].abc
    requires AnswerTo(g, Register(cls, AClass(sub))) == Class(sub)
    requires a in g[cls].mro && a < |g| && g[a].abc
    ensures var g' := AfterAll(After(g, Register(cls, AClass(sub))), ops);
      |g| <= |g'| && AnswerTo(g', CheckSubclass(a, AClass(sub))) == Truth(true)
  {
    hide IsSub, WellFormed, Acyclic, Inherits, RegisterGraph, RegisterResult, Reaches;
    var op := Register(cls, AClass(sub));
    var g1 := After(g, op);
    RegisterEffect(g, cls, AClass(sub), cls, sub);
    StepKeeps(g, op);
    RegisterKeepsNodes(g, cls, AClass(sub), cls);
    RegisterKeepsNodes(g, cls, AClass(sub), a);
    SubOfDerived(g1, a, cls, sub);
    RunKeeps(g1, ops, a, sub);
    SubsExist(AfterAll(g1, ops), a, sub);
    RunGrows(g1, ops);
  }

  lemma RegisterKeepsNodes(g: Graph, cls: nat, arg: Argument, c: nat)
    requires cls < |g| && c < |g|
    ensures var g' := RegisterGraph(g, cls, arg);
      |g'| == |g| && g'[c].mro == g[c].mro && g'[c].abc == g[c].abc
  {
  }

  lemma {:induction false} RunGrows(g: Graph, ops: seq<Op>)
    ensures |g| <= |AfterAll(g, ops)|
    decreases |ops|
  {
    if ops != [] {
      RunGrows(After(g, ops[0]), ops[1..]);
    }
  }

  /** A class can register others exactly when it was made an abstract base class or has one among its bases. */
  lemma NewClassCanRegister(g: Graph, abc: bool, bases: set<nat>, arg: Argument)
    requires (forall b :: b in bases ==> b < |g|) && (arg.AClass? ==> arg.id <= |g|)
    ensures AnswerTo(After(g, Create(abc, bases)), Register(|g|, arg)) == Raised(AttributeError) <==>
            !abc && forall b :: b in bases ==> !g[b].abc
  {
    assert Names(|g|, Create(abc, bases)) && Names(|g| + 1, Register(|g|, arg));
  }

  /** A new class is a subclass of itself and of exactly what its bases are subclasses of. */
  lemma NewClassAnswers(g: Graph, abc: bool, bases: set<nat>, c: nat)
    requires WellFormed(g) && (forall b :: b in bases ==> b < |g|) && c <= |g|
    ensures AnswerTo(g, Create(abc, bases)) == Class(|g|)
    ensures AnswerTo(After(g, Create(abc, bases)), CheckSubclass(c, AClass(|g|))) ==
            Truth(c == |g| || exists b :: b in bases && IsSub(g, c, b))
  {
    hide IsSub, WellFormed;
    NewClassRelation(g, abc, bases, c);
  }

  /** All of this holds in every run from the start. */
  lemma ReachableGraph(ops: seq<Op>)
    ensures WellFormed(AfterAll([], ops)) && Acyclic(AfterAll([], ops)) && Inherits(AfterAll([], ops))
  {
    hide AfterAll;
    RunKeeps([], ops, 0, 0);
  }

  /** While nothing is registered a negative answer stays negative too, whatever classes are created. */
  lemma {:induction false} NegativeUntilRegistration(g: Graph, ops: seq<Op>, c: nat, s: nat)
    requires WellFormed(g) && Acyclic(g) && Inherits(g) && s < |g|
    requires forall op :: op in ops ==> !op.Register?
    ensures IsSub(AfterAll(g, ops), c, s) <==> IsSub(g, c, s)
    decreases |ops|
  {
    hide IsSub, WellFormed, Acyclic, Inherits;
    if ops != [] {
      var op := ops[0];
      StepKeeps(g, op);
      if op.Create? && Names(|g|, op) {
        OldAnswers(g, op.abc, op.bases, c, s);
      }
      NegativeUntilRegistration(After(g, op), ops[1..], c, s);
    }
  }

  /* ----- runs with caches ----- */

  /** One operation on the objects does to the graph, and answers, what it does without caches. */
  method Perform(py: Classes, op: Op) returns (a: Answer)
    requires py.Valid()
    modifies py, py.all
    ensures py.Valid() && fresh(set c | c in py.all && c !in old(py.all))
    ensures a == AnswerTo(old(py.graph), op) && py.graph == After(old(py.graph), op)
  {
    hide IsSub, Registered, Created;
    if !Names(|py.all|, op) {
      return Raised(NameError);
    }
    match op {
      case Create(abc, bases) =>
        var id := py.Create(abc, bases);
        a := Class(id);
      case Register(cls, arg) =>
        assert py.all[cls].Matches(py.graph[cls]);
        if !py.all[cls].abc {
          return Raised(AttributeError);
        }
        var r := py.Register(cls, arg);
        a := if r.Ok? then Class(r.value) else Raised(r.error);
      case CheckSubclass(cls, arg) =>
        if arg.NotAClass? {
          return Raised(TypeError);
        }
        var ok := py.IsSubclass(arg.id, cls);
        a := Truth(ok);
      case CheckInstance(cls, claimed, actual) =>
        var ok := py.IsInstance(claimed, actual, cls);
        a := Truth(ok);
    }
  }

  /** Every answer in every run is the answer of the relation that remembers nothing. */
  method Run(ops: seq<Op>) returns (answers: seq<Answer>)
    ensures answers == Answers([], ops)
  {
    hide AnswerTo, After;
    var py := new Classes();
    answers := [];
    var i := 0;
    while i < |ops|
      invariant 0 <= i <= |ops| && py.Valid() && fresh(py) && fresh(py.all)
      invariant answers + Answers(py.graph, ops[i..]) == Answers([], ops)
    {
      assert ops[i..][1..] == ops[i + 1..];
      var a := Perform(py, ops[i]);
      answers := answers + [a];
      i := i + 1;
    }
  }
}
