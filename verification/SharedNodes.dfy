/** When a tree with node objects at several positions is printed right, and one that is not. */
module SharedNodes {
  import opened Expressions
  import opened KeyedPrinter
  import opened Outcome
  import opened Parser
  import opened Precedence
  import opened Printer
  import opened PrintParse

  /* ----- positions ----- */

  function ChildCount(e: Expr): nat
  {
    match e
    case Name(_) => 0
    case Constant(_) => 0
    case Unary(_, _) => 1
    case Binary(_, _, _) => 2
    case Bool(_, vs) => |vs|
    case Compare(_, _, cs) => 1 + |cs|
    case IfExp(_, _, _) => 3
    case Await(_) => 1
    case Attribute(_, _) => 1
    case Call(_, xs) => 1 + |xs|
    case Subscript(_, _) => 2
  }

  function Child(e: Expr, i: nat): Expr
    requires i < ChildCount(e)
  {
    match e
    case Unary(_, x) => x
    case Binary(l, _, r) => if i == 0 then l else r
    case Bool(_, vs) => vs[i]
    case Compare(f, _, cs) => if i == 0 then f else cs[i - 1]
    case IfExp(t, b, o) => if i == 0 then b else if i == 1 then t else o
    case Await(x) => x
    case Attribute(x, _) => x
    case Call(f, xs) => if i == 0 then f else xs[i - 1]
    case Subscript(x, y) => if i == 0 then x else y
  }

  function Raised(p: int, n: nat): int
  {
    if n == 0 then p else Next(Raised(p, n - 1))
  }

  /** The precedence that a node asks of its child `i`; that of a whole expression when it asks for none. */
  function ChildLevel(e: Expr, i: nat): int
    requires i < ChildCount(e)
  {
    match e
    case Unary(op, _) => UnaryLevel(op)
    case Binary(_, op, _) =>
      if (op == Pow) == (i == 0) then Next(BinaryLevel(op)) else BinaryLevel(op)
    case Bool(op, _) => Raised(BoolLevel(op), i + 1)
    case Compare(_, _, _) => Next(CMP)
    case IfExp(_, _, _) => if i < 2 then Next(TEST) else TEST
    case Await(_) => ATOM
    case Attribute(_, _) => ATOM
    case Call(_, _) => if i == 0 then ATOM else TEST
    case Subscript(_, _) => if i == 0 then ATOM else TEST
  }

  /** Children that are asked before an earlier sibling is visited, or not at all. */
  predicate LateChild(e: Expr, i: nat)
  {
    match e
    case Compare(_, _, _) => i >= 1
    case IfExp(_, _, _) => i == 1
    case Call(_, _) => i >= 1
    case Subscript(_, _) => i == 1
    case _ => false
  }

  function At(root: Expr, node: Path): Option<Expr>
    decreases |node|
  {
    if |node| == 0 then Some(root)
    else
      var parent := At(root, node[..|node| - 1]);
      var i := node[|node| - 1];
      if parent.Some? && i < ChildCount(parent.value) then Some(Child(parent.value, i)) else None
  }

  function Asked(root: Expr, node: Path): int
    requires At(root, node).Some?
  {
    if |node| == 0 then TEST else ChildLevel(At(root, node[..|node| - 1]).value, node[|node| - 1])
  }

  predicate Late(root: Expr, node: Path)
    requires At(root, node).Some?
  {
    |node| != 0 && LateChild(At(root, node[..|node| - 1]).value, node[|node| - 1])
  }

  /** The node at this position needs parentheses there. */
  predicate Wants(root: Expr, node: Path)
    requires At(root, node).Some?
  {
    Asked(root, node) > Level(At(root, node).value)
  }

  lemma AtChild(root: Expr, e: Expr, node: Path, i: nat)
    requires At(root, node) == Some(e) && i < ChildCount(e)
    ensures At(root, node + [i]) == Some(Child(e, i))
    ensures Asked(root, node + [i]) == ChildLevel(e, i) && (Late(root, node + [i]) <==> LateChild(e, i))
    ensures Wants(root, node + [i]) <==> ChildLevel(e, i) > Level(Child(e, i))
  {
    assert (node + [i])[..|node|] == node;
  }

  /* ----- sharing ----- */

  /** One object is one subtree, wherever it is. */
  ghost predicate AreObjects(root: Expr, k: Objects)
  {
    forall p, q :: At(root, p).Some? && At(root, q).Some? && k(p) == k(q) ==> At(root, p) == At(root, q)
  }

  /** An object at a late position needs parentheses at all its positions or at none. */
  ghost predicate SharedAlike(root: Expr, k: Objects)
  {
    forall p, q :: At(root, p).Some? && At(root, q).Some? && k(p) == k(q) && Late(root, p) ==>
      (Wants(root, p) <==> Wants(root, q))
  }

  ghost predicate NothingShared(root: Expr, k: Objects)
  {
    forall p, q :: At(root, p).Some? && At(root, q).Some? && k(p) == k(q) ==> p == q
  }

  lemma NothingSharedIsAlike(root: Expr, k: Objects)
    requires NothingShared(root, k)
    ensures AreObjects(root, k) && SharedAlike(root, k)
  {
  }

  /* ----- an object of its own at every position ----- */

  /** `n * 2**k`. */
  function Doubled(k: nat, n: nat): nat
  {
    if k == 0 then n else 2 * Doubled(k - 1, n)
  }

  /** A different number for every path. */
  function OwnObject(p: Path): nat
  {
    if p == [] then 0 else Doubled(p[0], 2 * OwnObject(p[1..]) + 1)
  }

  lemma {:induction false} DoubledUnique(k: nat, n: nat, k': nat, n': nat)
    requires n % 2 == 1 && n' % 2 == 1 && Doubled(k, n) == Doubled(k', n')
    ensures k == k' && n == n'
  {
    if k != 0 && k' != 0 {
      DoubledUnique(k - 1, n, k' - 1, n');
    }
  }

  lemma {:induction false} DoubledPositive(k: nat, n: nat)
    requires 0 < n
    ensures 0 < Doubled(k, n)
  {
    if k != 0 {
      DoubledPositive(k - 1, n);
    }
  }

  lemma {:induction false} OwnObjectUnique(p: Path, q: Path)
    requires OwnObject(p) == OwnObject(q)
    ensures p == q
  {
    hide Doubled;
    if p != [] {
      DoubledPositive(p[0], 2 * OwnObject(p[1..]) + 1);
    }
    if q != [] {
      DoubledPositive(q[0], 2 * OwnObject(q[1..]) + 1);
    }
    if p != [] && q != [] {
      DoubledUnique(p[0], 2 * OwnObject(p[1..]) + 1, q[0], 2 * OwnObject(q[1..]) + 1);
      OwnObjectUnique(p[1..], q[1..]);
      assert p == [p[0]] + p[1..] && q == [q[0]] + q[1..];
    }
  }

  /** Every tree can be made of objects none of which is shared. */
  lemma OwnObjects(root: Expr)
    ensures NothingShared(root, OwnObject)
  {
    forall p, q | OwnObject(p) == OwnObject(q)
      ensures p == q
    {
      OwnObjectUnique(p, q);
    }
  }

  /** What is on record for the object at a late position decides its parentheses right. */
  ghost predicate RecordRight(root: Expr, k: Objects, m: Precedences)
  {
    forall q :: At(root, q).Some? && Late(root, q) && k(q) in m ==>
      (m[k(q)] > Level(At(root, q).value) <==> Wants(root, q))
  }

  /** The common hypotheses: `e` is at `node`, and the record so far is right. */
  ghost predicate Ready(root: Expr, k: Objects, e: Expr, node: Path, m: Precedences)
  {
    && AreObjects(root, k) && SharedAlike(root, k)
    && At(root, node) == Some(e) && RecordRight(root, k, m)
  }

  /** The record is right after `r`, nothing has left it, and what was written is `ts`. */
  ghost predicate Writes(root: Expr, k: Objects, m: Precedences, r: Out, ts: seq<Token>)
  {
    r.ts == ts && RecordRight(root, k, r.m) && m.Keys <= r.m.Keys
  }

  lemma AskKeepsRecord(root: Expr, k: Objects, e: Expr, node: Path, i: nat, m: Precedences)
    requires Ready(root, k, e, node, m) && i < ChildCount(e)
    ensures RecordRight(root, k, m[k(node + [i]) := ChildLevel(e, i)])
  {
    hide At, Asked, Late, Wants, Child, ChildLevel, Level;
    var c := node + [i];
    var p, m' := ChildLevel(e, i), m[k(c) := ChildLevel(e, i)];
    AtChild(root, e, node, i);
    forall q | At(root, q).Some? && Late(root, q) && k(q) in m'
      ensures m'[k(q)] > Level(At(root, q).value) <==> Wants(root, q)
    {
      if k(q) == k(c) {
        assert At(root, q) == At(root, c);
        assert Wants(root, q) <==> Wants(root, c);
      }
    }
  }

  lemma {:induction false} AskAllKeepsRecord(root: Expr, k: Objects, e: Expr, node: Path, p: int, n: nat,
                                             m: Precedences)
    requires Ready(root, k, e, node, m) && n <= ChildCount(e)
    requires forall i: nat :: i < n ==> ChildLevel(e, i) == p
    ensures var asked := AskAll(p, node, n, k, m);
      && RecordRight(root, k, asked) && m.Keys <= asked.Keys
      && forall i: nat :: i < n ==> k(node + [i]) in asked && asked[k(node + [i])] == p
  {
    hide RecordRight, AreObjects, SharedAlike;
    if n != 0 {
      AskAllKeepsRecord(root, k, e, node, p, n - 1, m);
      var before := AskAll(p, node, n - 1, k, m);
      assert Ready(root, k, e, node, before);
      AskKeepsRecord(root, k, e, node, n - 1, before);
      assert ChildLevel(e, n - 1) == p;
    }
  }

  /* ----- printing right ----- */

  /** With the right decision on record for a node, it is printed as it should be. */
  lemma {:induction false} KeyedIsPrint(root: Expr, k: Objects, e: Expr, node: Path, m: Precedences)
    requires Ready(root, k, e, node, m)
    requires OnRecord(m, k, node) > Level(e) <==> Wants(root, node)
    ensures Writes(root, k, m, Keyed(e, node, k, m), Print(e, Asked(root, node)))
    decreases e, 3
  {
    hide RecordRight, AreObjects, SharedAlike, KeyedBody, Body;
    KeyedBodyIsBody(root, k, e, node, m);
  }

  /** A child asked just before its visit. */
  lemma {:induction false} PromptIsPrint(root: Expr, k: Objects, e: Expr, node: Path, i: nat, m: Precedences)
    requires Ready(root, k, e, node, m) && i < ChildCount(e)
    ensures Writes(root, k, m, KeyedChild(Child(e, i), ChildLevel(e, i), node, i, k, m),
                   Print(Child(e, i), ChildLevel(e, i)))
    ensures k(node + [i]) in KeyedChild(Child(e, i), ChildLevel(e, i), node, i, k, m).m
    decreases Child(e, i), 4
  {
    hide RecordRight, AreObjects, SharedAlike, Keyed, Print;
    AtChild(root, e, node, i);
    AskKeepsRecord(root, k, e, node, i, m);
    KeyedIsPrint(root, k, Child(e, i), node + [i], m[k(node + [i]) := ChildLevel(e, i)]);
  }

  /** A child that was asked earlier, or not at all. */
  lemma {:induction false} LateIsPrint(root: Expr, k: Objects, e: Expr, node: Path, i: nat, m: Precedences)
    requires Ready(root, k, e, node, m) && i < ChildCount(e) && LateChild(e, i)
    requires k(node + [i]) in m || ChildLevel(e, i) == TEST
    ensures Writes(root, k, m, Keyed(Child(e, i), node + [i], k, m), Print(Child(e, i), ChildLevel(e, i)))
    decreases Child(e, i), 4
  {
    hide AreObjects, SharedAlike, Keyed, Print;
    AtChild(root, e, node, i);
    KeyedIsPrint(root, k, Child(e, i), node + [i], m);
  }

  lemma {:induction false} KeyedBodyIsBody(root: Expr, k: Objects, e: Expr, node: Path, m: Precedences)
    requires Ready(root, k, e, node, m)
    ensures Writes(root, k, m, KeyedBody(e, node, k, m), Body(e))
    decreases e, 2
  {
    hide RecordRight, AreObjects, SharedAlike, Keyed, KeyedChild, Print;
    match e {
      case Name(_) =>
      case Constant(_) =>
      case Unary(_, _) =>
        PromptIsPrint(root, k, e, node, 0, m);
      case Await(_) =>
        PromptIsPrint(root, k, e, node, 0, m);
      case Attribute(_, _) =>
        PromptIsPrint(root, k, e, node, 0, m);
      case Binary(_, _, _) =>
        BinaryIsBody(root, k, e, node, m);
      case Bool(op, vs) =>
        assert vs[0..] == vs;
        ValuesArePrinted(root, k, e, node, 0, BoolLevel(op), m);
      case Compare(_, _, _) =>
        CompareIsBody(root, k, e, node, m);
      case IfExp(_, _, _) =>
        IfExpIsBody(root, k, e, node, m);
      case Call(f, xs) =>
        PromptIsPrint(root, k, e, node, 0, m);
        assert xs[0..] == xs;
        ArgsArePrinted(root, k, e, node, 0, KeyedChild(f, ATOM, node, 0, k, m).m);
      case Subscript(x, _) =>
        PromptIsPrint(root, k, e, node, 0, m);
        LateIsPrint(root, k, e, node, 1, KeyedChild(x, ATOM, node, 0, k, m).m);
    }
  }

  lemma {:induction false} BinaryIsBody(root: Expr, k: Objects, e: Expr, node: Path, m: Precedences)
    requires Ready(root, k, e, node, m) && e.Binary?
    ensures Writes(root, k, m, KeyedBody(e, node, k, m), Body(e))
    decreases e, 1
  {
    hide RecordRight, AreObjects, SharedAlike, KeyedChild, Print;
    PromptIsPrint(root, k, e, node, 0, m);
    var left := KeyedChild(e.left, ChildLevel(e, 0), node, 0, k, m);
    PromptIsPrint(root, k, e, node, 1, left.m);
  }

  lemma {:induction false} CompareIsBody(root: Expr, k: Objects, e: Expr, node: Path, m: Precedences)
    requires Ready(root, k, e, node, m) && e.Compare?
    ensures Writes(root, k, m, KeyedBody(e, node, k, m), Body(e))
    decreases e, 1
  {
    hide RecordRight, AreObjects, SharedAlike, Keyed, Print;
    AskAllKeepsRecord(root, k, e, node, Next(CMP), 1 + |e.comparators|, m);
    var asked := AskAll(Next(CMP), node, 1 + |e.comparators|, k, m);
    AtChild(root, e, node, 0);
    assert k(node + [0]) in asked && asked[k(node + [0])] == Next(CMP);
    KeyedIsPrint(root, k, e.first, node + [0], asked);
    var first := Keyed(e.first, node + [0], k, asked);
    assert e.ops[0..] == e.ops && e.comparators[0..] == e.comparators;
    ComparisonsArePrinted(root, k, e, node, 0, first.m);
  }

  lemma {:induction false} IfExpIsBody(root: Expr, k: Objects, e: Expr, node: Path, m: Precedences)
    requires Ready(root, k, e, node, m) && e.IfExp?
    ensures Writes(root, k, m, KeyedBody(e, node, k, m), Body(e))
    decreases e, 1
  {
    hide RecordRight, AreObjects, SharedAlike, Keyed, KeyedChild, Print;
    AskAllKeepsRecord(root, k, e, node, Next(TEST), 2, m);
    var asked := AskAll(Next(TEST), node, 2, k, m);
    AtChild(root, e, node, 0);
    assert k(node + [0]) in asked && asked[k(node + [0])] == Next(TEST) && k(node + [1]) in asked;
    KeyedIsPrint(root, k, e.body, node + [0], asked);
    var body := Keyed(e.body, node + [0], k, asked);
    LateIsPrint(root, k, e, node, 1, body.m);
    var test := Keyed(e.test, node + [1], k, body.m);
    PromptIsPrint(root, k, e, node, 2, test.m);
  }

  lemma {:induction false} ValuesArePrinted(root: Expr, k: Objects, e: Expr, node: Path, i: nat, p: int, m: Precedences)
    requires Ready(root, k, e, node, m) && e.Bool? && i <= |e.values| && p == Raised(BoolLevel(e.bop), i)
    ensures Writes(root, k, m, KeyedValues(e.bop, e.values, i, p, node, k, m),
                   PrintValues(e.bop, e.values[i..], p, i == 0))
    decreases e, 1, |e.values| - i
  {
    hide RecordRight, AreObjects, SharedAlike, KeyedChild, Print;
    if i < |e.values| {
      assert e.values[i..][0] == e.values[i] && e.values[i..][1..] == e.values[i + 1..];
      PromptIsPrint(root, k, e, node, i, m);
      var r := KeyedChild(e.values[i], Next(p), node, i, k, m);
      ValuesArePrinted(root, k, e, node, i + 1, Next(p), r.m);
    }
  }

  lemma {:induction false} ComparisonsArePrinted(root: Expr, k: Objects, e: Expr, node: Path, i: nat, m: Precedences)
    requires Ready(root, k, e, node, m) && e.Compare? && i <= |e.ops| && i <= |e.comparators|
    requires forall j: nat :: j <= |e.comparators| ==> k(node + [j]) in m
    ensures Writes(root, k, m, KeyedComparisons(e.ops, e.comparators, i, node, k, m),
                   PrintComparisons(e.ops[i..], e.comparators[i..]))
    decreases e, 0, |e.comparators| - i
  {
    hide RecordRight, AreObjects, SharedAlike, Keyed, Print;
    if i < |e.ops| && i < |e.comparators| {
      assert e.ops[i..][0] == e.ops[i] && e.ops[i..][1..] == e.ops[i + 1..];
      assert e.comparators[i..][0] == e.comparators[i] && e.comparators[i..][1..] == e.comparators[i + 1..];
      assert k(node + [1 + i]) in m;
      LateIsPrint(root, k, e, node, 1 + i, m);
      var r := Keyed(e.comparators[i], node + [1 + i], k, m);
      ComparisonsArePrinted(root, k, e, node, i + 1, r.m);
    }
  }

  lemma {:induction false} ArgsArePrinted(root: Expr, k: Objects, e: Expr, node: Path, i: nat, m: Precedences)
    requires Ready(root, k, e, node, m) && e.Call? && i <= |e.args|
    ensures Writes(root, k, m, KeyedArgs(e.args, i, node, k, m), PrintArgs(e.args[i..], i == 0))
    decreases e, 1, |e.args| - i
  {
    hide RecordRight, AreObjects, SharedAlike, Keyed, Print;
    if i < |e.args| {
      assert e.args[i..][0] == e.args[i] && e.args[i..][1..] == e.args[i + 1..];
      LateIsPrint(root, k, e, node, 1 + i, m);
      var r := Keyed(e.args[i], node + [1 + i], k, m);
      ArgsArePrinted(root, k, e, node, i + 1, r.m);
    }
  }

  /** With nothing on record, a tree whose late objects are shared alike is printed as if nothing were shared. */
  lemma SharedAlikeIsRight(root: Expr, k: Objects)
    requires AreObjects(root, k) && SharedAlike(root, k)
    ensures Keyed(root, [], k, map[]).ts == Print(root, TEST)
    ensures ParseAll(Keyed(root, [], k, map[]).ts) == Parsed(root, []) <==> WellFormed(root)
  {
    hide Keyed, Print, AreObjects, SharedAlike, ParseAll;
    assert At(root, []) == Some(root);
    KeyedIsPrint(root, k, root, [], map[]);
    PrintParsesBack(root, TEST);
  }

  /* ----- a shared node that loses its parentheses ----- */

  const EITHER := Bool(Or, [Name("c"), Name("d")])
  const CHOICE := IfExp(Name("a"), Name("b"), EITHER)

  /** `(b if a else c or d) == (c or d)`, with one object for the two `c or d`. */
  const SHARING := Compare(CHOICE, [Eq], [EITHER])

  /** `(b if a else c or d) == c or d`. */
  const MISREAD := Bool(Or, [Compare(CHOICE, [Eq], [Name("c")]), Name("d")])

  function SharingObjects(p: Path): nat
  {
    if p == [] then 0
    else if p == [0] then 1
    else if p == [0, 0] then 2
    else if p == [0, 1] then 3
    else if p == [0, 2] || p == [1] then 4
    else if p == [0, 2, 0] || p == [1, 0] then 5
    else if p == [0, 2, 1] || p == [1, 1] then 6
    else 7
  }

  function ObjectTree(o: nat): Expr
  {
    if o == 0 then SHARING
    else if o == 1 then CHOICE
    else if o == 2 then Name("b")
    else if o == 3 then Name("a")
    else if o == 4 then EITHER
    else if o == 5 then Name("c")
    else Name("d")
  }

  lemma {:induction false} ObjectAt(p: Path)
    requires At(SHARING, p).Some?
    ensures At(SHARING, p) == Some(ObjectTree(SharingObjects(p))) && SharingObjects(p) != 7
    decreases |p|
  {
    if |p| != 0 {
      var parent, i := p[..|p| - 1], p[|p| - 1];
      ObjectAt(parent);
      assert p == parent + [i];
      assert i < ChildCount(ObjectTree(SharingObjects(parent)));
    }
  }

  lemma NameIsWritten(id: string, node: Path, m: Precedences)
    requires OnRecord(m, SharingObjects, node) <= ATOM
    ensures Keyed(Name(id), node, SharingObjects, m) == Out([Ident(id)], m)
  {
  }

  lemma KeyedUnfolds(e: Expr, node: Path, m: Precedences)
    ensures var r := KeyedBody(e, node, SharingObjects, m);
      Keyed(e, node, SharingObjects, m)
      == if OnRecord(m, SharingObjects, node) > Level(e) then Out([LPar] + r.ts + [RPar], r.m) else r
  {
  }

  lemma EitherObjects(node: Path)
    requires node == [0, 2] || node == [1]
    ensures SharingObjects(node + [0]) == 5 && SharingObjects(node + [1]) == 6
  {
    assert [0, 2] + [0] == [0, 2, 0] && [0, 2] + [1] == [0, 2, 1] && [1] + [0] == [1, 0] && [1] + [1] == [1, 1];
  }

  lemma LastValue(node: Path, m: Precedences)
    requires SharingObjects(node + [1]) == 6
    ensures KeyedValues(Or, EITHER.values, 1, AND, node, SharingObjects, m) == Out([KwOr, Ident("d")], m[6 := NOT])
  {
    hide Keyed, SharingObjects;
    NameIsWritten("d", node + [1], m[6 := NOT]);
    assert KeyedValues(Or, EITHER.values, 2, NOT, node, SharingObjects, m[6 := NOT]) == Out([], m[6 := NOT]);
  }

  lemma EitherBody(node: Path, m: Precedences)
    requires SharingObjects(node + [0]) == 5 && SharingObjects(node + [1]) == 6
    ensures KeyedBody(EITHER, node, SharingObjects, m)
         == Out([Ident("c"), KwOr, Ident("d")], m[5 := AND][6 := NOT])
  {
    hide Keyed, SharingObjects;
    NameIsWritten("c", node + [0], m[5 := AND]);
    LastValue(node, m[5 := AND]);
  }

  /** `c or d` as it is printed at either of its positions. */
  lemma EitherIsWritten(node: Path, m: Precedences)
    requires node == [0, 2] || node == [1]
    ensures var r := Keyed(EITHER, node, SharingObjects, m);
      && r.m == m[5 := AND][6 := NOT]
      && r.ts == if OnRecord(m, SharingObjects, node) > OR then [LPar, Ident("c"), KwOr, Ident("d"), RPar]
                 else [Ident("c"), KwOr, Ident("d")]
  {
    hide Keyed, KeyedBody, SharingObjects;
    EitherObjects(node);
    EitherBody(node, m);
    KeyedUnfolds(EITHER, node, m);
  }

  /** The conditional on the left: its alternative is the last thing asked of the shared object. */
  lemma ChoiceIsWritten(m: Precedences)
    requires 1 in m && m[1] == EXPR
    ensures var r := Keyed(CHOICE, [0], SharingObjects, m);
      && 4 in r.m && r.m[4] == TEST
      && r.ts == [LPar, Ident("b"), KwIf, Ident("a"), KwElse, Ident("c"), KwOr, Ident("d"), RPar]
  {
    hide Keyed;
    var k := SharingObjects;
    assert [0] + [0] == [0, 0] && [0] + [1] == [0, 1] && [0] + [2] == [0, 2];
    var asked := m[2 := OR][3 := OR];
    assert AskAll(OR, [0], 1, k, m) == m[2 := OR] && AskAll(OR, [0], 2, k, m) == asked;
    NameIsWritten("b", [0, 0], asked);
    NameIsWritten("a", [0, 1], asked);
    EitherIsWritten([0, 2], asked[4 := TEST]);
    var either := KeyedChild(EITHER, TEST, [0], 2, k, asked);
    assert either == Out([Ident("c"), KwOr, Ident("d")], asked[4 := TEST][5 := AND][6 := NOT]);
    var body := [Ident("b")] + [KwIf] + [Ident("a")] + [KwElse] + [Ident("c"), KwOr, Ident("d")];
    assert KeyedBody(CHOICE, [0], k, m) == Out(body, either.m);
    KeyedUnfolds(CHOICE, [0], m);
  }

  const SHARING_TOKENS :=
    [LPar, Ident("b"), KwIf, Ident("a"), KwElse, Ident("c"), KwOr, Ident("d"), RPar,
     Comparator(Eq), Ident("c"), KwOr, Ident("d")]

  lemma SharingIsWritten()
    ensures Keyed(SHARING, [], SharingObjects, map[]).ts == SHARING_TOKENS
  {
    hide Keyed;
    var k := SharingObjects;
    assert [] + [0] == [0] && [] + [1] == [1];
    var asked: Precedences := map[1 := EXPR][4 := EXPR];
    assert AskAll(EXPR, [], 1, k, map[]) == map[1 := EXPR] && AskAll(EXPR, [], 2, k, map[]) == asked;
    ChoiceIsWritten(asked);
    var first := Keyed(CHOICE, [0], k, asked);
    EitherIsWritten([1], first.m);
    var either := Keyed(EITHER, [1], k, first.m);
    assert KeyedComparisons([Eq], [EITHER], 1, [], k, either.m) == Out([], either.m);
    assert KeyedComparisons([Eq], [EITHER], 0, [], k, first.m).ts == [Comparator(Eq), Ident("c"), KwOr, Ident("d")];
    KeyedUnfolds(SHARING, [], map[]);
  }

  lemma MisreadIsPrinted()
    ensures Print(MISREAD, TEST) == SHARING_TOKENS
  {
    var choice := Print(CHOICE, EXPR);
    assert PrintValues(Or, [], NOT, false) == [];
    assert PrintValues(Or, EITHER.values[1..], AND, false) == [KwOr, Ident("d")];
    assert Body(EITHER) == [Ident("c"), KwOr, Ident("d")];
    assert choice == [LPar, Ident("b"), KwIf, Ident("a"), KwElse, Ident("c"), KwOr, Ident("d"), RPar];
    assert PrintComparisons([Eq], [Name("c")]) == [Comparator(Eq), Ident("c")];
    assert PrintValues(Or, MISREAD.values[1..], AND, false) == [KwOr, Ident("d")];
    var compare := Compare(CHOICE, [Eq], [Name("c")]);
    assert Body(compare) == choice + [Comparator(Eq), Ident("c")];
    assert Print(compare, AND) == Body(compare);
    assert Body(MISREAD) == Print(compare, AND) + [KwOr, Ident("d")];
  }

  /**
    A well-formed tree whose shared object loses its parentheses, because its other position is asked for less in
    between: the text parses, but to another tree.
    */
  lemma SharedOperandIsMisread()
    ensures AreObjects(SHARING, SharingObjects) && !SharedAlike(SHARING, SharingObjects) && WellFormed(SHARING)
    ensures ParseAll(Keyed(SHARING, [], SharingObjects, map[]).ts) == Parsed(MISREAD, []) && MISREAD != SHARING
  {
    hide Keyed, Print, ParseAll, At, SharedAlike, SharingObjects, ObjectTree;
    forall p, q | At(SHARING, p).Some? && At(SHARING, q).Some? && SharingObjects(p) == SharingObjects(q)
      ensures At(SHARING, p) == At(SHARING, q)
    {
      ObjectAt(p);
      ObjectAt(q);
    }
    SharingWants();
    SharingIsWritten();
    MisreadIsPrinted();
    PrintParsesBack(MISREAD, TEST);
  }

  lemma SharingWants()
    ensures !SharedAlike(SHARING, SharingObjects)
  {
    var root := SHARING;
    assert At(root, []) == Some(SHARING);
    AtChild(root, SHARING, [], 0);
    AtChild(root, SHARING, [], 1);
    assert [] + [0] == [0] && [] + [1] == [1];
    AtChild(root, CHOICE, [0], 2);
    assert [0] + [2] == [0, 2];
    assert Late(root, [1]) && Wants(root, [1]) && !Wants(root, [0, 2]);
  }
}
