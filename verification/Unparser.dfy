/**
  The printer as it runs: an object that appends to its output and keeps, for each node object, the precedence that was
  last asked for it.
  */
module Unparsing {
  import opened Expressions
  import opened KeyedPrinter
  import opened Parser
  import opened Precedence
  import opened Printer
  import opened SharedNodes

  /* ----- what one turn of each printing loop does ----- */

  lemma ValueWritten(out: seq<Token>, op: BoolOp, vs: seq<Expr>, i: nat, p: int, node: Path, k: Objects, m: Precedences)
    requires i < |vs|
    ensures var r := KeyedChild(vs[i], Next(p), node, i, k, m);
      var more := KeyedValues(op, vs, i + 1, Next(p), node, k, r.m);
      && KeyedValues(op, vs, i, p, node, k, m).m == more.m
      && out + KeyedValues(op, vs, i, p, node, k, m).ts
         == out + (if i == 0 then [] else [BoolToken(op)]) + r.ts + more.ts
  {
    hide KeyedChild;
  }

  lemma ComparisonWritten(out: seq<Token>, ops: seq<CmpOp>, cs: seq<Expr>, i: nat,
                          node: Path, k: Objects, m: Precedences)
    requires i < |ops| && i < |cs|
    ensures var r := Keyed(cs[i], node + [1 + i], k, m);
      var more := KeyedComparisons(ops, cs, i + 1, node, k, r.m);
      && KeyedComparisons(ops, cs, i, node, k, m).m == more.m
      && out + KeyedComparisons(ops, cs, i, node, k, m).ts == out + CompareTokens(ops[i]) + r.ts + more.ts
  {
    hide Keyed, CompareTokens;
  }

  lemma ArgWritten(out: seq<Token>, xs: seq<Expr>, i: nat, node: Path, k: Objects, m: Precedences)
    requires i < |xs|
    ensures var r := Keyed(xs[i], node + [1 + i], k, m);
      var more := KeyedArgs(xs, i + 1, node, k, r.m);
      && KeyedArgs(xs, i, node, k, m).m == more.m
      && out + KeyedArgs(xs, i, node, k, m).ts == out + (if i == 0 then [] else [Comma]) + r.ts + more.ts
  {
    hide Keyed;
  }

  lemma CompareWritten(out: seq<Token>, e: Expr, node: Path, k: Objects, m: Precedences)
    requires e.Compare?
    ensures var first := Keyed(e.first, node + [0], k, AskAll(Next(CMP), node, 1 + |e.comparators|, k, m));
      var rest := KeyedComparisons(e.ops, e.comparators, 0, node, k, first.m);
      out + first.ts + rest.ts == out + KeyedBody(e, node, k, m).ts && rest.m == KeyedBody(e, node, k, m).m
  {
    hide Keyed, KeyedComparisons, AskAll;
  }

  lemma CallWritten(out: seq<Token>, e: Expr, node: Path, k: Objects, m: Precedences)
    requires e.Call?
    ensures var func := KeyedChild(e.func, ATOM, node, 0, k, m);
      var args := KeyedArgs(e.args, 0, node, k, func.m);
      && out + func.ts + [LPar] + args.ts + [RPar] == out + KeyedBody(e, node, k, m).ts
      && args.m == KeyedBody(e, node, k, m).m
  {
    hide KeyedChild, KeyedArgs;
  }

  class Unparser {
    const objects: Objects
    var source: seq<Token>
    var precedences: Precedences

    constructor (objects: Objects)
      ensures this.objects == objects && source == [] && precedences == map[]
    {
      this.objects, source, precedences := objects, [], map[];
    }

    function GetPrecedence(node: Path): int
      reads this
    {
      if objects(node) in precedences then precedences[objects(node)] else TEST
    }

    method Write(ts: seq<Token>)
      modifies this`source
      ensures source == old(source) + ts
    {
      source := source + ts;
    }

    method SetPrecedence(p: int, node: Path)
      modifies this`precedences
      ensures precedences == old(precedences)[objects(node) := p]
    {
      precedences := precedences[objects(node) := p];
    }

    /** Appends the tokens of `e` at the precedence on record for its object. */
    method Traverse(e: Expr, node: Path)
      modifies this`source, this`precedences
      ensures source == old(source) + Keyed(e, node, objects, old(precedences)).ts
      ensures precedences == Keyed(e, node, objects, old(precedences)).m
      decreases e, 2
    {
      hide KeyedBody;
      var parens := GetPrecedence(node) > Level(e);
      if parens {
        Write([LPar]);
      }
      Visit(e, node);
      if parens {
        Write([RPar]);
      }
    }

    /** Asks precedence `p` of child `i` and visits it. */
    method TraverseAt(e: Expr, p: int, node: Path, i: nat)
      modifies this`source, this`precedences
      ensures source == old(source) + KeyedChild(e, p, node, i, objects, old(precedences)).ts
      ensures precedences == KeyedChild(e, p, node, i, objects, old(precedences)).m
      decreases e, 3
    {
      hide Keyed;
      SetPrecedence(p, node + [i]);
      Traverse(e, node + [i]);
    }

    method Visit(e: Expr, node: Path)
      modifies this`source, this`precedences
      ensures source == old(source) + KeyedBody(e, node, objects, old(precedences)).ts
      ensures precedences == KeyedBody(e, node, objects, old(precedences)).m
      decreases e, 1
    {
      hide Keyed, KeyedChild, KeyedValues, KeyedComparisons, KeyedArgs, KeyedPrinter.AskAll;
      match e {
        case Name(id) =>
          Write([Ident(id)]);
        case Constant(text) =>
          Write([Literal(text)]);
        case Unary(op, x) =>
          Write([UnaryToken(op)]);
          TraverseAt(x, UnaryLevel(op), node, 0);
        case Binary(l, op, r) =>
          VisitBinOp(e, node);
        case Bool(op, vs) =>
          VisitBoolOp(e, node);
        case Compare(f, ops, cs) =>
          VisitCompare(e, node);
        case IfExp(t, b, o) =>
          VisitIfExp(e, node);
        case Await(x) =>
          Write([KwAwait]);
          TraverseAt(x, ATOM, node, 0);
        case Attribute(x, attr) =>
          TraverseAt(x, ATOM, node, 0);
          Write([Dot, Ident(attr)]);
        case Call(f, xs) =>
          VisitCall(e, node);
        case Subscript(x, i) =>
          VisitSubscript(e, node);
      }
    }

    method VisitBinOp(e: Expr, node: Path)
      requires e.Binary?
      modifies this`source, this`precedences
      ensures source == old(source) + KeyedBody(e, node, objects, old(precedences)).ts
      ensures precedences == KeyedBody(e, node, objects, old(precedences)).m
      decreases e, 0
    {
      hide KeyedChild;
      var level := BinaryLevel(e.op);
      var leftPrecedence, rightPrecedence := level, Next(level);
      if e.op == Pow {
        leftPrecedence, rightPrecedence := Next(level), level;
      }
      TraverseAt(e.left, leftPrecedence, node, 0);
      Write([Operator(e.op)]);
      TraverseAt(e.right, rightPrecedence, node, 1);
    }

    /** Each operand of `and` or `or` is asked for one level more than the one before. */
    method VisitBoolOp(e: Expr, node: Path)
      requires e.Bool?
      modifies this`source, this`precedences
      ensures source == old(source) + KeyedBody(e, node, objects, old(precedences)).ts
      ensures precedences == KeyedBody(e, node, objects, old(precedences)).m
      decreases e, 0
    {
      hide KeyedChild;
      var precedence := BoolLevel(e.bop);
      var i := 0;
      while i < |e.values|
        invariant 0 <= i <= |e.values|
        invariant var rest := KeyedValues(e.bop, e.values, i, precedence, node, objects, precedences);
          && source + rest.ts == old(source) + KeyedBody(e, node, objects, old(precedences)).ts
          && rest.m == KeyedBody(e, node, objects, old(precedences)).m
      {
        hide KeyedValues, KeyedBody;
        ValueWritten(source, e.bop, e.values, i, precedence, node, objects, precedences);
        if i != 0 {
          Write([BoolToken(e.bop)]);
        }
        precedence := Next(precedence);
        TraverseAt(e.values[i], precedence, node, i);
        i := i + 1;
      }
    }

    /** Asks precedence `p` of the first `n` children. */
    method SetPrecedences(p: int, node: Path, n: nat)
      modifies this`precedences
      ensures precedences == AskAll(p, node, n, objects, old(precedences))
    {
      var i := 0;
      while i < n
        invariant 0 <= i <= n
        invariant precedences == AskAll(p, node, i, objects, old(precedences))
      {
        SetPrecedence(p, node + [i]);
        i := i + 1;
      }
    }

    /** All operands are asked for the same level first, and then visited. */
    method VisitCompare(e: Expr, node: Path)
      requires e.Compare?
      modifies this`source, this`precedences
      ensures source == old(source) + KeyedBody(e, node, objects, old(precedences)).ts
      ensures precedences == KeyedBody(e, node, objects, old(precedences)).m
      decreases e, 0
    {
      hide Keyed, KeyedBody, AskAll;
      SetPrecedences(Next(CMP), node, 1 + |e.comparators|);
      Traverse(e.first, node + [0]);
      ghost var start, m := source, precedences;
      CompareWritten(old(source), e, node, objects, old(precedences));
      var i := 0;
      while i < |e.ops| && i < |e.comparators|
        invariant 0 <= i <= |e.ops| && i <= |e.comparators|
        invariant var rest := KeyedComparisons(e.ops, e.comparators, i, node, objects, precedences);
          && source + rest.ts == start + KeyedComparisons(e.ops, e.comparators, 0, node, objects, m).ts
          && rest.m == KeyedComparisons(e.ops, e.comparators, 0, node, objects, m).m
      {
        hide KeyedComparisons, CompareTokens;
        ComparisonWritten(source, e.ops, e.comparators, i, node, objects, precedences);
        Write(CompareTokens(e.ops[i]));
        Traverse(e.comparators[i], node + [1 + i]);
        i := i + 1;
      }
    }

    method VisitIfExp(e: Expr, node: Path)
      requires e.IfExp?
      modifies this`source, this`precedences
      ensures source == old(source) + KeyedBody(e, node, objects, old(precedences)).ts
      ensures precedences == KeyedBody(e, node, objects, old(precedences)).m
      decreases e, 0
    {
      hide Keyed, KeyedChild, AskAll;
      SetPrecedences(Next(TEST), node, 2);
      Traverse(e.body, node + [0]);
      Write([KwIf]);
      Traverse(e.test, node + [1]);
      Write([KwElse]);
      TraverseAt(e.orelse, TEST, node, 2);
    }

    /** Nothing is asked of the arguments: commas and parentheses already keep them apart. */
    method VisitCall(e: Expr, node: Path)
      requires e.Call?
      modifies this`source, this`precedences
      ensures source == old(source) + KeyedBody(e, node, objects, old(precedences)).ts
      ensures precedences == KeyedBody(e, node, objects, old(precedences)).m
      decreases e, 0
    {
      hide Keyed, KeyedChild, KeyedBody, KeyedArgs;
      CallWritten(source, e, node, objects, precedences);
      TraverseAt(e.func, ATOM, node, 0);
      Write([LPar]);
      TraverseArgs(e, node);
      Write([RPar]);
    }

    method TraverseArgs(e: Expr, node: Path)
      requires e.Call?
      modifies this`source, this`precedences
      ensures source == old(source) + KeyedArgs(e.args, 0, node, objects, old(precedences)).ts
      ensures precedences == KeyedArgs(e.args, 0, node, objects, old(precedences)).m
      decreases e, 0, 0
    {
      hide Keyed;
      var i := 0;
      while i < |e.args|
        invariant 0 <= i <= |e.args|
        invariant var rest := KeyedArgs(e.args, i, node, objects, precedences);
          && source + rest.ts == old(source) + KeyedArgs(e.args, 0, node, objects, old(precedences)).ts
          && rest.m == KeyedArgs(e.args, 0, node, objects, old(precedences)).m
      {
        hide KeyedArgs;
        ArgWritten(source, e.args, i, node, objects, precedences);
        if i != 0 {
          Write([Comma]);
        }
        Traverse(e.args[i], node + [1 + i]);
        i := i + 1;
      }
    }

    method VisitSubscript(e: Expr, node: Path)
      requires e.Subscript?
      modifies this`source, this`precedences
      ensures source == old(source) + KeyedBody(e, node, objects, old(precedences)).ts
      ensures precedences == KeyedBody(e, node, objects, old(precedences)).m
      decreases e, 0
    {
      hide Keyed, KeyedChild;
      TraverseAt(e.container, ATOM, node, 0);
      Write([LBrack]);
      Traverse(e.index, node + [1]);
      Write([RBrack]);
    }
  }

  /**
    Unparses a whole tree with a new printer. When the objects at late positions are shared alike, and so when nothing
    is shared, the text parses back to exactly the tree if and only if the tree is one that parsing can produce.
    */
  method Unparse(e: Expr, objects: Objects) returns (ts: seq<Token>)
    ensures ts == Keyed(e, [], objects, map[]).ts
    ensures NothingShared(e, objects) || (AreObjects(e, objects) && SharedAlike(e, objects)) ==>
              ts == Print(e, TEST) && (ParseAll(ts) == Parsed(e, []) <==> WellFormed(e))
  {
    hide Keyed, Print, ParseAll, WellFormed, NothingShared, AreObjects, SharedAlike;
    var printer := new Unparser(objects);
    printer.Traverse(e, []);
    ts := printer.source;
    assert [] + Keyed(e, [], objects, map[]).ts == Keyed(e, [], objects, map[]).ts;
    if NothingShared(e, objects) {
      NothingSharedIsAlike(e, objects);
    }
    if AreObjects(e, objects) && SharedAlike(e, objects) {
      SharedAlikeIsRight(e, objects);
    }
  }
}
