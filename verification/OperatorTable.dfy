/** Parser and printer group operators as the table of section 6.17 of The Python Language Reference says. */
module OperatorTable {
  import opened Expressions
  import opened Parser
  import opened Precedence
  import opened Printer
  import opened PrintParse

  /** The rows of the table for binary operators, from least to most binding. */
  const ROWS: seq<seq<BinOp>> :=
    [[BitOr], [BitXor], [BitAnd], [LShift, RShift], [Add, Sub], [Mult, MatMult, Div, FloorDiv, Mod], [Pow]]

  function RowFrom(op: BinOp, i: nat): nat
    requires i <= |ROWS|
    decreases |ROWS| - i
  {
    if i == |ROWS| || op in ROWS[i] then i else RowFrom(op, i + 1)
  }

  function Row(op: BinOp): nat
  {
    RowFrom(op, 0)
  }

  /** The text is read as the tree, and the tree is written as the text. */
  predicate IsTextOf(ts: seq<Token>, e: Expr)
  {
    ParseAll(ts) == Parsed(e, []) && Print(e, TEST) == ts
  }

  lemma PrintedIsTextOf(e: Expr)
    requires WellFormed(e)
    ensures IsTextOf(Print(e, TEST), e)
  {
    hide ParseAll, Print, WellFormed;
    PrintParsesBack(e, TEST);
  }

  lemma RowOfLevel(op: BinOp)
    ensures Row(op) == if op == Pow then 6 else BinaryLevel(op) - EXPR
  {
    var level := if op == Pow then 6 else BinaryLevel(op) - EXPR;
    assert op in ROWS[level] && forall i | 0 <= i < level :: op !in ROWS[i];
    RowIs(op, 0, level);
  }

  lemma {:induction false} RowIs(op: BinOp, i: nat, row: nat)
    requires i <= row < |ROWS| && op in ROWS[row] && forall j | i <= j < row :: op !in ROWS[j]
    ensures RowFrom(op, i) == row
    decreases row - i
  {
    hide ROWS;
    if i < row {
      RowIs(op, i + 1, row);
    }
  }

  /** Whether the second of two operators takes the operand between them: `**` groups to the right, the others left. */
  predicate GroupsRight(f: BinOp, g: BinOp)
  {
    Row(f) < Row(g) || (f == Pow && g == Pow)
  }

  /**
    Of two operators the more binding one groups first, equal rows to the left but for `**`, with no parentheses
    written; the other grouping is written with parentheses around its inner operator only.
    */
  lemma TwoOperators(x: string, f: BinOp, y: string, g: BinOp, z: string)
    ensures var left, right := Binary(Name(x), f, Name(y)), Binary(Name(y), g, Name(z));
      if GroupsRight(f, g) then
        && IsTextOf([Ident(x), Operator(f), Ident(y), Operator(g), Ident(z)], Binary(Name(x), f, right))
        && IsTextOf([LPar, Ident(x), Operator(f), Ident(y), RPar, Operator(g), Ident(z)], Binary(left, g, Name(z)))
      else
        && IsTextOf([Ident(x), Operator(f), Ident(y), Operator(g), Ident(z)], Binary(left, g, Name(z)))
        && IsTextOf([Ident(x), Operator(f), LPar, Ident(y), Operator(g), Ident(z), RPar], Binary(Name(x), f, right))
  {
    hide IsTextOf, Row;
    RowOfLevel(f);
    RowOfLevel(g);
    RightGroup(x, f, y, g, z);
    LeftGroup(x, f, y, g, z);
    var first, last := [Ident(x), Operator(f)], [Operator(g), Ident(z)];
    var inner, inner' := [Ident(x), Operator(f), Ident(y)], [Ident(y), Operator(g), Ident(z)];
    assert first + inner' == inner + last == [Ident(x), Operator(f), Ident(y), Operator(g), Ident(z)];
    assert first + ([LPar] + inner' + [RPar]) == [Ident(x), Operator(f), LPar, Ident(y), Operator(g), Ident(z), RPar];
    assert ([LPar] + inner + [RPar]) + last == [LPar, Ident(x), Operator(f), Ident(y), RPar, Operator(g), Ident(z)];
  }

  /* ----- what small trees are printed as ----- */

  lemma Bare(e: Expr, p: int)
    requires p <= Level(e)
    ensures Print(e, p) == Body(e)
  {
  }

  lemma NamePrinted(x: string, p: int)
    requires p <= ATOM
    ensures Print(Name(x), p) == [Ident(x)]
  {
  }

  lemma BinaryPrinted(l: Expr, f: BinOp, r: Expr, p: int)
    requires p <= BinaryLevel(f)
    ensures Print(Binary(l, f, r), p) ==
            Print(l, if f == Pow then AWAIT else BinaryLevel(f)) + [Operator(f)]
            + Print(r, if f == Pow then POWER else BinaryLevel(f) + 1)
  {
    Bare(Binary(l, f, r), p);
  }

  lemma BareBinary(x: string, f: BinOp, y: string, p: int)
    requires p <= BinaryLevel(f)
    ensures Print(Binary(Name(x), f, Name(y)), p) == [Ident(x), Operator(f), Ident(y)]
  {
    hide Print, Body;
    BinaryPrinted(Name(x), f, Name(y), p);
    NamePrinted(x, if f == Pow then AWAIT else BinaryLevel(f));
    NamePrinted(y, if f == Pow then POWER else BinaryLevel(f) + 1);
  }

  lemma SignPrinted(op: UnaryOp, e: Expr, p: int)
    requires p <= UnaryLevel(op)
    ensures Print(Unary(op, e), p) == [UnaryToken(op)] + Print(e, UnaryLevel(op))
  {
    Bare(Unary(op, e), p);
  }

  lemma AwaitPrinted(x: string, p: int)
    requires p <= AWAIT
    ensures Print(Await(Name(x)), p) == [KwAwait, Ident(x)]
  {
    hide Print;
    Bare(Await(Name(x)), p);
    NamePrinted(x, ATOM);
  }

  lemma ComparePrinted(l: Expr, c: CmpOp, r: string, p: int)
    requires p <= CMP && c in {Eq, NotEq, Lt, LtE, Gt, GtE}
    ensures Print(Compare(l, [c], [Name(r)]), p) == Print(l, EXPR) + [Comparator(c), Ident(r)]
  {
    hide Print;
    Bare(Compare(l, [c], [Name(r)]), p);
    NamePrinted(r, EXPR);
    assert PrintComparisons([], []) == [];
    assert PrintComparisons([c], [Name(r)]) == [Comparator(c)] + [Ident(r)] + PrintComparisons([], []);
  }

  lemma PairPrinted(op: BoolOp, l: Expr, r: string, p: int)
    requires p <= BoolLevel(op)
    ensures Print(Bool(op, [l, Name(r)]), p) == Print(l, BoolLevel(op) + 1) + [BoolToken(op), Ident(r)]
  {
    hide Print;
    var vs, q := [l, Name(r)], BoolLevel(op) + 1;
    Bare(Bool(op, vs), p);
    NamePrinted(r, q + 1);
    assert vs[1..] == [Name(r)] && [Name(r)][1..] == [];
    assert PrintValues(op, [], q + 1, false) == [];
    assert PrintValues(op, [Name(r)], q, false) == [BoolToken(op)] + [Ident(r)] + PrintValues(op, [], q + 1, false);
    assert Body(Bool(op, vs)) == Print(l, q) + PrintValues(op, [Name(r)], q, false);
  }

  lemma WellFormedBinary(l: Expr, f: BinOp, r: Expr)
    requires (l.Name? || WellFormed(l)) && (r.Name? || WellFormed(r))
    ensures WellFormed(Binary(l, f, r))
  {
  }

  lemma WellFormedPrefix(op: UnaryOp, e: Expr)
    requires e.Name? || WellFormed(e)
    ensures WellFormed(Unary(op, e)) && WellFormed(Await(e))
  {
  }

  lemma WellFormedCompare(l: Expr, c: CmpOp, r: string)
    requires l.Name? || WellFormed(l)
    ensures WellFormed(Compare(l, [c], [Name(r)]))
  {
    assert WellFormed(Name(r));
  }

  lemma WellFormedPair(op: BoolOp, l: Expr, r: string)
    requires l.Name? || WellFormed(l)
    ensures WellFormed(Bool(op, [l, Name(r)]))
  {
    assert WellFormed(Name(r));
  }

  /* ----- two operators ----- */

  lemma RightGroup(x: string, f: BinOp, y: string, g: BinOp, z: string)
    ensures var bare := (if f == Pow then POWER else BinaryLevel(f) + 1) <= BinaryLevel(g);
      var inner := [Ident(y), Operator(g), Ident(z)];
      IsTextOf([Ident(x), Operator(f)] + (if bare then inner else [LPar] + inner + [RPar]),
               Binary(Name(x), f, Binary(Name(y), g, Name(z))))
  {
    hide IsTextOf, Print, Body, WellFormed;
    var right, p := Binary(Name(y), g, Name(z)), if f == Pow then POWER else BinaryLevel(f) + 1;
    InnerPrinted(y, g, z, p);
    NamePrinted(x, if f == Pow then AWAIT else BinaryLevel(f));
    BinaryPrinted(Name(x), f, right, TEST);
    assert Print(Binary(Name(x), f, right), TEST) == [Ident(x), Operator(f)] + Print(right, p);
    WellFormedBinary(Name(y), g, Name(z));
    WellFormedBinary(Name(x), f, right);
    PrintedIsTextOf(Binary(Name(x), f, right));
  }

  lemma LeftGroup(x: string, f: BinOp, y: string, g: BinOp, z: string)
    ensures var bare := (if g == Pow then AWAIT else BinaryLevel(g)) <= BinaryLevel(f);
      var inner := [Ident(x), Operator(f), Ident(y)];
      IsTextOf((if bare then inner else [LPar] + inner + [RPar]) + [Operator(g), Ident(z)],
               Binary(Binary(Name(x), f, Name(y)), g, Name(z)))
  {
    hide IsTextOf, Print, Body, WellFormed;
    var left, p := Binary(Name(x), f, Name(y)), if g == Pow then AWAIT else BinaryLevel(g);
    InnerPrinted(x, f, y, p);
    NamePrinted(z, if g == Pow then POWER else BinaryLevel(g) + 1);
    BinaryPrinted(left, g, Name(z), TEST);
    assert Print(Binary(left, g, Name(z)), TEST) == Print(left, p) + [Operator(g), Ident(z)];
    WellFormedBinary(Name(x), f, Name(y));
    WellFormedBinary(left, g, Name(z));
    PrintedIsTextOf(Binary(left, g, Name(z)));
  }

  lemma InnerPrinted(x: string, f: BinOp, y: string, p: int)
    ensures var inner := [Ident(x), Operator(f), Ident(y)];
      Print(Binary(Name(x), f, Name(y)), p) == if p <= BinaryLevel(f) then inner else [LPar] + inner + [RPar]
  {
    hide Body;
    BareBinary(x, f, y, BinaryLevel(f));
    Bare(Binary(Name(x), f, Name(y)), BinaryLevel(f));
  }

  /* ----- the rows above and below the binary operators ----- */

  /** A sign or `~` is less binding than `**`, and more than any other binary operator. */
  lemma SignAndOperator(sign: Token, x: string, f: BinOp, y: string)
    requires sign in {Operator(Add), Operator(Sub), Tilde}
    ensures var op := if sign == Tilde then Invert else if sign == Operator(Add) then UAdd else USub;
      IsTextOf([sign, Ident(x), Operator(f), Ident(y)],
               if f == Pow then Unary(op, Binary(Name(x), f, Name(y))) else Binary(Unary(op, Name(x)), f, Name(y)))
  {
    hide IsTextOf, Print, Body, WellFormed;
    var op := if sign == Tilde then Invert else if sign == Operator(Add) then UAdd else USub;
    if f == Pow {
      var e := Unary(op, Binary(Name(x), f, Name(y)));
      BareBinary(x, f, y, FACTOR);
      SignPrinted(op, e.operand, TEST);
      assert Print(e, TEST) == [sign, Ident(x), Operator(f), Ident(y)];
      WellFormedBinary(Name(x), f, Name(y));
      WellFormedPrefix(op, e.operand);
      PrintedIsTextOf(e);
    } else {
      var e := Binary(Unary(op, Name(x)), f, Name(y));
      NamePrinted(x, FACTOR);
      NamePrinted(y, BinaryLevel(f) + 1);
      SignPrinted(op, Name(x), BinaryLevel(f));
      BinaryPrinted(e.left, f, Name(y), TEST);
      assert Print(e, TEST) == [sign, Ident(x), Operator(f), Ident(y)];
      WellFormedPrefix(op, Name(x));
      WellFormedBinary(e.left, f, Name(y));
      PrintedIsTextOf(e);
    }
  }

  /** `await` is more binding than every binary operator. */
  lemma AwaitAndOperator(x: string, f: BinOp, y: string)
    ensures IsTextOf([KwAwait, Ident(x), Operator(f), Ident(y)], Binary(Await(Name(x)), f, Name(y)))
  {
    hide IsTextOf, Print, Body, WellFormed;
    var e := Binary(Await(Name(x)), f, Name(y));
    AwaitPrinted(x, if f == Pow then AWAIT else BinaryLevel(f));
    NamePrinted(y, if f == Pow then POWER else BinaryLevel(f) + 1);
    BinaryPrinted(e.left, f, Name(y), TEST);
    assert Print(e, TEST) == [KwAwait, Ident(x), Operator(f), Ident(y)];
    WellFormedPrefix(Not, Name(x));
    WellFormedBinary(e.left, f, Name(y));
    PrintedIsTextOf(e);
  }

  /** Comparisons are less binding than every binary operator, and `not` than comparisons. */
  lemma AroundComparison(x: string, f: BinOp, y: string, c: CmpOp, z: string)
    requires c in {Eq, NotEq, Lt, LtE, Gt, GtE}
    ensures IsTextOf([Ident(x), Operator(f), Ident(y), Comparator(c), Ident(z)],
            Compare(Binary(Name(x), f, Name(y)), [c], [Name(z)]))
    ensures IsTextOf([KwNot, Ident(x), Comparator(c), Ident(z)],
            Unary(Not, Compare(Name(x), [c], [Name(z)])))
  {
    hide IsTextOf, Print, Body, WellFormed;
    var e := Compare(Binary(Name(x), f, Name(y)), [c], [Name(z)]);
    BareBinary(x, f, y, EXPR);
    ComparePrinted(e.first, c, z, TEST);
    assert Print(e, TEST) == [Ident(x), Operator(f), Ident(y), Comparator(c), Ident(z)];
    WellFormedBinary(Name(x), f, Name(y));
    WellFormedCompare(e.first, c, z);
    PrintedIsTextOf(e);
    var n := Unary(Not, Compare(Name(x), [c], [Name(z)]));
    NamePrinted(x, EXPR);
    ComparePrinted(Name(x), c, z, NOT);
    SignPrinted(Not, n.operand, TEST);
    assert Print(n, TEST) == [KwNot, Ident(x), Comparator(c), Ident(z)];
    WellFormedCompare(Name(x), c, z);
    WellFormedPrefix(Not, n.operand);
    PrintedIsTextOf(n);
  }

  /** `and` is less binding than `not`, `or` than `and`, and a conditional than `or`. */
  lemma Connectives(x: string, y: string, z: string)
    ensures IsTextOf([KwNot, Ident(x), KwAnd, Ident(y)], Bool(And, [Unary(Not, Name(x)), Name(y)]))
    ensures IsTextOf([Ident(x), KwAnd, Ident(y), KwOr, Ident(z)],
            Bool(Or, [Bool(And, [Name(x), Name(y)]), Name(z)]))
    ensures IsTextOf([Ident(x), KwOr, Ident(y), KwIf, Ident(z), KwElse, Ident(x)],
            IfExp(Name(z), Bool(Or, [Name(x), Name(y)]), Name(x)))
  {
    NotAnd(x, y);
    AndOr(x, y, z);
    OrIf(x, y, z);
  }

  lemma NotAnd(x: string, y: string)
    ensures IsTextOf([KwNot, Ident(x), KwAnd, Ident(y)], Bool(And, [Unary(Not, Name(x)), Name(y)]))
  {
    hide IsTextOf, Print, Body, WellFormed;
    var e := Bool(And, [Unary(Not, Name(x)), Name(y)]);
    NamePrinted(x, NOT);
    SignPrinted(Not, Name(x), NOT);
    PairPrinted(And, Unary(Not, Name(x)), y, TEST);
    assert Print(e, TEST) == [KwNot, Ident(x), KwAnd, Ident(y)];
    WellFormedPrefix(Not, Name(x));
    WellFormedPair(And, Unary(Not, Name(x)), y);
    PrintedIsTextOf(e);
  }

  lemma AndOr(x: string, y: string, z: string)
    ensures IsTextOf([Ident(x), KwAnd, Ident(y), KwOr, Ident(z)],
            Bool(Or, [Bool(And, [Name(x), Name(y)]), Name(z)]))
  {
    hide IsTextOf, Print, Body, WellFormed;
    var inner := Bool(And, [Name(x), Name(y)]);
    NamePrinted(x, NOT);
    PairPrinted(And, Name(x), y, AND);
    PairPrinted(Or, inner, z, TEST);
    assert Print(Bool(Or, [inner, Name(z)]), TEST) == [Ident(x), KwAnd, Ident(y), KwOr, Ident(z)];
    WellFormedPair(And, Name(x), y);
    WellFormedPair(Or, inner, z);
    PrintedIsTextOf(Bool(Or, [inner, Name(z)]));
  }

  lemma OrIf(x: string, y: string, z: string)
    ensures IsTextOf([Ident(x), KwOr, Ident(y), KwIf, Ident(z), KwElse, Ident(x)],
            IfExp(Name(z), Bool(Or, [Name(x), Name(y)]), Name(x)))
  {
    hide IsTextOf, Print;
    var inner := Bool(Or, [Name(x), Name(y)]);
    var e := IfExp(Name(z), inner, Name(x));
    NamePrinted(x, AND);
    NamePrinted(z, OR);
    NamePrinted(x, TEST);
    PairPrinted(Or, Name(x), y, OR);
    Bare(e, TEST);
    assert Body(e) == Print(inner, OR) + [KwIf] + Print(Name(z), OR) + [KwElse] + Print(Name(x), TEST);
    assert Print(e, TEST) == [Ident(x), KwOr, Ident(y), KwIf, Ident(z), KwElse, Ident(x)];
    WellFormedPair(Or, Name(x), y);
    assert WellFormed(e);
    PrintedIsTextOf(e);
  }

  /* ----- comparisons by words, and primaries ----- */

  lemma WordComparisons(x: string, y: string)
    ensures IsTextOf([Ident(x), KwIs, Ident(y)], Compare(Name(x), [Is], [Name(y)]))
    ensures IsTextOf([Ident(x), KwIs, KwNot, Ident(y)], Compare(Name(x), [IsNot], [Name(y)]))
    ensures IsTextOf([Ident(x), KwIn, Ident(y)], Compare(Name(x), [In], [Name(y)]))
    ensures IsTextOf([Ident(x), KwNot, KwIn, Ident(y)], Compare(Name(x), [NotIn], [Name(y)]))
  {
    hide IsTextOf;
    WordComparison(x, Is, y);
    WordComparison(x, IsNot, y);
    WordComparison(x, In, y);
    WordComparison(x, NotIn, y);
    assert [Ident(x)] + [KwIs] + [Ident(y)] == [Ident(x), KwIs, Ident(y)];
    assert [Ident(x)] + [KwIs, KwNot] + [Ident(y)] == [Ident(x), KwIs, KwNot, Ident(y)];
    assert [Ident(x)] + [KwIn] + [Ident(y)] == [Ident(x), KwIn, Ident(y)];
    assert [Ident(x)] + [KwNot, KwIn] + [Ident(y)] == [Ident(x), KwNot, KwIn, Ident(y)];
  }

  lemma WordComparison(x: string, c: CmpOp, y: string)
    ensures IsTextOf([Ident(x)] + CompareTokens(c) + [Ident(y)], Compare(Name(x), [c], [Name(y)]))
  {
    hide IsTextOf, Print, CompareTokens, WellFormed;
    var e := Compare(Name(x), [c], [Name(y)]);
    Bare(e, TEST);
    NamePrinted(x, EXPR);
    NamePrinted(y, EXPR);
    assert PrintComparisons([], []) == [];
    assert PrintComparisons([c], [Name(y)]) == CompareTokens(c) + [Ident(y)] + PrintComparisons([], []);
    assert Print(e, TEST) == [Ident(x)] + CompareTokens(c) + [Ident(y)];
    WellFormedCompare(Name(x), c, y);
    PrintedIsTextOf(e);
  }

  /** Attributes, calls and subscripts follow their primary and are more binding than `await`. */
  lemma Primaries(x: string, a: string, y: string)
    ensures IsTextOf([KwAwait, Ident(x), Dot, Ident(a)], Await(Attribute(Name(x), a)))
    ensures IsTextOf([Ident(x), LPar, Ident(a), Comma, Ident(y), RPar], Call(Name(x), [Name(a), Name(y)]))
    ensures IsTextOf([Ident(x), LBrack, Ident(y), RBrack], Subscript(Name(x), Name(y)))
  {
    AwaitedAttribute(x, a);
    CallOfTwo(x, a, y);
    SubscriptOfName(x, y);
  }

  lemma AwaitedAttribute(x: string, a: string)
    ensures IsTextOf([KwAwait, Ident(x), Dot, Ident(a)], Await(Attribute(Name(x), a)))
  {
    hide IsTextOf, Print;
    var inner := Attribute(Name(x), a);
    NamePrinted(x, ATOM);
    Bare(inner, ATOM);
    Bare(Await(inner), TEST);
    assert Body(inner) == [Ident(x)] + [Dot, Ident(a)];
    assert Print(Await(inner), TEST) == [KwAwait, Ident(x), Dot, Ident(a)];
    assert WellFormed(inner) && WellFormed(Await(inner));
    PrintedIsTextOf(Await(inner));
  }

  lemma CallOfTwo(x: string, a: string, y: string)
    ensures IsTextOf([Ident(x), LPar, Ident(a), Comma, Ident(y), RPar], Call(Name(x), [Name(a), Name(y)]))
  {
    hide IsTextOf, Print;
    var args := [Name(a), Name(y)];
    var e := Call(Name(x), args);
    NamePrinted(x, ATOM);
    NamePrinted(a, TEST);
    NamePrinted(y, TEST);
    Bare(e, TEST);
    assert args[1..] == [Name(y)] && [Name(y)][1..] == [];
    assert PrintArgs([], false) == [];
    assert PrintArgs([Name(y)], false) == [Comma] + [Ident(y)] + PrintArgs([], false);
    assert PrintArgs(args, true) == [Ident(a)] + PrintArgs([Name(y)], false);
    assert Print(e, TEST) == [Ident(x), LPar, Ident(a), Comma, Ident(y), RPar];
    assert WellFormed(Name(a)) && WellFormed(Name(y)) && WellFormed(e);
    PrintedIsTextOf(e);
  }

  lemma SubscriptOfName(x: string, y: string)
    ensures IsTextOf([Ident(x), LBrack, Ident(y), RBrack], Subscript(Name(x), Name(y)))
  {
    hide IsTextOf, Print;
    var e := Subscript(Name(x), Name(y));
    NamePrinted(x, ATOM);
    NamePrinted(y, TEST);
    Bare(e, TEST);
    assert Print(e, TEST) == [Ident(x), LBrack, Ident(y), RBrack];
    assert WellFormed(e);
    PrintedIsTextOf(e);
  }

  /* ----- operands of the levels between ----- */

  /** Operands of `and` are asked for ever tighter levels: a second `not` is in parentheses, and a third comparison. */
  lemma RisingOperands(x: string, y: string, z: string)
    ensures IsTextOf([Ident(x), KwAnd, LPar, KwNot, Ident(y), RPar], Bool(And, [Name(x), Unary(Not, Name(y))]))
    ensures var less := Compare(Name(y), [Lt], [Name(z)]);
      IsTextOf([Ident(x), KwAnd, Ident(y), Comparator(Lt), Ident(z)]
               + [KwAnd, LPar, Ident(y), Comparator(Lt), Ident(z), RPar], Bool(And, [Name(x), less, less]))
  {
    NotSecond(x, y);
    LessThird(x, y, z);
  }

  lemma NotSecond(x: string, y: string)
    ensures IsTextOf([Ident(x), KwAnd, LPar, KwNot, Ident(y), RPar], Bool(And, [Name(x), Unary(Not, Name(y))]))
  {
    hide IsTextOf, Print, PrintValues;
    var no := Unary(Not, Name(y));
    var e := Bool(And, [Name(x), no]);
    NamePrinted(y, NOT);
    NamePrinted(x, NOT);
    InParentheses(no, CMP);
    Bare(e, TEST);
    TwoValues(And, Name(x), no);
    assert Print(e, TEST) == [Ident(x), KwAnd, LPar, KwNot, Ident(y), RPar];
    assert WellFormed(no) && WellFormed(Name(x)) && WellFormed(e);
    PrintedIsTextOf(e);
  }

  lemma InParentheses(e: Expr, p: int)
    requires Level(e) < p
    ensures Print(e, p) == [LPar] + Body(e) + [RPar]
  {
  }

  lemma TwoValues(op: BoolOp, l: Expr, r: Expr)
    ensures PrintValues(op, [l, r], BoolLevel(op), true) ==
            Print(l, BoolLevel(op) + 1) + [BoolToken(op)] + Print(r, BoolLevel(op) + 2)
  {
    hide Print;
    var p := BoolLevel(op);
    assert [l, r][1..] == [r] && [r][1..] == [];
    assert PrintValues(op, [r], p + 1, false) == [BoolToken(op)] + Print(r, p + 2) + PrintValues(op, [], p + 2, false);
    assert PrintValues(op, [], p + 2, false) == [];
  }

  lemma ThreeValues(op: BoolOp, l: Expr, m: Expr, r: Expr)
    ensures var p := BoolLevel(op);
      PrintValues(op, [l, m, r], p, true) ==
      Print(l, p + 1) + [BoolToken(op)] + Print(m, p + 2) + [BoolToken(op)] + Print(r, p + 3)
  {
    hide Print;
    var p := BoolLevel(op);
    assert [l, m, r][1..] == [m, r] && [m, r][1..] == [r] && [r][1..] == [];
    assert PrintValues(op, [], p + 3, false) == [];
    assert PrintValues(op, [r], p + 2, false) == [BoolToken(op)] + Print(r, p + 3) + PrintValues(op, [], p + 3, false);
    assert PrintValues(op, [m, r], p + 1, false) ==
           [BoolToken(op)] + Print(m, p + 2) + PrintValues(op, [r], p + 2, false);
  }

  lemma LessThird(x: string, y: string, z: string)
    ensures var less := Compare(Name(y), [Lt], [Name(z)]);
      IsTextOf([Ident(x), KwAnd, Ident(y), Comparator(Lt), Ident(z)]
               + [KwAnd, LPar, Ident(y), Comparator(Lt), Ident(z), RPar], Bool(And, [Name(x), less, less]))
  {
    hide IsTextOf, Print, PrintValues, Body, WellFormed;
    var less := Compare(Name(y), [Lt], [Name(z)]);
    var e := Bool(And, [Name(x), less, less]);
    var bare := [Ident(y), Comparator(Lt), Ident(z)];
    NamePrinted(x, NOT);
    NamePrinted(y, EXPR);
    ComparePrinted(Name(y), Lt, z, CMP);
    Bare(less, CMP);
    InParentheses(less, EXPR);
    Bare(e, TEST);
    ThreeValues(And, Name(x), less, less);
    BoolBody(And, e.values);
    assert Print(e, TEST) == [Ident(x)] + [KwAnd] + bare + [KwAnd] + ([LPar] + bare + [RPar]);
    assert Print(e, TEST) == [Ident(x), KwAnd, Ident(y), Comparator(Lt), Ident(z)]
                             + [KwAnd, LPar, Ident(y), Comparator(Lt), Ident(z), RPar];
    WellFormedCompare(Name(y), Lt, z);
    WellFormedValues(And, e.values, x, less);
    PrintedIsTextOf(e);
  }

  lemma BoolBody(op: BoolOp, vs: seq<Expr>)
    ensures Body(Bool(op, vs)) == PrintValues(op, vs, BoolLevel(op), true)
  {
  }

  lemma WellFormedValues(op: BoolOp, vs: seq<Expr>, x: string, e: Expr)
    requires 2 <= |vs| && WellFormed(e) && forall v :: v in vs ==> v == Name(x) || v == e
    ensures WellFormed(Bool(op, vs))
  {
    assert WellFormed(Name(x));
  }

  /** Arguments, subscripts and what follows `else` are asked for the loosest level, a compared value for `|`. */
  lemma LooseOperands(x: string, y: string, z: string, c: CmpOp, f: BinOp)
    requires c in {Eq, NotEq, Lt, LtE, Gt, GtE}
    ensures var choice := IfExp(Name(y), Name(x), Name(z));
      && IsTextOf([Ident(x), LPar, Ident(x), KwIf, Ident(y), KwElse, Ident(z), RPar], Call(Name(x), [choice]))
      && IsTextOf([Ident(x), LBrack, Ident(x), KwIf, Ident(y), KwElse, Ident(z), RBrack], Subscript(Name(x), choice))
      && IsTextOf([Ident(x), KwIf, Ident(y), KwElse] + [Ident(x), KwIf, Ident(y), KwElse, Ident(z)],
                  IfExp(Name(y), Name(x), choice))
    ensures IsTextOf([Ident(x), Comparator(c), Ident(y), Operator(f), Ident(z)],
                     Compare(Name(x), [c], [Binary(Name(y), f, Name(z))]))
  {
    LooseInside(x, y, z);
    RightOfComparison(x, c, y, f, z);
  }

  lemma ChoicePrinted(x: string, y: string, z: string)
    ensures var choice := IfExp(Name(y), Name(x), Name(z));
      Print(choice, TEST) == [Ident(x), KwIf, Ident(y), KwElse, Ident(z)] && WellFormed(choice)
  {
    hide Print;
    NamePrinted(x, OR);
    NamePrinted(y, OR);
    NamePrinted(z, TEST);
    Bare(IfExp(Name(y), Name(x), Name(z)), TEST);
  }

  lemma LooseInside(x: string, y: string, z: string)
    ensures var choice := IfExp(Name(y), Name(x), Name(z));
      && IsTextOf([Ident(x), LPar, Ident(x), KwIf, Ident(y), KwElse, Ident(z), RPar], Call(Name(x), [choice]))
      && IsTextOf([Ident(x), LBrack, Ident(x), KwIf, Ident(y), KwElse, Ident(z), RBrack], Subscript(Name(x), choice))
      && IsTextOf([Ident(x), KwIf, Ident(y), KwElse] + [Ident(x), KwIf, Ident(y), KwElse, Ident(z)],
                  IfExp(Name(y), Name(x), choice))
  {
    hide IsTextOf, Print;
    var choice := IfExp(Name(y), Name(x), Name(z));
    ChoicePrinted(x, y, z);
    LooseArgument(x, choice);
    LooseSubscript(x, choice);
    LooseElse(x, y, choice);
    var text := [Ident(x), KwIf, Ident(y), KwElse, Ident(z)];
    assert [Ident(x), LPar] + text + [RPar] == [Ident(x), LPar, Ident(x), KwIf, Ident(y), KwElse, Ident(z), RPar];
    assert [Ident(x), LBrack] + text + [RBrack] ==
           [Ident(x), LBrack, Ident(x), KwIf, Ident(y), KwElse, Ident(z), RBrack];
  }

  lemma LooseArgument(x: string, e: Expr)
    requires WellFormed(e)
    ensures IsTextOf([Ident(x), LPar] + Print(e, TEST) + [RPar], Call(Name(x), [e]))
  {
    hide IsTextOf, Print;
    var call := Call(Name(x), [e]);
    NamePrinted(x, ATOM);
    Bare(call, TEST);
    assert [e][1..] == [] && PrintArgs([], false) == [];
    assert PrintArgs([e], true) == Print(e, TEST);
    assert Body(call) == [Ident(x)] + [LPar] + Print(e, TEST) + [RPar];
    assert [Ident(x)] + [LPar] == [Ident(x), LPar];
    assert WellFormed(Name(x));
    PrintedIsTextOf(call);
  }

  lemma LooseSubscript(x: string, e: Expr)
    requires WellFormed(e)
    ensures IsTextOf([Ident(x), LBrack] + Print(e, TEST) + [RBrack], Subscript(Name(x), e))
  {
    hide IsTextOf, Print;
    var item := Subscript(Name(x), e);
    NamePrinted(x, ATOM);
    Bare(item, TEST);
    assert [Ident(x)] + [LBrack] == [Ident(x), LBrack];
    assert WellFormed(Name(x));
    PrintedIsTextOf(item);
  }

  lemma LooseElse(x: string, y: string, e: Expr)
    requires WellFormed(e)
    ensures IsTextOf([Ident(x), KwIf, Ident(y), KwElse] + Print(e, TEST), IfExp(Name(y), Name(x), e))
  {
    hide IsTextOf, Print;
    var chain := IfExp(Name(y), Name(x), e);
    NamePrinted(x, OR);
    NamePrinted(y, OR);
    Bare(chain, TEST);
    assert [Ident(x)] + [KwIf] + [Ident(y)] + [KwElse] == [Ident(x), KwIf, Ident(y), KwElse];
    assert WellFormed(Name(x)) && WellFormed(Name(y));
    PrintedIsTextOf(chain);
  }

  lemma RightOfComparison(x: string, c: CmpOp, y: string, f: BinOp, z: string)
    requires c in {Eq, NotEq, Lt, LtE, Gt, GtE}
    ensures IsTextOf([Ident(x), Comparator(c), Ident(y), Operator(f), Ident(z)],
                     Compare(Name(x), [c], [Binary(Name(y), f, Name(z))]))
  {
    hide IsTextOf, Print, WellFormed;
    var right := Binary(Name(y), f, Name(z));
    var e := Compare(Name(x), [c], [right]);
    NamePrinted(x, EXPR);
    BareBinary(y, f, z, EXPR);
    Bare(e, TEST);
    assert PrintComparisons([], []) == [];
    assert PrintComparisons([c], [right]) == [Comparator(c)] + Print(right, EXPR) + PrintComparisons([], []);
    assert Print(e, TEST) == [Ident(x), Comparator(c), Ident(y), Operator(f), Ident(z)];
    WellFormedBinary(Name(y), f, Name(z));
    WellFormedRight(x, c, right);
    PrintedIsTextOf(e);
  }

  lemma WellFormedRight(x: string, c: CmpOp, r: Expr)
    requires WellFormed(r)
    ensures WellFormed(Compare(Name(x), [c], [r]))
  {
    assert WellFormed(Name(x));
  }
}
