/** The tokens that the printer writes for an expression, as functions of the tree and the precedence asked for. */
module Printer {
  import opened Expressions
  import opened Precedence

  function Print(e: Expr, p: int): seq<Token>
    decreases e, 1
  {
    if p > Level(e) then [LPar] + Body(e) + [RPar] else Body(e)
  }

  function Body(e: Expr): seq<Token>
    decreases e, 0
  {
    match e
    case Name(id) => [Ident(id)]
    case Constant(text) => [Literal(text)]
    case Unary(op, x) => [UnaryToken(op)] + Print(x, UnaryLevel(op))
    case Binary(l, op, r) =>
      var p := BinaryLevel(op);
      Print(l, if op == Pow then Next(p) else p) + [Operator(op)] + Print(r, if op == Pow then p else Next(p))
    case Bool(op, vs) => PrintValues(op, vs, BoolLevel(op), true)
    case Compare(f, ops, cs) => Print(f, Next(CMP)) + PrintComparisons(ops, cs)
    case IfExp(t, b, o) => Print(b, Next(TEST)) + [KwIf] + Print(t, Next(TEST)) + [KwElse] + Print(o, TEST)
    case Await(x) => [KwAwait] + Print(x, ATOM)
    case Attribute(x, attr) => Print(x, ATOM) + [Dot, Ident(attr)]
    case Call(f, xs) => Print(f, ATOM) + [LPar] + PrintArgs(xs, true) + [RPar]
    case Subscript(x, i) => Print(x, ATOM) + [LBrack] + Print(i, TEST) + [RBrack]
  }

  /** Operands of `and` or `or`, each at one level more than the one before. */
  function PrintValues(op: BoolOp, vs: seq<Expr>, p: int, first: bool): seq<Token>
    decreases vs, 0
  {
    if |vs| == 0 then []
    else (if first then [] else [BoolToken(op)]) + Print(vs[0], Next(p)) + PrintValues(op, vs[1..], Next(p), false)
  }

  function PrintComparisons(ops: seq<CmpOp>, cs: seq<Expr>): seq<Token>
    decreases cs, 0
  {
    if |ops| == 0 || |cs| == 0 then []
    else CompareTokens(ops[0]) + Print(cs[0], Next(CMP)) + PrintComparisons(ops[1..], cs[1..])
  }

  function PrintArgs(xs: seq<Expr>, first: bool): seq<Token>
    decreases xs, 0
  {
    if |xs| == 0 then []
    else (if first then [] else [Comma]) + Print(xs[0], TEST) + PrintArgs(xs[1..], false)
  }
}
