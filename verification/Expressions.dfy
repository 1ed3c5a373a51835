/** Expression trees and tokens. */
module Expressions {

  datatype UnaryOp = Invert | Not | UAdd | USub

  datatype BinOp = Add | Sub | Mult | MatMult | Div | Mod | LShift | RShift | BitOr | BitXor | BitAnd | FloorDiv | Pow

  datatype BoolOp = And | Or

  datatype CmpOp = Eq | NotEq | Lt | LtE | Gt | GtE | Is | IsNot | In | NotIn

  datatype Expr =
    | Name(id: string)
    | Constant(text: string)
    | Unary(uop: UnaryOp, operand: Expr)
    | Binary(left: Expr, op: BinOp, right: Expr)
    | Bool(bop: BoolOp, values: seq<Expr>)
    | Compare(first: Expr, ops: seq<CmpOp>, comparators: seq<Expr>)
    | IfExp(test: Expr, body: Expr, orelse: Expr)
    | Await(awaited: Expr)
    | Attribute(value: Expr, attr: string)
    | Call(func: Expr, args: seq<Expr>)
    | Subscript(container: Expr, index: Expr)

  /** The trees that parsing can produce: boolean operators join at least two values, comparisons pair up. */
  predicate WellFormed(e: Expr)
  {
    match e
    case Name(_) => true
    case Constant(_) => true
    case Unary(_, x) => WellFormed(x)
    case Binary(l, _, r) => WellFormed(l) && WellFormed(r)
    case Bool(_, vs) => 2 <= |vs| && forall v :: v in vs ==> WellFormed(v)
    case Compare(f, ops, cs) => WellFormed(f) && 1 <= |ops| == |cs| && forall c :: c in cs ==> WellFormed(c)
    case IfExp(t, b, o) => WellFormed(t) && WellFormed(b) && WellFormed(o)
    case Await(x) => WellFormed(x)
    case Attribute(x, _) => WellFormed(x)
    case Call(f, xs) => WellFormed(f) && forall x :: x in xs ==> WellFormed(x)
    case Subscript(x, i) => WellFormed(x) && WellFormed(i)
  }

  datatype Token =
    | Ident(s: string) | Literal(text: string)
    | LPar | RPar | LBrack | RBrack | Comma | Dot
    | KwIf | KwElse | KwAnd | KwOr | KwNot | KwIn | KwIs | KwAwait
    | Tilde | Operator(op: BinOp) | Comparator(cmp: CmpOp)
}
