/** The printer's own tables: precedence levels, and the level and tokens of each operator. */
module Precedence {
  import opened Expressions

  /* ----- precedence levels, from loosest to tightest ----- */

  const TEST := 4
  const OR := 5
  const AND := 6
  const NOT := 7
  const CMP := 8
  const EXPR := 9
  const BXOR := 10
  const BAND := 11
  const SHIFT := 12
  const ARITH := 13
  const TERM := 14
  const FACTOR := 15
  const POWER := 16
  const AWAIT := 17
  const ATOM := 18

  /** The next tighter level; the tightest is its own successor. */
  function Next(p: int): int
  {
    if p < ATOM then p + 1 else p
  }

  function UnaryLevel(op: UnaryOp): int
  {
    if op == Not then NOT else FACTOR
  }

  function BinaryLevel(op: BinOp): int
  {
    match op
    case Add => ARITH
    case Sub => ARITH
    case Mult => TERM
    case MatMult => TERM
    case Div => TERM
    case Mod => TERM
    case FloorDiv => TERM
    case LShift => SHIFT
    case RShift => SHIFT
    case BitOr => EXPR
    case BitXor => BXOR
    case BitAnd => BAND
    case Pow => POWER
  }

  function BoolLevel(op: BoolOp): int
  {
    if op == And then AND else OR
  }

  /** The level below which a node is put in parentheses. */
  function Level(e: Expr): int
  {
    match e
    case Unary(op, _) => UnaryLevel(op)
    case Binary(_, op, _) => BinaryLevel(op)
    case Bool(op, _) => BoolLevel(op)
    case Compare(_, _, _) => CMP
    case IfExp(_, _, _) => TEST
    case Await(_) => AWAIT
    case _ => ATOM
  }

  function UnaryToken(op: UnaryOp): Token
  {
    match op
    case Invert => Tilde
    case Not => KwNot
    case UAdd => Operator(Add)
    case USub => Operator(Sub)
  }

  function BoolToken(op: BoolOp): Token
  {
    if op == And then KwAnd else KwOr
  }

  function CompareTokens(op: CmpOp): seq<Token>
  {
    match op
    case Is => [KwIs]
    case IsNot => [KwIs, KwNot]
    case In => [KwIn]
    case NotIn => [KwNot, KwIn]
    case _ => [Comparator(op)]
  }
}
