/**
  A reference parser for expressions, after the grammar rules and the operator table of section 6.17 of The Python
  Language Reference. It shares trees and tokens with the printer, and none of the printer's tables. Left-recursive
  rules are loops.
  */
module Parser {
  import opened Expressions
  import opened Outcome

  /* ----- the rules of the grammar, from loosest to tightest; three looser ones are not modelled ----- */

  const EXPRESSION_RULE := 4
  const DISJUNCTION_RULE := 5
  const CONJUNCTION_RULE := 6
  const INVERSION_RULE := 7
  const COMPARISON_RULE := 8
  const BITWISE_OR_RULE := 9
  const BITWISE_XOR_RULE := 10
  const BITWISE_AND_RULE := 11
  const SHIFT_RULE := 12
  const SUM_RULE := 13
  const TERM_RULE := 14
  const FACTOR_RULE := 15
  const POWER_RULE := 16
  const AWAIT_RULE := 17
  const PRIMARY_RULE := 18

  /** The rule whose alternatives are joined by an operator. */
  function OperatorRule(op: BinOp): int
  {
    if op == BitOr then BITWISE_OR_RULE
    else if op == BitXor then BITWISE_XOR_RULE
    else if op == BitAnd then BITWISE_AND_RULE
    else if op in {LShift, RShift} then SHIFT_RULE
    else if op in {Add, Sub} then SUM_RULE
    else if op in {Mult, Div, FloorDiv, Mod, MatMult} then TERM_RULE
    else POWER_RULE
  }

  /** `disjunction` joins by `or`, `conjunction` by `and`. */
  function JoinRule(op: BoolOp): int
  {
    match op
    case Or => DISJUNCTION_RULE
    case And => CONJUNCTION_RULE
  }

  function JoinToken(op: BoolOp): Token
  {
    match op
    case Or => KwOr
    case And => KwAnd
  }

  datatype Parsed = Failed | Parsed(e: Expr, rest: seq<Token>)

  predicate StartsWith(ts: seq<Token>, t: Token)
  {
    |ts| != 0 && ts[0] == t
  }

  /** Parses an expression of level `l` or tighter from the front of `ts`. */
  function Parse(l: int, ts: seq<Token>): (r: Parsed)
    requires EXPRESSION_RULE <= l <= PRIMARY_RULE
    ensures r.Parsed? ==> |r.rest| < |ts| && WellFormed(r.e)
    decreases |ts|, PRIMARY_RULE + 1 - l
  {
    if l == EXPRESSION_RULE then ParseTest(ts)
    else if l == DISJUNCTION_RULE || l == CONJUNCTION_RULE then ParseBool(if l == DISJUNCTION_RULE then Or else And, ts)
    else if l == INVERSION_RULE then
      if StartsWith(ts, KwNot) then
        var r := Parse(INVERSION_RULE, ts[1..]);
        if r.Failed? then Failed else Parsed(Unary(Not, r.e), r.rest)
      else Parse(COMPARISON_RULE, ts)
    else if l == COMPARISON_RULE then ParseComparison(ts)
    else if l < FACTOR_RULE then
      var r := Parse(l + 1, ts);
      if r.Failed? then Failed else ParseBinary(l, r.e, r.rest)
    else if l == FACTOR_RULE then
      if |ts| != 0 && UnaryOpOf(ts[0]).Some? then
        var r := Parse(FACTOR_RULE, ts[1..]);
        if r.Failed? then Failed else Parsed(Unary(UnaryOpOf(ts[0]).value, r.e), r.rest)
      else Parse(POWER_RULE, ts)
    else if l == POWER_RULE then
      var r := Parse(AWAIT_RULE, ts);
      if r.Failed? then Failed
      else if StartsWith(r.rest, Operator(Pow)) then
        var r2 := Parse(FACTOR_RULE, r.rest[1..]);
        if r2.Failed? then r else Parsed(Binary(r.e, Pow, r2.e), r2.rest)
      else r
    else if l == AWAIT_RULE then
      if StartsWith(ts, KwAwait) then
        var r := Parse(PRIMARY_RULE, ts[1..]);
        if r.Failed? then Failed else Parsed(Await(r.e), r.rest)
      else Parse(PRIMARY_RULE, ts)
    else
      var r := ParseAtom(ts);
      if r.Failed? then Failed else ParseTrailers(r.e, r.rest)
  }

  /** `conjunction ('or' conjunction)*` or `inversion ('and' inversion)*` */
  function ParseBool(op: BoolOp, ts: seq<Token>): (r: Parsed)
    ensures r.Parsed? ==> |r.rest| < |ts| && WellFormed(r.e)
    decreases |ts|, PRIMARY_RULE + 1 - JoinRule(op), 0
  {
    var r := Parse(JoinRule(op) + 1, ts);
    if r.Failed? then Failed
    else
      var (more, rest) := ParseValues(op, r.rest);
      if |more| == 0 then Parsed(r.e, rest) else Parsed(Bool(op, [r.e] + more), rest)
  }

  /** `bitwise_or (comparison_operator bitwise_or)*` */
  function ParseComparison(ts: seq<Token>): (r: Parsed)
    ensures r.Parsed? ==> |r.rest| < |ts| && WellFormed(r.e)
    decreases |ts|, PRIMARY_RULE + 1 - COMPARISON_RULE, 0
  {
    var r := Parse(BITWISE_OR_RULE, ts);
    if r.Failed? then Failed
    else
      var (ops, cs, rest) := ParseComparisons(r.rest);
      if |ops| == 0 then Parsed(r.e, rest) else Parsed(Compare(r.e, ops, cs), rest)
  }

  /** `disjunction ['if' disjunction 'else' expression]` */
  function ParseTest(ts: seq<Token>): (r: Parsed)
    ensures r.Parsed? ==> |r.rest| < |ts| && WellFormed(r.e)
    decreases |ts|, PRIMARY_RULE + 1 - EXPRESSION_RULE, 0
  {
    var r := Parse(DISJUNCTION_RULE, ts);
    if r.Failed? then Failed
    else if StartsWith(r.rest, KwIf) then
      var t := Parse(DISJUNCTION_RULE, r.rest[1..]);
      if t.Parsed? && StartsWith(t.rest, KwElse) then
        var o := Parse(EXPRESSION_RULE, t.rest[1..]);
        if o.Failed? then r else Parsed(IfExp(t.e, r.e, o.e), o.rest)
      else r
    else r
  }

  /** `('or' conjunction)*` or `('and' inversion)*` */
  function ParseValues(op: BoolOp, ts: seq<Token>): (r: (seq<Expr>, seq<Token>))
    ensures |r.1| <= |ts| && forall v :: v in r.0 ==> WellFormed(v)
    decreases |ts|, 0
  {
    if StartsWith(ts, JoinToken(op)) then
      var r := Parse(JoinRule(op) + 1, ts[1..]);
      if r.Failed? then ([], ts)
      else
        var (more, rest) := ParseValues(op, r.rest);
        ([r.e] + more, rest)
    else ([], ts)
  }

  datatype CmpFound = NoCmp | Cmp(op: CmpOp, rest: seq<Token>)

  function ParseCmpOp(ts: seq<Token>): (r: CmpFound)
    ensures r.Cmp? ==> |r.rest| < |ts|
  {
    if |ts| == 0 then NoCmp
    else if ts[0] == KwNot then if StartsWith(ts[1..], KwIn) then Cmp(NotIn, ts[2..]) else NoCmp
    else if ts[0] == KwIn then Cmp(In, ts[1..])
    else if ts[0] == KwIs then if StartsWith(ts[1..], KwNot) then Cmp(IsNot, ts[2..]) else Cmp(Is, ts[1..])
    else if ts[0].Comparator? then Cmp(ts[0].cmp, ts[1..])
    else NoCmp
  }

  /** `(comparison_operator bitwise_or)*` */
  function ParseComparisons(ts: seq<Token>): (r: (seq<CmpOp>, seq<Expr>, seq<Token>))
    ensures |r.2| <= |ts| && |r.0| == |r.1| && forall c :: c in r.1 ==> WellFormed(c)
    decreases |ts|, 0
  {
    var c := ParseCmpOp(ts);
    if c.NoCmp? then ([], [], ts)
    else
      var r := Parse(BITWISE_OR_RULE, c.rest);
      if r.Failed? then ([], [], ts)
      else
        var (ops, cs, rest) := ParseComparisons(r.rest);
        ([c.op] + ops, [r.e] + cs, rest)
  }

  /** The loop of a left-associative level: `acc (operator operand)*` */
  function ParseBinary(l: int, acc: Expr, ts: seq<Token>): (r: Parsed)
    requires BITWISE_OR_RULE <= l < FACTOR_RULE && WellFormed(acc)
    ensures r.Parsed? && |r.rest| <= |ts| && WellFormed(r.e)
    decreases |ts|, 0
  {
    if |ts| != 0 && ts[0].Operator? && OperatorRule(ts[0].op) == l then
      var r := Parse(l + 1, ts[1..]);
      if r.Failed? then Parsed(acc, ts) else ParseBinary(l, Binary(acc, ts[0].op, r.e), r.rest)
    else Parsed(acc, ts)
  }

  /** `+`, `-` and `~` as prefix operators. */
  function UnaryOpOf(t: Token): Option<UnaryOp>
  {
    if t == Tilde then Some(Invert)
    else if t == Operator(Add) then Some(UAdd)
    else if t == Operator(Sub) then Some(USub)
    else None
  }

  function ParseAtom(ts: seq<Token>): (r: Parsed)
    ensures r.Parsed? ==> |r.rest| < |ts| && WellFormed(r.e)
    decreases |ts|, 0
  {
    if |ts| == 0 then Failed
    else if ts[0].Ident? then Parsed(Name(ts[0].s), ts[1..])
    else if ts[0].Literal? then Parsed(Constant(ts[0].text), ts[1..])
    else if ts[0] == LPar then
      var r := Parse(EXPRESSION_RULE, ts[1..]);
      if r.Parsed? && StartsWith(r.rest, RPar) then Parsed(r.e, r.rest[1..]) else Failed
    else Failed
  }

  /** Attribute references, calls and subscripts after a primary. */
  function ParseTrailers(acc: Expr, ts: seq<Token>): (r: Parsed)
    requires WellFormed(acc)
    ensures r.Parsed? && |r.rest| <= |ts| && WellFormed(r.e)
    decreases |ts|, 0
  {
    if |ts| >= 2 && ts[0] == Dot && ts[1].Ident? then ParseTrailers(Attribute(acc, ts[1].s), ts[2..])
    else if StartsWith(ts, LPar) then
      var (xs, rest) := ParseArgs(ts[1..], true);
      if StartsWith(rest, RPar) then ParseTrailers(Call(acc, xs), rest[1..]) else Parsed(acc, ts)
    else if StartsWith(ts, LBrack) then
      var r := Parse(EXPRESSION_RULE, ts[1..]);
      if r.Parsed? && StartsWith(r.rest, RBrack) then ParseTrailers(Subscript(acc, r.e), r.rest[1..])
      else Parsed(acc, ts)
    else Parsed(acc, ts)
  }

  /** `[expression (',' expression)* [',']]` */
  function ParseArgs(ts: seq<Token>, first: bool): (r: (seq<Expr>, seq<Token>))
    ensures |r.1| <= |ts| && forall x :: x in r.0 ==> WellFormed(x)
    decreases |ts|, PRIMARY_RULE + 2
  {
    if !first && !StartsWith(ts, Comma) then ([], ts)
    else
      var r := Parse(EXPRESSION_RULE, if first then ts else ts[1..]);
      if r.Failed? then ([], if first then ts else ts[1..])
      else
        var (more, rest) := ParseArgs(r.rest, false);
        ([r.e] + more, rest)
  }

  /** A whole text: an expression and nothing after it. */
  function ParseAll(ts: seq<Token>): (r: Parsed)
    ensures r.Parsed? ==> WellFormed(r.e)
  {
    var r := Parse(EXPRESSION_RULE, ts);
    if r.Parsed? && |r.rest| == 0 then r else Failed
  }
}
