/**
  The printer with its record of precedences, as functions. A node is found in the tree by its position, a path of child
  numbers from the root; the record is kept by node object, and one object may be at several positions.
  */
module KeyedPrinter {
  import opened Expressions
  import opened Precedence

  type Path = seq<nat>

  /** The node object at each position. */
  type Objects = Path -> nat

  type Precedences = map<nat, int>

  /** What is written, and the record afterwards. */
  datatype Out = Out(ts: seq<Token>, m: Precedences)

  /** The precedence on record for a node, or that of a whole expression when nobody asked. */
  function OnRecord(m: Precedences, k: Objects, node: Path): int
  {
    if k(node) in m then m[k(node)] else TEST
  }

  function Keyed(e: Expr, node: Path, k: Objects, m: Precedences): Out
    decreases e, 3
  {
    var r := KeyedBody(e, node, k, m);
    if OnRecord(m, k, node) > Level(e) then Out([LPar] + r.ts + [RPar], r.m) else r
  }

  /** Child `i`, asked for precedence `p` just before it is visited. */
  function KeyedChild(e: Expr, p: int, node: Path, i: nat, k: Objects, m: Precedences): Out
    decreases e, 4
  {
    Keyed(e, node + [i], k, m[k(node + [i]) := p])
  }

  function KeyedBody(e: Expr, node: Path, k: Objects, m: Precedences): Out
    decreases e, 2
  {
    match e
    case Name(id) => Out([Ident(id)], m)
    case Constant(text) => Out([Literal(text)], m)
    case Unary(op, x) =>
      var r := KeyedChild(x, UnaryLevel(op), node, 0, k, m);
      Out([UnaryToken(op)] + r.ts, r.m)
    case Binary(l, op, r) =>
      var p := BinaryLevel(op);
      var left := KeyedChild(l, if op == Pow then Next(p) else p, node, 0, k, m);
      var right := KeyedChild(r, if op == Pow then p else Next(p), node, 1, k, left.m);
      Out(left.ts + [Operator(op)] + right.ts, right.m)
    case Bool(op, vs) => KeyedValues(op, vs, 0, BoolLevel(op), node, k, m)
    case Compare(f, ops, cs) =>
      var first := Keyed(f, node + [0], k, AskAll(Next(CMP), node, 1 + |cs|, k, m));
      var rest := KeyedComparisons(ops, cs, 0, node, k, first.m);
      Out(first.ts + rest.ts, rest.m)
    case IfExp(t, b, o) =>
      var body := Keyed(b, node + [0], k, AskAll(Next(TEST), node, 2, k, m));
      var test := Keyed(t, node + [1], k, body.m);
      var orelse := KeyedChild(o, TEST, node, 2, k, test.m);
      Out(body.ts + [KwIf] + test.ts + [KwElse] + orelse.ts, orelse.m)
    case Await(x) =>
      var r := KeyedChild(x, ATOM, node, 0, k, m);
      Out([KwAwait] + r.ts, r.m)
    case Attribute(x, attr) =>
      var r := KeyedChild(x, ATOM, node, 0, k, m);
      Out(r.ts + [Dot, Ident(attr)], r.m)
    case Call(f, xs) =>
      var func := KeyedChild(f, ATOM, node, 0, k, m);
      var args := KeyedArgs(xs, 0, node, k, func.m);
      Out(func.ts + [LPar] + args.ts + [RPar], args.m)
    case Subscript(x, i) =>
      var container := KeyedChild(x, ATOM, node, 0, k, m);
      var index := Keyed(i, node + [1], k, container.m);
      Out(container.ts + [LBrack] + index.ts + [RBrack], index.m)
  }

  /** Precedence `p` for the first `n` children. */
  function AskAll(p: int, node: Path, n: nat, k: Objects, m: Precedences): Precedences
  {
    if n == 0 then m else AskAll(p, node, n - 1, k, m)[k(node + [n - 1]) := p]
  }

  function KeyedValues(op: BoolOp, vs: seq<Expr>, i: nat, p: int, node: Path, k: Objects, m: Precedences): Out
    requires i <= |vs|
    decreases vs, 0, |vs| - i
  {
    if i == |vs| then Out([], m)
    else
      var r := KeyedChild(vs[i], Next(p), node, i, k, m);
      var more := KeyedValues(op, vs, i + 1, Next(p), node, k, r.m);
      Out((if i == 0 then [] else [BoolToken(op)]) + r.ts + more.ts, more.m)
  }

  function KeyedComparisons(ops: seq<CmpOp>, cs: seq<Expr>, i: nat, node: Path, k: Objects, m: Precedences): Out
    requires i <= |ops| && i <= |cs|
    decreases cs, 0, |cs| - i
  {
    if i == |ops| || i == |cs| then Out([], m)
    else
      var r := Keyed(cs[i], node + [1 + i], k, m);
      var more := KeyedComparisons(ops, cs, i + 1, node, k, r.m);
      Out(CompareTokens(ops[i]) + r.ts + more.ts, more.m)
  }

  function KeyedArgs(xs: seq<Expr>, i: nat, node: Path, k: Objects, m: Precedences): Out
    requires i <= |xs|
    decreases xs, 0, |xs| - i
  {
    if i == |xs| then Out([], m)
    else
      var r := Keyed(xs[i], node + [1 + i], k, m);
      var more := KeyedArgs(xs, i + 1, node, k, r.m);
      Out((if i == 0 then [] else [Comma]) + r.ts + more.ts, more.m)
  }
}
