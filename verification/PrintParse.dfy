/** Parsing what was printed gives the same tree back. */
module PrintParse {
  import opened Expressions
  import opened Parser
  import opened Precedence
  import opened Printer

  /** The level at which a token could continue an expression that came before it; 0 if it never does. */
  function ContinueLevel(t: Token): int
  {
    match t
    case KwIf => TEST
    case KwOr => OR
    case KwAnd => AND
    case KwNot => CMP
    case KwIn => CMP
    case KwIs => CMP
    case Comparator(_) => CMP
    case Operator(op) => BinaryLevel(op)
    case LPar => ATOM
    case LBrack => ATOM
    case Dot => ATOM
    case _ => 0
  }

  /** Nothing at the front of `rest` continues an expression of level `l`. */
  predicate Stops(l: int, rest: seq<Token>)
  {
    |rest| == 0 || ContinueLevel(rest[0]) < l
  }

  /** The tightest level whose expressions may start with a token. */
  function StartLevel(t: Token): int
  {
    if t == KwNot then NOT
    else if t == Tilde || t == Operator(Add) || t == Operator(Sub) then FACTOR
    else if t == KwAwait then AWAIT
    else ATOM
  }

  /** An expression printed at precedence `p` starts with a token that fits that level. */
  lemma {:induction false} PrintStarts(e: Expr, p: int)
    requires WellFormed(e) && p <= ATOM
    ensures |Print(e, p)| != 0 && StartLevel(Print(e, p)[0]) >= p
    decreases e, 1
  {
    BodyStarts(e);
  }

  lemma {:induction false} BodyStarts(e: Expr)
    requires WellFormed(e)
    ensures |Body(e)| != 0 && StartLevel(Body(e)[0]) >= Level(e)
    decreases e, 0
  {
    match e
    case Binary(l, op, r) =>
      PrintStarts(l, if op == Pow then Next(BinaryLevel(op)) else BinaryLevel(op));
    case Bool(op, vs) =>
      PrintStarts(vs[0], Next(BoolLevel(op)));
    case Compare(f, _, _) =>
      PrintStarts(f, Next(CMP));
    case IfExp(_, b, _) =>
      PrintStarts(b, Next(TEST));
    case Attribute(x, _) =>
      PrintStarts(x, ATOM);
    case Call(f, _) =>
      PrintStarts(f, ATOM);
    case Subscript(x, _) =>
      PrintStarts(x, ATOM);
    case _ =>
  }

  /* ----- looser levels pass tighter expressions through ----- */

  /** The token after a tighter expression does not continue level `l`, nor does the first one start it. */
  ghost predicate Passes(l: int, ts: seq<Token>, e: Expr, rest: seq<Token>)
  {
    && TEST <= l < ATOM && Parse(l + 1, ts) == Parsed(e, rest)
    && |ts| != 0 && StartLevel(ts[0]) > l && Stops(l, rest)
  }

  lemma PassTest(ts: seq<Token>, e: Expr, rest: seq<Token>)
    requires Passes(TEST, ts, e, rest)
    ensures Parse(TEST, ts) == Parsed(e, rest)
  {
    assert Parse(TEST, ts) == ParseTest(ts);
  }

  lemma PassBool(op: BoolOp, ts: seq<Token>, e: Expr, rest: seq<Token>)
    requires Passes(BoolLevel(op), ts, e, rest)
    ensures Parse(BoolLevel(op), ts) == Parsed(e, rest)
  {
    assert ParseValues(op, rest) == ([], rest);
  }

  lemma PassCompare(ts: seq<Token>, e: Expr, rest: seq<Token>)
    requires Passes(CMP, ts, e, rest)
    ensures Parse(CMP, ts) == Parsed(e, rest)
  {
    NoComparison(rest);
  }

  lemma PassBinary(l: int, ts: seq<Token>, e: Expr, rest: seq<Token>)
    requires EXPR <= l < FACTOR && Passes(l, ts, e, rest)
    ensures Parse(l, ts) == Parsed(e, rest)
  {
    LoopOfOperand(l, ts, e, rest);
    BinaryStops(l, e, rest);
  }

  lemma PassPrefix(l: int, ts: seq<Token>, e: Expr, rest: seq<Token>)
    requires (l == NOT || l == FACTOR || l == AWAIT) && Passes(l, ts, e, rest)
    ensures Parse(l, ts) == Parsed(e, rest)
  {
  }

  lemma PassPower(ts: seq<Token>, e: Expr, rest: seq<Token>)
    requires Passes(POWER, ts, e, rest)
    ensures Parse(POWER, ts) == Parsed(e, rest)
  {
  }

  lemma PassThrough(l: int, ts: seq<Token>, e: Expr, rest: seq<Token>)
    requires Passes(l, ts, e, rest)
    ensures Parse(l, ts) == Parsed(e, rest)
  {
    hide Parse, Passes, Stops, StartLevel;
    assert TEST <= l < ATOM by { PassesRange(l, ts, e, rest); }
    if l == TEST {
      PassTest(ts, e, rest);
    } else if l == OR {
      PassBool(Or, ts, e, rest);
    } else if l == AND {
      PassBool(And, ts, e, rest);
    } else if l == CMP {
      PassCompare(ts, e, rest);
    } else if EXPR <= l < FACTOR {
      PassBinary(l, ts, e, rest);
    } else if l == POWER {
      PassPower(ts, e, rest);
    } else {
      PassPrefix(l, ts, e, rest);
    }
  }

  lemma PassesRange(l: int, ts: seq<Token>, e: Expr, rest: seq<Token>)
    requires Passes(l, ts, e, rest)
    ensures TEST <= l < ATOM
  {
  }

  lemma {:induction false} Descend(l: int, m: int, ts: seq<Token>, e: Expr, rest: seq<Token>)
    requires TEST <= l <= m <= ATOM && Parse(m, ts) == Parsed(e, rest)
    requires |ts| != 0 && StartLevel(ts[0]) >= m && Stops(l, rest)
    ensures Parse(l, ts) == Parsed(e, rest)
    decreases m - l
  {
    hide Parse;
    if l < m {
      Descend(l + 1, m, ts, e, rest);
      PassThrough(l, ts, e, rest);
    }
  }

  /** No expression starts with a closing parenthesis. */
  lemma {:induction false} NothingAtClose(l: int, ts: seq<Token>)
    requires TEST <= l <= ATOM && StartsWith(ts, RPar)
    ensures Parse(l, ts) == Failed
    decreases ATOM - l
  {
    if l < ATOM {
      NothingAtClose(l + 1, ts);
      if l == TEST {
        assert Parse(TEST, ts) == ParseTest(ts);
      }
    }
  }

  lemma TrailersStop(e: Expr, rest: seq<Token>)
    requires WellFormed(e) && Stops(ATOM, rest)
    ensures ParseTrailers(e, rest) == Parsed(e, rest)
  {
  }

  /* ----- the main induction ----- */

  /** What is printed at precedence `p` is parsed back at any level up to `p`. */
  lemma {:induction false} PrintParses(e: Expr, p: int, l: int, rest: seq<Token>)
    requires WellFormed(e) && TEST <= l <= p <= ATOM && Stops(l, rest)
    ensures Parse(l, Print(e, p) + rest) == Parsed(e, rest)
    decreases e, 4
  {
    hide Parse, ParseTrailers, ParseAtom, Body, WellFormed;
    if p > Level(e) {
      var ts := Print(e, p) + rest;
      GroupParses(e, rest);
      Regroup([LPar], Body(e), [RPar], rest);
      TrailersStop(e, rest);
      AtomThenTrailers(ts);
      Descend(l, ATOM, ts, e, rest);
    } else {
      BodyParses(e, l, rest);
    }
  }

  lemma AtomThenTrailers(ts: seq<Token>)
    requires ParseAtom(ts).Parsed?
    ensures Parse(ATOM, ts) == ParseTrailers(ParseAtom(ts).e, ParseAtom(ts).rest)
  {
  }

  lemma {:induction false} GroupParses(e: Expr, rest: seq<Token>)
    requires WellFormed(e)
    ensures ParseAtom([LPar] + (Body(e) + ([RPar] + rest))) == Parsed(e, rest)
    decreases e, 3
  {
    hide Body;
    var inner := Body(e) + ([RPar] + rest);
    LevelRange(e);
    BodyParses(e, TEST, [RPar] + rest);
    assert ([LPar] + inner)[1..] == inner && ([RPar] + rest)[1..] == rest;
  }

  lemma LevelRange(e: Expr)
    ensures TEST <= Level(e) <= ATOM
  {
  }

  lemma {:induction false} BodyParses(e: Expr, l: int, rest: seq<Token>)
    requires WellFormed(e) && TEST <= l <= Level(e) && Stops(l, rest)
    ensures Parse(l, Body(e) + rest) == Parsed(e, rest)
    decreases e, 2
  {
    hide Parse, Body;
    LevelRange(e);
    ExactParses(e, rest);
    BodyStarts(e);
    Descend(l, Level(e), Body(e) + rest, e, rest);
  }

  /** Each kind of node is parsed back at its own level. */
  lemma {:induction false} ExactParses(e: Expr, rest: seq<Token>)
    requires WellFormed(e) && Stops(Level(e), rest)
    ensures Parse(Level(e), Body(e) + rest) == Parsed(e, rest)
    decreases e, 1
  {
    hide Parse, ParseTrailers, ParseAtom, PrintValues, PrintComparisons, Print, PrintArgs;
    match e
    case Name(_) =>
      TrailerSpine(e, rest);
      TrailersStop(e, rest);
      PrintAtBody(e);
    case Constant(_) =>
      TrailerSpine(e, rest);
      TrailersStop(e, rest);
      PrintAtBody(e);
    case Unary(op, x) =>
      PrintParses(x, UnaryLevel(op), UnaryLevel(op), rest);
      UnaryParses(op, Print(x, UnaryLevel(op)) + rest, x, rest);
      assert Body(e) + rest == [UnaryToken(op)] + (Print(x, UnaryLevel(op)) + rest);
    case Binary(l, op, r) =>
      if op == Pow {
        PowParses(l, r, rest);
      } else {
        Spine(BinaryLevel(op), e, rest);
        PrintAtBody(e);
        BinaryStops(BinaryLevel(op), e, rest);
      }
    case Bool(op, vs) =>
      BoolParses(op, vs, rest);
    case Compare(f, ops, cs) =>
      CompareParses(f, ops, cs, rest);
    case IfExp(t, b, o) =>
      IfExpParses(t, b, o, rest);
    case Await(x) =>
      PrintParses(x, ATOM, ATOM, rest);
      AwaitParses(Print(x, ATOM) + rest, x, rest);
      assert Body(e) + rest == [KwAwait] + (Print(x, ATOM) + rest);
    case _ =>
      TrailerSpine(e, rest);
      TrailersStop(e, rest);
      PrintAtBody(e);
  }

  lemma PrintAtBody(e: Expr)
    ensures Print(e, Level(e)) == Body(e)
  {
  }

  lemma UnaryParses(op: UnaryOp, ts: seq<Token>, x: Expr, rest: seq<Token>)
    requires Parse(UnaryLevel(op), ts) == Parsed(x, rest)
    ensures Parse(UnaryLevel(op), [UnaryToken(op)] + ts) == Parsed(Unary(op, x), rest)
  {
    assert ([UnaryToken(op)] + ts)[1..] == ts;
  }

  lemma AwaitParses(ts: seq<Token>, x: Expr, rest: seq<Token>)
    requires Parse(ATOM, ts) == Parsed(x, rest)
    ensures Parse(AWAIT, [KwAwait] + ts) == Parsed(Await(x), rest)
  {
    assert ([KwAwait] + ts)[1..] == ts;
  }

  lemma BinaryStops(l: int, e: Expr, rest: seq<Token>)
    requires EXPR <= l < FACTOR && WellFormed(e) && Stops(l, rest)
    ensures ParseBinary(l, e, rest) == Parsed(e, rest)
  {
  }

  /** Exponentiation: an await-level base, and a right operand that may itself be an exponentiation. */
  lemma {:induction false} PowParses(l: Expr, r: Expr, rest: seq<Token>)
    requires WellFormed(l) && WellFormed(r) && Stops(POWER, rest)
    ensures Parse(POWER, Body(Binary(l, Pow, r)) + rest) == Parsed(Binary(l, Pow, r), rest)
    decreases Binary(l, Pow, r), 0
  {
    hide Print, Parse, WellFormed;
    var right := Print(r, POWER) + rest;
    var after := [Operator(Pow)] + right;
    assert Stops(FACTOR, rest);
    PrintParses(r, POWER, FACTOR, rest);
    PrintParses(l, AWAIT, AWAIT, after);
    assert after[1..] == right;
    Regroup(Print(l, AWAIT), [Operator(Pow)], Print(r, POWER), rest);
    PowStep(Print(l, AWAIT) + after, l, right, r, rest);
  }

  lemma PowStep(ts: seq<Token>, l: Expr, right: seq<Token>, r: Expr, rest: seq<Token>)
    requires Parse(AWAIT, ts) == Parsed(l, [Operator(Pow)] + right) && Parse(FACTOR, right) == Parsed(r, rest)
    ensures Parse(POWER, ts) == Parsed(Binary(l, Pow, r), rest)
  {
    assert ([Operator(Pow)] + right)[1..] == right;
  }

  /** A left operand of a left-associative level leaves the loop where it would have been after reading it. */
  lemma {:induction false} Spine(l: int, e: Expr, ts: seq<Token>)
    requires EXPR <= l < FACTOR && WellFormed(e) && Stops(l + 1, ts)
    ensures Parse(l, Print(e, l) + ts) == ParseBinary(l, e, ts)
    decreases e, if Level(e) == l then 0 else 5
  {
    hide Parse, Print, Body;
    if Level(e) == l {
      var right := Print(e.right, l + 1) + ts;
      var after := [Operator(e.op)] + right;
      PrintParses(e.right, l + 1, l + 1, ts);
      Spine(l, e.left, after);
      assert after[1..] == right;
      BinaryTokens(e, ts);
    } else {
      PrintParses(e, l + 1, l + 1, ts);
      SamePrint(e, l);
      LoopOfOperand(l, Print(e, l) + ts, e, ts);
    }
  }

  lemma BinaryTokens(e: Expr, ts: seq<Token>)
    requires e.Binary? && e.op != Pow
    ensures var l := BinaryLevel(e.op);
      Print(e, l) + ts == Print(e.left, l) + ([Operator(e.op)] + (Print(e.right, l + 1) + ts))
  {
  }

  lemma SamePrint(e: Expr, l: int)
    requires Level(e) != l
    ensures Print(e, l) == Print(e, l + 1)
  {
  }

  lemma LoopOfOperand(l: int, ts: seq<Token>, e: Expr, rest: seq<Token>)
    requires EXPR <= l < FACTOR && Parse(l + 1, ts) == Parsed(e, rest)
    ensures WellFormed(e) && Parse(l, ts) == ParseBinary(l, e, rest)
  {
  }

  /** A primary leaves the loop over trailers where it would have been after reading it. */
  lemma {:induction false} TrailerSpine(e: Expr, ts: seq<Token>)
    requires WellFormed(e)
    ensures Parse(ATOM, Print(e, ATOM) + ts) == ParseTrailers(e, ts)
    decreases e, if Level(e) == ATOM then 0 else 4
  {
    hide Parse, ParseAtom, ParseTrailers, PrintArgs, Print, Body;
    match e
    case Name(id) =>
      AtomTokenParses(e, Ident(id), ts);
    case Constant(text) =>
      AtomTokenParses(e, Literal(text), ts);
    case Attribute(x, attr) =>
      var after := [Dot, Ident(attr)] + ts;
      TrailerSpine(x, after);
      AttributeStep(x, attr, ts);
      AttributeTokens(x, attr, ts);
    case Call(f, xs) =>
      var inner := PrintArgs(xs, true) + ([RPar] + ts);
      TrailerSpine(f, [LPar] + inner);
      ArgsParse(xs, true, ts);
      CallStep(f, xs, inner, ts);
      CallTokens(f, xs, ts);
    case Subscript(x, i) =>
      var inner := Print(i, TEST) + ([RBrack] + ts);
      TrailerSpine(x, [LBrack] + inner);
      PrintParses(i, TEST, TEST, [RBrack] + ts);
      SubscriptStep(x, i, inner, ts);
      SubscriptTokens(x, i, ts);
    case _ =>
      GroupParses(e, ts);
      GroupTokens(e, ts);
      AtomThenTrailers(Print(e, ATOM) + ts);
  }

  lemma Regroup(a: seq<Token>, b: seq<Token>, c: seq<Token>, d: seq<Token>)
    ensures a + b + c + d == a + (b + (c + d))
  {
  }

  lemma Assoc(a: seq<Token>, b: seq<Token>, c: seq<Token>)
    ensures a + b + c == a + (b + c)
  {
  }

  lemma AttributeTokens(x: Expr, attr: string, ts: seq<Token>)
    ensures Print(Attribute(x, attr), ATOM) + ts == Print(x, ATOM) + ([Dot, Ident(attr)] + ts)
  {
    Assoc(Print(x, ATOM), [Dot, Ident(attr)], ts);
  }

  lemma CallTokens(f: Expr, xs: seq<Expr>, ts: seq<Token>)
    ensures Print(Call(f, xs), ATOM) + ts == Print(f, ATOM) + ([LPar] + (PrintArgs(xs, true) + ([RPar] + ts)))
  {
    hide PrintArgs;
    Regroup(Print(f, ATOM) + [LPar], PrintArgs(xs, true), [RPar], ts);
    Assoc(Print(f, ATOM), [LPar], PrintArgs(xs, true) + ([RPar] + ts));
  }

  lemma SubscriptTokens(x: Expr, i: Expr, ts: seq<Token>)
    ensures Print(Subscript(x, i), ATOM) + ts
         == Print(x, ATOM) + ([LBrack] + (Print(i, TEST) + ([RBrack] + ts)))
  {
    Regroup(Print(x, ATOM) + [LBrack], Print(i, TEST), [RBrack], ts);
    Assoc(Print(x, ATOM), [LBrack], Print(i, TEST) + ([RBrack] + ts));
  }

  lemma GroupTokens(e: Expr, ts: seq<Token>)
    requires Level(e) < ATOM
    ensures Print(e, ATOM) + ts == [LPar] + (Body(e) + ([RPar] + ts))
  {
    hide Body;
    Regroup([LPar], Body(e), [RPar], ts);
  }

  lemma AttributeStep(x: Expr, attr: string, ts: seq<Token>)
    requires WellFormed(x)
    ensures ParseTrailers(x, [Dot, Ident(attr)] + ts) == ParseTrailers(Attribute(x, attr), ts)
  {
    assert ([Dot, Ident(attr)] + ts)[2..] == ts;
  }

  lemma CallStep(f: Expr, xs: seq<Expr>, inner: seq<Token>, ts: seq<Token>)
    requires WellFormed(f) && ParseArgs(inner, true) == (xs, [RPar] + ts)
    ensures WellFormed(Call(f, xs)) && ParseTrailers(f, [LPar] + inner) == ParseTrailers(Call(f, xs), ts)
  {
    hide ParseArgs;
    assert ([LPar] + inner)[1..] == inner && ([RPar] + ts)[1..] == ts;
  }

  lemma SubscriptStep(x: Expr, i: Expr, inner: seq<Token>, ts: seq<Token>)
    requires WellFormed(x) && Parse(TEST, inner) == Parsed(i, [RBrack] + ts)
    ensures WellFormed(Subscript(x, i)) && ParseTrailers(x, [LBrack] + inner) == ParseTrailers(Subscript(x, i), ts)
  {
    hide Parse;
    assert ([LBrack] + inner)[1..] == inner && ([RBrack] + ts)[1..] == ts;
  }

  lemma AtomTokenParses(e: Expr, t: Token, ts: seq<Token>)
    requires (e.Name? && t == Ident(e.id)) || (e.Constant? && t == Literal(e.text))
    ensures Print(e, ATOM) == [t] && Parse(ATOM, [t] + ts) == ParseTrailers(e, ts)
  {
    assert ([t] + ts)[1..] == ts;
    AtomThenTrailers([t] + ts);
  }

  lemma {:induction false} ArgsParse(xs: seq<Expr>, first: bool, rest: seq<Token>)
    requires forall x :: x in xs ==> WellFormed(x)
    ensures ParseArgs(PrintArgs(xs, first) + ([RPar] + rest), first) == (xs, [RPar] + rest)
    decreases xs, 0
  {
    hide Parse, Print, ParseArgs;
    var close := [RPar] + rest;
    var ts := PrintArgs(xs, first) + close;
    if |xs| == 0 {
      assert ts == close;
      NoArgs(first, close);
    } else {
      var more := PrintArgs(xs[1..], false) + close;
      ArgsParse(xs[1..], false, rest);
      assert Stops(TEST, more);
      PrintParses(xs[0], TEST, TEST, more);
      assert ts == (if first then [] else [Comma]) + (Print(xs[0], TEST) + more);
      ArgsStep(first, Print(xs[0], TEST) + more, xs[0], more, xs[1..], close);
      assert xs == [xs[0]] + xs[1..];
    }
  }

  lemma NoArgs(first: bool, close: seq<Token>)
    requires StartsWith(close, RPar)
    ensures ParseArgs(close, first) == ([], close)
  {
    NothingAtClose(TEST, close);
  }

  lemma ArgsStep(first: bool, ts: seq<Token>, x: Expr, more: seq<Token>, xs: seq<Expr>, rest: seq<Token>)
    requires Parse(TEST, ts) == Parsed(x, more) && ParseArgs(more, false) == (xs, rest)
    ensures ParseArgs((if first then [] else [Comma]) + ts, first) == ([x] + xs, rest)
  {
    hide Parse;
    assert [] + ts == ts && ([Comma] + ts)[1..] == ts;
  }

  lemma {:induction false} ValuesParse(op: BoolOp, vs: seq<Expr>, p: int, rest: seq<Token>)
    requires forall v :: v in vs ==> WellFormed(v)
    requires BoolLevel(op) <= p <= ATOM && Stops(BoolLevel(op), rest)
    ensures ParseValues(op, PrintValues(op, vs, p, false) + rest) == (vs, rest)
    ensures Stops(BoolLevel(op) + 1, PrintValues(op, vs, p, false) + rest)
    decreases vs, 0
  {
    hide Parse, Print, ParseValues, PrintValues;
    var ts := PrintValues(op, vs, p, false) + rest;
    if |vs| == 0 {
      ValueTokens(op, vs, p, rest);
      NoValues(op, rest);
    } else {
      var more := PrintValues(op, vs[1..], Next(p), false) + rest;
      ValuesParse(op, vs[1..], Next(p), rest);
      PrintParses(vs[0], Next(p), BoolLevel(op) + 1, more);
      ValueTokens(op, vs, p, rest);
      ValuesStep(op, Print(vs[0], Next(p)) + more, vs[0], more, vs[1..], rest);
      assert vs == [vs[0]] + vs[1..];
    }
  }

  lemma ValueTokens(op: BoolOp, vs: seq<Expr>, p: int, rest: seq<Token>)
    ensures var ts := PrintValues(op, vs, p, false) + rest;
      ts == if |vs| == 0 then rest
            else [BoolToken(op)] + (Print(vs[0], Next(p)) + (PrintValues(op, vs[1..], Next(p), false) + rest))
  {
    hide Print;
  }

  lemma NoValues(op: BoolOp, rest: seq<Token>)
    requires Stops(BoolLevel(op), rest)
    ensures ParseValues(op, rest) == ([], rest)
  {
  }

  lemma ValuesStep(op: BoolOp, ts: seq<Token>, v: Expr, more: seq<Token>, vs: seq<Expr>, rest: seq<Token>)
    requires Parse(BoolLevel(op) + 1, ts) == Parsed(v, more) && ParseValues(op, more) == (vs, rest)
    ensures ParseValues(op, [BoolToken(op)] + ts) == ([v] + vs, rest)
  {
    hide Parse;
    assert ([BoolToken(op)] + ts)[1..] == ts;
  }

  lemma FirstValue(op: BoolOp, vs: seq<Expr>, rest: seq<Token>)
    requires |vs| != 0
    ensures Body(Bool(op, vs)) + rest
         == Print(vs[0], BoolLevel(op) + 1) + (PrintValues(op, vs[1..], BoolLevel(op) + 1, false) + rest)
  {
    hide Print;
  }

  lemma {:induction false} BoolParses(op: BoolOp, vs: seq<Expr>, rest: seq<Token>)
    requires WellFormed(Bool(op, vs)) && Stops(BoolLevel(op), rest)
    ensures Parse(BoolLevel(op), Body(Bool(op, vs)) + rest) == Parsed(Bool(op, vs), rest)
    decreases Bool(op, vs), 0
  {
    hide Print, ParseValues, Body, PrintValues;
    var l := BoolLevel(op);
    var more := PrintValues(op, vs[1..], l + 1, false) + rest;
    ValuesParse(op, vs[1..], l + 1, rest);
    PrintParses(vs[0], l + 1, l + 1, more);
    FirstValue(op, vs, rest);
    assert vs == [vs[0]] + vs[1..];
  }

  lemma OneToken(t: Token, ts: seq<Token>)
    ensures ([t] + ts)[0] == t && ([t] + ts)[1..] == ts
  {
  }

  lemma TwoTokens(t: Token, u: Token, ts: seq<Token>)
    ensures ([t, u] + ts)[0] == t && StartsWith(([t, u] + ts)[1..], u) && ([t, u] + ts)[2..] == ts
  {
  }

  lemma CmpOpParses(op: CmpOp, ts: seq<Token>)
    requires !StartsWith(ts, KwNot)
    ensures ParseCmpOp(CompareTokens(op) + ts) == Cmp(op, ts)
  {
    match op
    case Is => OneToken(KwIs, ts);
    case In => OneToken(KwIn, ts);
    case IsNot => TwoTokens(KwIs, KwNot, ts);
    case NotIn => TwoTokens(KwNot, KwIn, ts);
    case _ => OneToken(Comparator(op), ts);
  }

  lemma {:induction false} ComparisonsParse(ops: seq<CmpOp>, cs: seq<Expr>, rest: seq<Token>)
    requires |ops| == |cs| && (forall c :: c in cs ==> WellFormed(c)) && Stops(CMP, rest)
    ensures ParseComparisons(PrintComparisons(ops, cs) + rest) == (ops, cs, rest)
    ensures Stops(EXPR, PrintComparisons(ops, cs) + rest)
    decreases cs, 0
  {
    hide Parse, Print, ParseCmpOp, ParseComparisons, PrintComparisons, CompareTokens;
    var ts := PrintComparisons(ops, cs) + rest;
    if |cs| == 0 {
      ComparisonTokens(ops, cs, rest);
      NoComparison(rest);
    } else {
      var more := PrintComparisons(ops[1..], cs[1..]) + rest;
      ComparisonTokens(ops, cs, rest);
      ComparisonsParse(ops[1..], cs[1..], rest);
      PrintParses(cs[0], EXPR, EXPR, more);
      PrintStarts(cs[0], EXPR);
      ComparisonStep(ops[0], Print(cs[0], EXPR) + more, cs[0], more, ops[1..], cs[1..], rest);
      assert ops == [ops[0]] + ops[1..] && cs == [cs[0]] + cs[1..];
    }
  }

  lemma ComparisonTokens(ops: seq<CmpOp>, cs: seq<Expr>, rest: seq<Token>)
    requires |ops| == |cs|
    ensures |cs| == 0 ==> PrintComparisons(ops, cs) + rest == rest
    ensures |cs| != 0 ==>
      var ts := PrintComparisons(ops, cs) + rest;
      && ts == CompareTokens(ops[0]) + (Print(cs[0], EXPR) + (PrintComparisons(ops[1..], cs[1..]) + rest))
      && Stops(EXPR, ts)
  {
    hide Print, CompareTokens, Stops;
    if |cs| == 0 {
      assert [] + rest == rest;
    } else {
      var more := PrintComparisons(ops[1..], cs[1..]);
      Regroup(CompareTokens(ops[0]), Print(cs[0], EXPR), more, rest);
      CompareStops(ops[0], Print(cs[0], EXPR) + (more + rest));
    }
  }

  /** A comparison operator does not continue an operand of a comparison. */
  lemma CompareStops(op: CmpOp, ts: seq<Token>)
    ensures Stops(EXPR, CompareTokens(op) + ts)
  {
  }

  lemma NoComparison(rest: seq<Token>)
    requires Stops(CMP, rest)
    ensures ParseComparisons(rest) == ([], [], rest)
  {
    assert ParseCmpOp(rest) == NoCmp;
  }

  lemma ComparisonStep(op: CmpOp, ts: seq<Token>, c: Expr, more: seq<Token>, ops: seq<CmpOp>, cs: seq<Expr>,
                       rest: seq<Token>)
    requires !StartsWith(ts, KwNot) && Parse(EXPR, ts) == Parsed(c, more) && ParseComparisons(more) == (ops, cs, rest)
    ensures ParseComparisons(CompareTokens(op) + ts) == ([op] + ops, [c] + cs, rest)
  {
    hide Parse, ParseCmpOp;
    CmpOpParses(op, ts);
  }

  lemma {:induction false} CompareParses(f: Expr, ops: seq<CmpOp>, cs: seq<Expr>, rest: seq<Token>)
    requires WellFormed(Compare(f, ops, cs)) && Stops(CMP, rest)
    ensures Parse(CMP, Body(Compare(f, ops, cs)) + rest) == Parsed(Compare(f, ops, cs), rest)
    decreases Compare(f, ops, cs), 0
  {
    hide Print, ParseComparisons, PrintComparisons;
    var more := PrintComparisons(ops, cs) + rest;
    ComparisonsParse(ops, cs, rest);
    PrintParses(f, EXPR, EXPR, more);
    assert Body(Compare(f, ops, cs)) + rest == Print(f, EXPR) + more;
  }

  lemma {:induction false} IfExpParses(t: Expr, b: Expr, o: Expr, rest: seq<Token>)
    requires WellFormed(IfExp(t, b, o)) && Stops(TEST, rest)
    ensures Parse(TEST, Body(IfExp(t, b, o)) + rest) == Parsed(IfExp(t, b, o), rest)
    decreases IfExp(t, b, o), 0
  {
    hide Print, Parse;
    var otherwise := Print(o, TEST) + rest;
    var afterTest := [KwElse] + otherwise;
    var condition := Print(t, OR) + afterTest;
    var afterBody := [KwIf] + condition;
    PrintParses(o, TEST, TEST, rest);
    PrintParses(t, OR, OR, afterTest);
    PrintParses(b, OR, OR, afterBody);
    var ts := Body(IfExp(t, b, o)) + rest;
    assert ts == Print(b, OR) + afterBody;
    assert afterBody[1..] == condition && afterTest[1..] == otherwise;
    assert ParseTest(ts) == Parsed(IfExp(t, b, o), rest);
    TestLevel(ts);
  }

  lemma TestLevel(ts: seq<Token>)
    ensures Parse(TEST, ts) == ParseTest(ts)
  {
  }

  /**
    The printed text of a tree parses back to that tree, whatever precedence it is printed at, exactly when the tree
    is one that parsing can produce.
    */
  lemma PrintParsesBack(e: Expr, p: int)
    requires TEST <= p <= ATOM
    ensures ParseAll(Print(e, p)) == Parsed(e, []) <==> WellFormed(e)
  {
    hide Parse, Print;
    if WellFormed(e) {
      PrintParses(e, p, TEST, []);
      assert Print(e, p) + [] == Print(e, p);
    }
  }

  /** Any text that parses is equivalent to the printed form of what it parses to. */
  lemma ReprintedIsEquivalent(ts: seq<Token>, p: int)
    requires TEST <= p <= ATOM && ParseAll(ts).Parsed?
    ensures ParseAll(Print(ParseAll(ts).e, p)) == ParseAll(ts)
  {
    hide Parse, Print, WellFormed;
    PrintParsesBack(ParseAll(ts).e, p);
  }
}
