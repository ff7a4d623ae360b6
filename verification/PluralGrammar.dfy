// The tokens of a plural expression, the precedence grammar of intl/plural.y,
// and a reference reader for it that shares nothing with the LALR tables.
module PluralGrammar {
  import opened Words
  import opened Sequences
  import opened PluralExp

  // What yylex can deliver; Bad is the token YYERRCODE
  datatype Token =
    | NUMBER(n: Word)
    | VAR
    | NOT
    | OP(op: BinOp)
    | QUESTION
    | COLON
    | LPAREN
    | RPAREN
    | END
    | BAD

  // How tightly an infix token binds, 0 for any other token
  function Binding(t: Token): nat {
    match t
    case QUESTION => 2
    case OP(op) => Prec(op)
    case _ => 0
  }

  function Prec(op: BinOp): (p: nat)
    ensures 3 <= p <= 8
  {
    match op
    case Lor => 3
    case Land => 4
    case Equal | NotEqual => 5
    case LessThan | GreaterThan | LessOrEqual | GreaterOrEqual => 6
    case Plus | Minus => 7
    case Mult | Divide | Module => 8
  }

  // A parse tree: an expression that remembers its parentheses
  datatype Cst =
    | CNum(n: Word)
    | CVar
    | CNot(arg: Cst)
    | CBin(op: BinOp, left: Cst, right: Cst)
    | CCond(test: Cst, yes: Cst, no: Cst)
    | CParen(inner: Cst)

  const UNARY: nat := 9

  function Level(c: Cst): nat {
    match c
    case CCond(_, _, _) => 1
    case CBin(op, _, _) => Prec(op)
    case _ => UNARY
  }

  // c obeys the precedence and associativity of C
  ghost predicate Conforms(c: Cst) {
    match c
    case CNum(_) => true
    case CVar => true
    case CNot(a) => Conforms(a) && Level(a) == UNARY
    case CBin(op, l, r) => Conforms(l) && Conforms(r) && Level(l) >= Prec(op) && Level(r) > Prec(op)
    case CCond(t, y, n) => Conforms(t) && Conforms(y) && Conforms(n) && Level(t) > 1
    case CParen(i) => Conforms(i)
  }

  function Yield(c: Cst): (ts: seq<Token>)
    ensures |ts| > 0
  {
    match c
    case CNum(n) => [NUMBER(n)]
    case CVar => [VAR]
    case CNot(a) => [NOT] + Yield(a)
    case CBin(op, l, r) => Yield(l) + [OP(op)] + Yield(r)
    case CCond(t, y, n) => Yield(t) + [QUESTION] + Yield(y) + [COLON] + Yield(n)
    case CParen(i) => [LPAREN] + Yield(i) + [RPAREN]
  }

  // Dropping the parentheses leaves the expression
  function Strip(c: Cst): Expr {
    match c
    case CNum(n) => Num(n)
    case CVar => Var
    case CNot(a) => Lnot(Strip(a))
    case CBin(op, l, r) => Bin(op, Strip(l), Strip(r))
    case CCond(t, y, n) => Qmop(Strip(t), Strip(y), Strip(n))
    case CParen(i) => Strip(i)
  }

  // ---------------------------------------------------------------
  // Minimal parentheses

  // The parse tree of e, parenthesised only if it binds less tightly than k
  function Wrap(k: nat, c: Cst): Cst {
    if Level(c) >= k then c else CParen(c)
  }

  function Bare(e: Expr): Cst {
    match e
    case Var => CVar
    case Num(n) => CNum(n)
    case Lnot(a) => CNot(Wrap(UNARY, Bare(a)))
    case Bin(op, l, r) => CBin(op, Wrap(Prec(op), Bare(l)), Wrap(Prec(op) + 1, Bare(r)))
    case Qmop(t, y, n) => CCond(Wrap(2, Bare(t)), Bare(y), Bare(n))
  }

  lemma WrapConforms(k: nat, c: Cst)
    requires Conforms(c) && k <= UNARY
    ensures Conforms(Wrap(k, c)) && Strip(Wrap(k, c)) == Strip(c) && Level(Wrap(k, c)) >= k
  {
  }

  lemma {:induction false} BareConforms(e: Expr)
    ensures Conforms(Bare(e)) && Strip(Bare(e)) == e
  {
    hide Wrap;
    match e
    case Var =>
    case Num(n) =>
    case Lnot(a) =>
      BareConforms(a);
      WrapConforms(UNARY, Bare(a));
    case Bin(op, l, r) =>
      BareConforms(l);
      BareConforms(r);
      WrapConforms(Prec(op), Bare(l));
      WrapConforms(Prec(op) + 1, Bare(r));
    case Qmop(t, y, n) =>
      BareConforms(t);
      BareConforms(y);
      BareConforms(n);
      WrapConforms(2, Bare(t));
  }

  // No conforming tree for the same expression is shorter than the bare one
  lemma {:induction false} BareIsMinimal(c: Cst, k: nat)
    requires Conforms(c) && k <= Level(c)
    ensures |Yield(Wrap(k, Bare(Strip(c))))| <= |Yield(c)|
  {
    match c
    case CNum(n) =>
    case CVar =>
    case CNot(a) => BareIsMinimal(a, UNARY);
    case CBin(op, l, r) => BareIsMinimal(l, Prec(op)); BareIsMinimal(r, Prec(op) + 1);
    case CCond(t, y, n) => BareIsMinimal(t, 2); BareIsMinimal(y, 1); BareIsMinimal(n, 1);
    case CParen(i) => BareIsMinimal(i, 1);
  }

  // ---------------------------------------------------------------
  // A recursive-descent reader over any algebra of meanings

  datatype Algebra<!V> = Algebra(
    num: Word -> V,
    v: V,
    lnot: V -> V,
    bin: (BinOp, V, V) -> V,
    cond: (V, V, V) -> V,
    paren: V -> V)

  function Fold<V>(alg: Algebra<V>, c: Cst): V {
    match c
    case CNum(n) => alg.num(n)
    case CVar => alg.v
    case CNot(a) => alg.lnot(Fold(alg, a))
    case CBin(op, l, r) => alg.bin(op, Fold(alg, l), Fold(alg, r))
    case CCond(t, y, n) => alg.cond(Fold(alg, t), Fold(alg, y), Fold(alg, n))
    case CParen(i) => alg.paren(Fold(alg, i))
  }

  // conditional-expression (section 6.5.15 of ISO C99)
  function Conditional<V>(alg: Algebra<V>, ts: seq<Token>): (r: Option<(V, seq<Token>)>)
    ensures r.Some? ==> |r.value.1| < |ts|
    decreases |ts|, 20
  {
    var (t, s) :- Operands(alg, 3, ts);
    if s == [] || s[0] != QUESTION then Some((t, s))
    else
      var (y, u) :- Conditional(alg, s[1..]);
      if u == [] || u[0] != COLON then None
      else
        var (n, w) :- Conditional(alg, u[1..]);
        Some((alg.cond(t, y, n), w))
  }

  // The binary operators of level k and tighter (sections 6.5.5 to 6.5.14)
  function Operands<V>(alg: Algebra<V>, k: nat, ts: seq<Token>): (r: Option<(V, seq<Token>)>)
    requires 3 <= k <= UNARY
    ensures r.Some? ==> |r.value.1| < |ts|
    decreases |ts|, 10 + UNARY - k
  {
    if k == UNARY then Unary(alg, ts)
    else
      var (v, s) :- Operands(alg, k + 1, ts);
      Chain(alg, k, v, s)
  }

  // The rest of a left-associative chain of operators of level k
  function Chain<V>(alg: Algebra<V>, k: nat, left: V, ts: seq<Token>): (r: Option<(V, seq<Token>)>)
    requires 3 <= k <= UNARY
    ensures r.Some? ==> |r.value.1| <= |ts|
    decreases |ts|, 0
  {
    if ts == [] || !ts[0].OP? || Prec(ts[0].op) != k then Some((left, ts))
    else
      var (right, s) :- Operands(alg, k + 1, ts[1..]);
      Chain(alg, k, alg.bin(ts[0].op, left, right), s)
  }

  // unary-expression and primary-expression (sections 6.5.3.3 and 6.5.1)
  function Unary<V>(alg: Algebra<V>, ts: seq<Token>): (r: Option<(V, seq<Token>)>)
    ensures r.Some? ==> |r.value.1| < |ts|
    decreases |ts|, 1
  {
    if ts == [] then None
    else
      match ts[0]
      case NUMBER(n) => Some((alg.num(n), ts[1..]))
      case VAR => Some((alg.v, ts[1..]))
      case NOT =>
        var (a, s) :- Unary(alg, ts[1..]);
        Some((alg.lnot(a), s))
      case LPAREN =>
        var (i, s) :- Conditional(alg, ts[1..]);
        if s == [] || s[0] != RPAREN then None else Some((alg.paren(i), s[1..]))
      case _ => None
  }

  function Next(ts: seq<Token>): Token {
    if ts == [] then END else ts[0]
  }

  lemma ChainReadsYield<V>(alg: Algebra<V>, c: Cst, rest: seq<Token>)
    requires Conforms(c) && c.CBin? && Binding(Next(rest)) <= Prec(c.op)
    ensures Operands(alg, Prec(c.op), Yield(c) + rest) == Chain(alg, Prec(c.op), Fold(alg, c), rest)
    decreases c, 0
  {
    var k, s := Prec(c.op), Yield(c.right) + rest;
    var tail := [OP(c.op)] + s;
    AssociateFour(Yield(c.left), [OP(c.op)], Yield(c.right), rest);
    OperandsReadYield(alg, c.left, k, tail);
    assert tail[1..] == s;
    OperandsReadYield(alg, c.right, k + 1, rest);
    assert Chain(alg, k + 1, Fold(alg, c.right), rest) == Some((Fold(alg, c.right), rest));
  }

  lemma UnaryReadsYield<V>(alg: Algebra<V>, c: Cst, rest: seq<Token>)
    requires Conforms(c) && Level(c) == UNARY
    ensures Unary(alg, Yield(c) + rest) == Some((Fold(alg, c), rest))
    decreases c, 0
  {
    match c
    case CNum(_) =>
    case CVar =>
    case CNot(a) =>
      assert (Yield(c) + rest)[1..] == Yield(a) + rest;
      UnaryReadsYield(alg, a, rest);
    case CParen(i) =>
      assert (Yield(c) + rest)[1..] == Yield(i) + ([RPAREN] + rest);
      ConditionalReadsYield(alg, i, [RPAREN] + rest);
      assert ([RPAREN] + rest)[1..] == rest;
  }

  // Reading the yield of a conforming tree computes the fold over that tree
  lemma {:induction false} OperandsReadYield<V>(alg: Algebra<V>, c: Cst, k: nat, rest: seq<Token>)
    requires Conforms(c) && 3 <= k <= Level(c) && Binding(Next(rest)) <= k
    ensures Operands(alg, k, Yield(c) + rest) == Chain(alg, k, Fold(alg, c), rest)
    decreases c, 1 + UNARY - k
  {
    if k < Level(c) {
      OperandsReadYield(alg, c, k + 1, rest);
      assert Chain(alg, k + 1, Fold(alg, c), rest) == Some((Fold(alg, c), rest));
    } else if c.CBin? {
      ChainReadsYield(alg, c, rest);
    } else {
      UnaryReadsYield(alg, c, rest);
      assert Chain(alg, UNARY, Fold(alg, c), rest) == Some((Fold(alg, c), rest));
    }
  }

  lemma ConditionalOf<V>(alg: Algebra<V>, ts: seq<Token>, t: V, y: V, n: V,
                         s1: seq<Token>, s2: seq<Token>, rest: seq<Token>)
    requires Operands(alg, 3, ts) == Some((t, [QUESTION] + s1))
    requires Conditional(alg, s1) == Some((y, [COLON] + s2))
    requires Conditional(alg, s2) == Some((n, rest))
    ensures Conditional(alg, ts) == Some((alg.cond(t, y, n), rest))
  {
    assert ([QUESTION] + s1)[1..] == s1 && ([COLON] + s2)[1..] == s2;
  }

  lemma ChoiceReadsYield<V>(alg: Algebra<V>, c: Cst, rest: seq<Token>)
    requires Conforms(c) && c.CCond? && Binding(Next(rest)) == 0
    ensures Conditional(alg, Yield(c) + rest) == Some((Fold(alg, c), rest))
    decreases c, UNARY + 1
  {
    var s2 := Yield(c.no) + rest;
    var s1 := Yield(c.yes) + ([COLON] + s2);
    OperandsReadYield(alg, c.test, 3, [QUESTION] + s1);
    ConditionalReadsYield(alg, c.yes, [COLON] + s2);
    ConditionalReadsYield(alg, c.no, rest);
    AssociateSix(Yield(c.test), [QUESTION], Yield(c.yes), [COLON], Yield(c.no), rest);
    ConditionalOf(alg, Yield(c.test) + ([QUESTION] + s1), Fold(alg, c.test), Fold(alg, c.yes), Fold(alg, c.no), s1,
                  s2, rest);
  }

  lemma {:induction false} ConditionalReadsYield<V>(alg: Algebra<V>, c: Cst, rest: seq<Token>)
    requires Conforms(c) && Binding(Next(rest)) == 0
    ensures Conditional(alg, Yield(c) + rest) == Some((Fold(alg, c), rest))
    decreases c, UNARY + 2
  {
    if c.CCond? {
      ChoiceReadsYield(alg, c, rest);
    } else {
      OperandsReadYield(alg, c, 3, rest);
      assert Chain(alg, 3, Fold(alg, c), rest) == Some((Fold(alg, c), rest));
    }
  }

  // ---------------------------------------------------------------
  // Two instances: parse trees, and unsigned C values

  const TREES: Algebra<Cst> := Algebra(
    n => CNum(n), CVar, a => CNot(a), (op, l, r) => CBin(op, l, r),
    (t, y, n) => CCond(t, y, n), i => CParen(i))

  lemma {:induction false} FoldTreesIsIdentity(c: Cst)
    ensures Fold(TREES, c) == c
  {
    match c
    case CNum(_) =>
    case CVar =>
    case CNot(a) => FoldTreesIsIdentity(a);
    case CBin(op, l, r) => FoldTreesIsIdentity(l); FoldTreesIsIdentity(r);
    case CCond(t, y, n) => FoldTreesIsIdentity(t); FoldTreesIsIdentity(y); FoldTreesIsIdentity(n);
    case CParen(i) => FoldTreesIsIdentity(i);
  }

  // The grammar is unambiguous: the tokens determine the conforming tree
  lemma Unambiguous(c: Cst, d: Cst)
    requires Conforms(c) && Conforms(d) && Yield(c) == Yield(d)
    ensures c == d
  {
    ConditionalReadsYield(TREES, c, []);
    ConditionalReadsYield(TREES, d, []);
    assert Yield(c) + [] == Yield(d) + [];
    FoldTreesIsIdentity(c);
    FoldTreesIsIdentity(d);
  }

  // C semantics of an operator on two operand values; an operand whose
  // evaluation divides by zero is None and matters only if C evaluates it
  function BinaryValue(op: BinOp, x: Option<Word>, y: Option<Word>): Option<Word> {
    match (op, x, y)
    case (_, None, _) => None
    case (Land, Some(a), y) => if a == 0 then Some(0) else TruthOf(y)
    case (Lor, Some(a), y) => if a != 0 then Some(1) else TruthOf(y)
    case (_, Some(_), None) => None
    case (op, Some(a), Some(b)) => Compute(op, a, b)
  }

  function TruthOf(x: Option<Word>): Option<Word> {
    match x
    case None => None
    case Some(a) => Some(Truth(a != 0))
  }

  function Values(n: Word): Algebra<Option<Word>> {
    Algebra(
      k => Some(k),
      Some(n),
      (x: Option<Word>) => if x.None? then None else Some(Truth(x.value == 0)),
      (op, x, y) => BinaryValue(op, x, y),
      (t: Option<Word>, y: Option<Word>, z: Option<Word>) => if t.None? then None else if t.value != 0 then y else z,
      x => x)
  }

  // The C value of a token text for the variable n: the tokens are read once,
  // left to right, and no tree is built.  The outer None is a syntax error, the
  // inner one a division by zero.
  function TokenValue(ts: seq<Token>, n: Word): Option<Option<Word>> {
    var (v, rest) :- Conditional(Values(n), ts);
    if rest == [] then Some(v) else None
  }

  lemma {:induction false} FoldValuesIsEval(c: Cst, n: Word)
    ensures Fold(Values(n), c) == PluralEval(Strip(c), n)
  {
    match c
    case CNum(_) =>
    case CVar =>
    case CNot(a) => FoldValuesIsEval(a, n);
    case CBin(op, l, r) => FoldValuesIsEval(l, n); FoldValuesIsEval(r, n);
    case CCond(t, y, z) => FoldValuesIsEval(t, n); FoldValuesIsEval(y, n); FoldValuesIsEval(z, n);
    case CParen(i) => FoldValuesIsEval(i, n);
  }

  // plural_eval of the tree is the C value of the tree's tokens
  lemma EvalIsTokenValue(c: Cst, n: Word)
    requires Conforms(c)
    ensures TokenValue(Yield(c), n) == Some(PluralEval(Strip(c), n))
  {
    ConditionalReadsYield(Values(n), c, []);
    assert Yield(c) + [] == Yield(c);
    FoldValuesIsEval(c, n);
  }
}
