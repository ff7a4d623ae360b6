// Whole runs of the parser machine: they end, what they accept is exactly the
// precedence grammar, and how high the stack grows is known in advance.
module PluralRuns {
  import opened Words
  import opened Sequences
  import opened PluralExp
  import opened PluralGrammar
  import opened PluralTables
  import opened PluralMachine

  ghost predicate Valid(c: Config) {
    exists sy :: Inv(c, sy)
  }

  function Phase(s: State): nat {
    if s == 26 then 0 else if s == 25 then 1 else 2
  }

  function Weight(st: Stack): nat {
    2 * Height(st) + if Top(st) == 2 || Top(st) == 3 then 1 else 0
  }

  ghost predicate Lower(c': Config, c: Config) {
    || |c'.rest| < |c.rest|
    || (c'.rest == c.rest && Phase(Top(c'.stack)) < Phase(Top(c.stack)))
    || (c'.rest == c.rest && Phase(Top(c'.stack)) == Phase(Top(c.stack)) && Weight(c'.stack) < Weight(c.stack))
  }

  lemma PopLowers(st: Stack, k: nat)
    requires Height(st) > k
    ensures Height(Pop(st, k)) == Height(st) - k
  {
  }

  lemma BuiltLowers(c: Config, sy: Syms, rule: Rule, st: Stack, below: Syms, tree: Cst)
    requires c.rest != [] && Builds(c.stack, sy, c.rest[0], rule, st, below, tree)
    requires Phase(Top(c.stack)) == 2 && (Arity(rule) == 1 ==> Top(c.stack) == 2 || Top(c.stack) == 3)
    ensures Lower(Push(c.(stack := st), GotoExp(Top(st)), ExpVal(Strip(tree))), c)
  {
    PopLowers(c.stack, Arity(rule));
  }

  lemma ReduceKeeps(c: Config, sy: Syms, rule: Rule) returns (sy': Syms)
    requires Inv(c, sy) && Decide(Top(c.stack), YyTranslate(Code(c.rest[0]))) == Reduce(rule)
    ensures Reduction(c, rule).Running?
    ensures Inv(Reduction(c, rule).c, sy') && Lower(Reduction(c, rule).c, c)
    ensures Flat(sy') == Flat(sy) && Reduction(c, rule).c.rest == c.rest
  {
    var la := c.rest[0];
    TopIsReachable(c.stack, sy);
    ReduceMeans(Top(c.stack), la, rule);
    if rule == 1 {
      ReduceStart(c, sy);
      sy' := Over(sy.below, S(sy.sym.c));
    } else {
      var st, below, tree;
      if rule == 2 {
        st, below, tree := ReduceConditional(c.stack, sy, la);
      } else if rule <= 8 {
        st, below, tree := ReduceBinary(c.stack, sy, la, rule);
      } else if rule == 9 {
        st, below, tree := ReduceNot(c.stack, sy, la);
      } else if rule == 12 {
        st, below, tree := ReduceParens(c.stack, sy, la);
      } else {
        st, below, tree := ReduceAtom(c.stack, sy, la, rule);
      }
      BuiltKeeps(c, sy, rule, st, below, tree);
      BuiltLowers(c, sy, rule, st, below, tree);
      sy' := Over(below, E(tree));
    }
  }

  // The decision in a reachable configuration
  function Move(c: Config): Move
    requires c.rest != [] && Top(c.stack) < 27
  {
    Decide(Top(c.stack), YyTranslate(Code(c.rest[0])))
  }

  lemma ShiftLowers(c: Config, to: State)
    requires c.rest != [] && Top(c.stack) < 27 && Move(c) == Shift(to)
    requires to == 26 <==> c.rest[0] == END
    ensures Lower(DoShift(c, to), c)
  {
  }

  // Every step makes progress and stays within the reachable configurations,
  // the symbols on the stack and the tokens to come still spell the input, and
  // no action ever finds a value of the wrong kind
  lemma StepSpells(c: Config, sy: Syms) returns (sy': Syms)
    requires Inv(c, sy)
    ensures Top(c.stack) < 27
    ensures Step(c) == match Move(c)
                       case Shift(to) => Running(DoShift(c, to))
                       case Reduce(rule) => Reduction(c, rule)
                       case Accept => Accepted
                       case Error => SyntaxError
    ensures Step(c) != Stuck
    ensures Step(c).Running? ==>
              && Inv(Step(c).c, sy') && Lower(Step(c).c, c)
              && Flat(sy') + Step(c).c.rest == Flat(sy) + c.rest
  {
    TopIsReachable(c.stack, sy);
    TablesArePrecedence(Top(c.stack), YyTranslate(Code(c.rest[0])));
    match Move(c) {
      case Shift(to) =>
        ShiftKeeps(c, sy, to);
        ShiftLowers(c, to);
        sy' := Over(sy, T(c.rest[0]));
      case Reduce(rule) => sy' := ReduceKeeps(c, sy, rule);
      case _ => sy' := sy;
    }
  }

  lemma StepKeeps(c: Config)
    requires Valid(c)
    ensures c.rest != [] && Top(c.stack) < 27
    ensures Step(c) == match Move(c)
                       case Shift(to) => Running(DoShift(c, to))
                       case Reduce(rule) => Reduction(c, rule)
                       case Accept => Accepted
                       case Error => SyntaxError
    ensures Step(c) != Stuck
    ensures Step(c).Running? ==> Valid(Step(c).c) && Lower(Step(c).c, c)
  {
    var sy :| Inv(c, sy);
    var sy' := StepSpells(c, sy);
  }

  datatype Final = Final(accepted: bool, res: Option<Expr>, deep: bool)

  // The run from c to its end.  It exists for every token sequence.
  ghost function Run(c: Config): Final
    requires Valid(c)
    decreases |c.rest|, Phase(Top(c.stack)), Weight(c.stack)
  {
    StepKeeps(c);
    match Step(c)
    case Running(c') => Run(c')
    case outcome => Final(outcome.Accepted?, c.res, c.deep)
  }

  lemma StartIsValid(ts: seq<Token>)
    requires Stream(ts)
    ensures Valid(Start(ts))
  {
    assert Inv(Start(ts), Empty);
  }

  ghost function Parse(ts: seq<Token>): Final
    requires Stream(ts)
  {
    StartIsValid(ts);
    Run(Start(ts))
  }

  lemma {:induction false} DeepStaysDeep(c: Config)
    requires Valid(c) && c.deep
    ensures Run(c).deep
    decreases |c.rest|, Phase(Top(c.stack)), Weight(c.stack)
  {
    StepKeeps(c);
    if Step(c).Running? {
      DeepStaysDeep(Step(c).c);
    }
  }

  // ---------------------------------------------------------------
  // Soundness

  lemma AcceptedShape(c: Config, sy: Syms)
    requires Inv(c, sy) && Top(c.stack) == 26
    ensures sy.Over? && sy.below.Over? && sy.below.sym.S? && Conforms(sy.below.sym.c)
    ensures Flat(sy) == Yield(sy.below.sym.c) && c.rest == [END]
    ensures c.res == Some(Strip(sy.below.sym.c))
  {
    var st1, sy1 := c.stack.below, sy.below;
    assert StackOk(st1, sy1) && Top(st1) == 25;
    assert StackOk(st1.below, sy1.below) && Top(st1.below) == 0;
    assert sy1.below.Empty?;
    assert Flat(sy1) == Yield(sy1.sym.c);
    assert Flat(sy) == Flat(sy1) + [];
    assert |c.rest| == 1;
  }

  lemma {:induction false} RunIsSound(c: Config, sy: Syms) returns (t: Cst)
    requires Inv(c, sy) && Run(c).accepted
    ensures Conforms(t) && Flat(sy) + c.rest == Yield(t) + [END] && Run(c).res == Some(Strip(t))
    decreases |c.rest|, Phase(Top(c.stack)), Weight(c.stack)
  {
    var sy' := StepSpells(c, sy);
    if Step(c).Running? {
      t := RunIsSound(Step(c).c, sy');
    } else {
      assert Move(c) == Accept;
      AcceptedShape(c, sy);
      t := sy.below.sym.c;
    }
  }

  // Only conforming texts are accepted, and the result is the expression they spell
  lemma ParseIsSound(ts: seq<Token>) returns (t: Cst)
    requires Stream(ts) && Parse(ts).accepted
    ensures Conforms(t) && ts == Yield(t) + [END] && Parse(ts).res == Some(Strip(t))
  {
    StartIsValid(ts);
    t := RunIsSound(Start(ts), Empty);
    assert Flat(Empty) + ts == ts;
  }

  // ---------------------------------------------------------------
  // Completeness

  // How many entries the stack gains at most while t is being read
  function Need(t: Cst): (n: nat)
    ensures n >= 1
  {
    match t
    case CNum(_) => 1
    case CVar => 1
    case CNot(a) => 1 + Need(a)
    case CBin(_, l, r) => Max(Need(l), 2 + Need(r))
    case CCond(a, y, n) => Max(Need(a), Max(2 + Need(y), 4 + Need(n)))
    case CParen(i) => Max(3, 1 + Need(i))
  }

  // yylval after reading several tokens
  function StoreAll(ts: seq<Token>, v: SemVal): SemVal {
    if ts == [] then v else StoreAll(ts[1..], Store(ts[0], v))
  }

  lemma {:induction false} StoreAllAppends(a: seq<Token>, b: seq<Token>, v: SemVal)
    ensures StoreAll(a + b, v) == StoreAll(b, StoreAll(a, v))
    decreases a
  {
    if a == [] {
      assert a + b == b;
    } else {
      assert (a + b)[1..] == a[1..] + b;
      StoreAllAppends(a[1..], b, Store(a[0], v));
    }
  }

  lemma StoreOne(t: Token, b: seq<Token>, v: SemVal)
    ensures StoreAll([t] + b, v) == StoreAll(b, Store(t, v))
  {
    assert ([t] + b)[1..] == b;
  }

  // The configuration reached from c once t has been read and reduced
  function Having(c: Config, t: Cst, more: seq<Token>): Config
    requires IsPrefix(Top(c.stack))
  {
    Config(On(c.stack, GotoExp(Top(c.stack)), ExpVal(Strip(t))), more, StoreAll(Yield(t), c.lval),
           c.deep || Height(c.stack) + Need(t) >= YYMAXDEPTH, c.res)
  }

  // The tokens from c on are those of t and then 'more', which cannot extend t
  ghost predicate Spells(c: Config, t: Cst, more: seq<Token>) {
    && c.rest == Yield(t) + more && more != []
    && Conforms(t) && IsPrefix(Top(c.stack)) && Level(t) > Context(GotoExp(Top(c.stack)))
    && Binding(more[0]) <= Level(t)
    && (t.CCond? ==> Binding(more[0]) == 0)
  }

  // The same machine driven by the precedence rules instead of the tables
  function Advance(c: Config): Option<Config> {
    if c.rest == [] || Top(c.stack) >= 27 then None
    else
      match Move(c)
      case Shift(to) => Some(DoShift(c, to))
      case Reduce(rule) =>
        var st := Pop(c.stack, Arity(rule));
        var v :- Action(rule, c.stack);
        if rule == 1 || Height(c.stack) <= Arity(rule) || !IsPrefix(Top(st)) then None
        else Some(Push(c.(stack := st), GotoExp(Top(st)), v))
      case _ => None
  }

  // P is kept by every step
  ghost predicate Kept(P: Config -> bool) {
    forall c {:trigger Advance(c)} :: P(c) && Advance(c).Some? ==> P(Advance(c).value)
  }

  lemma AdvanceIsStep(c: Config, c': Config)
    requires Valid(c) && Advance(c) == Some(c')
    ensures Step(c) == Running(c')
  {
    StepKeeps(c);
    match Move(c)
    case Reduce(rule) =>
      ReductionGives(c, rule, Pop(c.stack, Arity(rule)), Action(rule, c.stack).value);
    case _ =>
  }

  lemma ShiftStep(P: Config -> bool, c: Config, t: Token, rest: seq<Token>, to: State) returns (c': Config)
    requires Kept(P) && P(c) && c.rest == [t] + rest && Top(c.stack) < 27
    requires Decide(Top(c.stack), YyTranslate(Code(t))) == Shift(to) && t != END
    ensures c' == Push(c.(rest := rest, lval := Store(t, c.lval)), to, Store(t, c.lval))
    ensures P(c')
  {
    c' := Push(c.(rest := rest, lval := Store(t, c.lval)), to, Store(t, c.lval));
    assert c.rest[1..] == rest;
    assert Advance(c) == Some(c');
  }

  lemma ReduceStep(P: Config -> bool, c: Config, rule: Rule, st: Stack, v: SemVal) returns (c': Config)
    requires Kept(P) && P(c) && c.rest != [] && Top(c.stack) < 27
    requires Move(c) == Reduce(rule) && rule != 1
    requires Action(rule, c.stack) == Some(v) && Height(c.stack) > Arity(rule)
    requires st == Pop(c.stack, Arity(rule)) && IsPrefix(Top(st))
    ensures c' == Push(c.(stack := st), GotoExp(Top(st)), v)
    ensures P(c')
  {
    c' := Push(c.(stack := st), GotoExp(Top(st)), v);
    assert Advance(c) == Some(c');
  }

  // What the machine does in the situations that reading an expression goes through
  lemma MoveOnStart(s: State, t: Token)
    requires IsPrefix(s)
    ensures Decide(s, YyTranslate(Code(t))) ==
            match t
            case NUMBER(_) => Shift(2)
            case VAR => Shift(3)
            case NOT => Shift(1)
            case LPAREN => Shift(4)
            case _ => Error
  {
  }

  lemma MoveOnInfix(s: State, t: Token)
    requires IsExpState(s) && Binding(t) > Context(s)
    ensures Decide(s, YyTranslate(Code(t))) == Shift(Binding(t) + 6)
  {
    BindingIsSymbol(t);
  }

  lemma MoveAfterOperator(s: State, t: Token)
    requires 17 <= s <= 22 && Binding(t) <= Context(s)
    ensures Decide(s, YyTranslate(Code(t))) == Reduce(s - 14)
  {
    BindingIsSymbol(t);
  }

  lemma MoveAfterLast(s: State, t: Token)
    requires s == 6 || (s == 24 && Binding(t) == 0)
    ensures Decide(s, YyTranslate(Code(t))) == if s == 6 then Reduce(9) else Reduce(2)
  {
    BindingIsSymbol(t);
    BindingIsSmall(t);
  }

  lemma ReadsAtom(P: Config -> bool, c: Config, t: Cst, more: seq<Token>)
    requires Kept(P) && P(c) && Spells(c, t, more) && (t.CNum? || t.CVar?)
    ensures P(Having(c, t, more))
  {
    var tok := Yield(t)[0];
    MoveOnStart(Top(c.stack), tok);
    var c1 := ShiftStep(P, c, tok, more, if t.CVar? then 3 else 2);
    assert Pop(c1.stack, 1) == c.stack;
    var last := ReduceStep(P, c1, if t.CVar? then 10 else 11, c.stack, ExpVal(Strip(t)));
    StoreOne(tok, [], c.lval);
    assert [tok] + [] == Yield(t);
    assert last == Having(c, t, more);
  }

  lemma ReadsNot(P: Config -> bool, c: Config, t: Cst, more: seq<Token>)
    requires Kept(P) && P(c) && Spells(c, t, more) && t.CNot?
    ensures P(Having(c, t, more))
    decreases t, 0
  {
    var rest := Yield(t.arg) + more;
    assert c.rest == [NOT] + rest;
    MoveOnStart(Top(c.stack), NOT);
    var c1 := ShiftStep(P, c, NOT, rest, 1);
    Reads(P, c1, t.arg, more);
    var c2 := Having(c1, t.arg, more);
    MoveAfterLast(6, more[0]);
    TopThree(c2.stack);
    var last := ReduceStep(P, c2, 9, c.stack, ExpVal(Strip(t)));
    StoreOne(NOT, Yield(t.arg), c.lval);
    assert last == Having(c, t, more);
  }

  lemma ReadsParens(P: Config -> bool, c: Config, t: Cst, more: seq<Token>)
    requires Kept(P) && P(c) && Spells(c, t, more) && t.CParen?
    ensures P(Having(c, t, more))
    decreases t, 0
  {
    var tail := [RPAREN] + more;
    var rest := Yield(t.inner) + tail;
    assert c.rest == [LPAREN] + rest;
    MoveOnStart(Top(c.stack), LPAREN);
    var c1 := ShiftStep(P, c, LPAREN, rest, 4);
    Reads(P, c1, t.inner, tail);
    var c2 := Having(c1, t.inner, tail);
    var c3 := ShiftStep(P, c2, RPAREN, more, 15);
    TopThree(c3.stack);
    var last := ReduceStep(P, c3, 12, c.stack, ExpVal(Strip(t)));
    StoreParens(t.inner, c.lval);
    assert last == Having(c, t, more);
  }

  lemma StoreParens(i: Cst, v: SemVal)
    ensures StoreAll(Yield(CParen(i)), v) == StoreAll(Yield(i), v)
  {
    StoreAllAppends([LPAREN] + Yield(i), [RPAREN], v);
    StoreOne(LPAREN, Yield(i), v);
    StoreOne(RPAREN, [], StoreAll(Yield(i), v));
    assert [RPAREN] + [] == [RPAREN];
  }

  // The configuration after the operator
  function BeforeRight(c: Config, t: Cst, more: seq<Token>): Config
    requires t.CBin? && IsPrefix(Top(c.stack))
  {
    var rest := Yield(t.right) + more;
    var c1 := Having(c, t.left, [OP(t.op)] + rest);
    var lval := Store(OP(t.op), c1.lval);
    Push(c1.(rest := rest, lval := lval), Prec(t.op) + 6, lval)
  }

  lemma ReadsToRight(P: Config -> bool, c: Config, t: Cst, more: seq<Token>)
    requires Kept(P) && P(c) && Spells(c, t, more) && t.CBin?
    ensures P(BeforeRight(c, t, more))
    decreases t, 0
  {
    hide StoreAll, Valid;
    var rest := Yield(t.right) + more;
    var tail := [OP(t.op)] + rest;
    assert c.rest == Yield(t.left) + tail;
    Reads(P, c, t.left, tail);
    var c1 := Having(c, t.left, tail);
    MoveOnInfix(Top(c1.stack), OP(t.op));
    var c2 := ShiftStep(P, c1, OP(t.op), rest, Prec(t.op) + 6);
  }

  lemma ReadsBinary(P: Config -> bool, c: Config, t: Cst, more: seq<Token>)
    requires Kept(P) && P(c) && Spells(c, t, more) && t.CBin?
    ensures P(Having(c, t, more))
    decreases t, 1
  {
    hide StoreAll, Valid;
    ReadsToRight(P, c, t, more);
    var c2 := BeforeRight(c, t, more);
    Reads(P, c2, t.right, more);
    var c3 := Having(c2, t.right, more);
    MoveAfterOperator(Prec(t.op) + 14, more[0]);
    BinaryAction(c.stack, t, c3.stack, Having(c, t.left, [OP(t.op)] + (Yield(t.right) + more)).lval);
    var last := ReduceStep(P, c3, Prec(t.op), c.stack, ExpVal(Strip(t)));
    StoreBinary(t, c.lval);
    assert last == Having(c, t, more);
  }

  lemma StoreBinary(t: Cst, v: SemVal)
    requires t.CBin?
    ensures StoreAll(Yield(t), v) == StoreAll(Yield(t.right), Store(OP(t.op), StoreAll(Yield(t.left), v)))
  {
    StoreAllAppends(Yield(t.left) + [OP(t.op)], Yield(t.right), v);
    StoreAllAppends(Yield(t.left), [OP(t.op)], v);
    StoreOne(OP(t.op), [], StoreAll(Yield(t.left), v));
    assert [OP(t.op)] + [] == [OP(t.op)];
  }

  lemma BinaryAction(st: Stack, t: Cst, top: Stack, lval: SemVal)
    requires t.CBin?
    requires top.On? && top.below.On? && top.below.below.On?
    requires top.v == ExpVal(Strip(t.right)) && top.below.below.v == ExpVal(Strip(t.left))
    requires top.below.v == Store(OP(t.op), lval)
    requires top.below.below.below == st
    ensures Action(Prec(t.op), top) == Some(ExpVal(Strip(t)))
    ensures Height(top) > 3 && Pop(top, 3) == st
  {
    TopThree(top);
    OperatorOfLevel(t.op);
  }

  lemma NeedConditional(t: Cst, h: nat)
    requires t.CCond?
    ensures h + Need(t) >= YYMAXDEPTH <==>
            || h + Need(t.test) >= YYMAXDEPTH
            || h + 2 + Need(t.yes) >= YYMAXDEPTH
            || h + 4 + Need(t.no) >= YYMAXDEPTH
  {
  }

  // The configurations after the question mark and after the colon
  function BeforeThen(c: Config, t: Cst, rest: seq<Token>): Config
    requires t.CCond? && IsPrefix(Top(c.stack))
  {
    var c1 := Having(c, t.test, [QUESTION] + rest);
    Push(c1.(rest := rest), 8, c1.lval)
  }

  function BeforeElse(c: Config, t: Cst, more: seq<Token>): Config
    requires t.CCond? && IsPrefix(Top(c.stack))
  {
    var rest := Yield(t.no) + more;
    var c3 := Having(BeforeThen(c, t, Yield(t.yes) + ([COLON] + rest)), t.yes, [COLON] + rest);
    Push(c3.(rest := rest), 23, c3.lval)
  }

  lemma ReadsToThen(P: Config -> bool, c: Config, t: Cst, rest: seq<Token>)
    requires Kept(P) && P(c) && t.CCond? && Spells(c, t.test, [QUESTION] + rest)
    requires Context(GotoExp(Top(c.stack))) == 0
    ensures P(BeforeThen(c, t, rest))
    decreases t, 0
  {
    Reads(P, c, t.test, [QUESTION] + rest);
    var c1 := Having(c, t.test, [QUESTION] + rest);
    MoveOnInfix(Top(c1.stack), QUESTION);
    var c2 := ShiftStep(P, c1, QUESTION, rest, 8);
  }

  lemma ReadsToElse(P: Config -> bool, c: Config, t: Cst, more: seq<Token>)
    requires Kept(P) && P(c) && Spells(c, t, more) && t.CCond?
    ensures P(BeforeElse(c, t, more))
    decreases t, 1
  {
    var rest2 := Yield(t.no) + more;
    var rest1 := Yield(t.yes) + ([COLON] + rest2);
    AssociateSix(Yield(t.test), [QUESTION], Yield(t.yes), [COLON], Yield(t.no), more);
    ReadsToThen(P, c, t, rest1);
    var c2 := BeforeThen(c, t, rest1);
    Reads(P, c2, t.yes, [COLON] + rest2);
    var c3 := Having(c2, t.yes, [COLON] + rest2);
    var c4 := ShiftStep(P, c3, COLON, rest2, 23);
  }

  lemma BeforeElseIs(c: Config, t: Cst, more: seq<Token>)
    requires t.CCond? && IsPrefix(Top(c.stack))
    ensures var c4 := BeforeElse(c, t, more);
            && c4.stack.On? && c4.stack.s == 23 && c4.stack.below.On? && c4.stack.below.s == 16
            && c4.stack.below.v == ExpVal(Strip(t.yes)) && c4.stack.below.below.On? && c4.stack.below.below.below.On?
            && c4.stack.below.below.below.v == ExpVal(Strip(t.test)) && c4.stack.below.below.below.below == c.stack
            && Height(c4.stack) == Height(c.stack) + 4
            && c4.rest == Yield(t.no) + more && c4.lval == StoreAll(Yield(t.yes), StoreAll(Yield(t.test), c.lval))
            && c4.res == c.res
            && (c4.deep <==>
              || c.deep || Height(c.stack) + Need(t.test) >= YYMAXDEPTH
              || Height(c.stack) + 2 + Need(t.yes) >= YYMAXDEPTH || Height(c.stack) + 4 >= YYMAXDEPTH)
  {
    var c2 := BeforeThen(c, t, Yield(t.yes) + ([COLON] + (Yield(t.no) + more)));
    assert Height(c2.stack) == Height(c.stack) + 2;
    assert Height(BeforeElse(c, t, more).stack) == Height(c2.stack) + 2;
  }

  lemma ReadsConditional(P: Config -> bool, c: Config, t: Cst, more: seq<Token>)
    requires Kept(P) && P(c) && Spells(c, t, more) && t.CCond?
    ensures P(Having(c, t, more))
    decreases t, 2
  {
    ReadsToElse(P, c, t, more);
    BeforeElseIs(c, t, more);
    var c4 := BeforeElse(c, t, more);
    Reads(P, c4, t.no, more);
    var last := ReducesConditional(P, c, t, Having(c4, t.no, more), more);
    StoreConditional(t, c.lval);
    NeedConditional(t, Height(c.stack));
    assert last == Having(c, t, more);
  }

  lemma ReducesConditional(P: Config -> bool, c: Config, t: Cst, c5: Config, more: seq<Token>) returns (last: Config)
    requires Kept(P) && P(c5) && t.CCond? && more != [] && Binding(more[0]) == 0 && IsPrefix(Top(c.stack))
    requires c5.rest == more && Top(c5.stack) == 24
    requires var st := c5.stack;
             && st.On? && st.below.On? && st.below.below.On? && st.below.below.below.On?
             && st.below.below.below.below.On?
             && st.below.below.below.below.below == c.stack && st.v == ExpVal(Strip(t.no))
             && st.below.below.v == ExpVal(Strip(t.yes)) && st.below.below.below.below.v == ExpVal(Strip(t.test))
    ensures last == Push(c5.(stack := c.stack), GotoExp(Top(c.stack)), ExpVal(Strip(t))) && P(last)
  {
    MoveAfterLast(24, more[0]);
    TopFive(c5.stack);
    last := ReduceStep(P, c5, 2, c.stack, ExpVal(Strip(t)));
  }

  lemma StoreConditional(t: Cst, v: SemVal)
    requires t.CCond?
    ensures StoreAll(Yield(t), v) == StoreAll(Yield(t.no), StoreAll(Yield(t.yes), StoreAll(Yield(t.test), v)))
  {
    var a, y := Yield(t.test), Yield(t.yes);
    StoreAllAppends(a + [QUESTION] + y + [COLON], Yield(t.no), v);
    StoreAllAppends(a + [QUESTION] + y, [COLON], v);
    StoreAllAppends(a + [QUESTION], y, v);
    StoreAllAppends(a, [QUESTION], v);
    StoreOne(QUESTION, [], StoreAll(a, v));
    StoreOne(COLON, [], StoreAll(y, StoreAll(a, v)));
    assert [QUESTION] + [] == [QUESTION] && [COLON] + [] == [COLON];
  }

  // From any state that expects an expression the machine reads a conforming
  // tree, leaves its expression on the stack, and has been as high as Need says:
  // whatever every step keeps holds then if it held at the start
  lemma {:induction false} Reads(P: Config -> bool, c: Config, t: Cst, more: seq<Token>)
    requires Kept(P) && P(c) && Spells(c, t, more)
    ensures P(Having(c, t, more))
    decreases t, 3
  {
    match t
    case CNum(_) => ReadsAtom(P, c, t, more);
    case CVar => ReadsAtom(P, c, t, more);
    case CNot(_) => ReadsNot(P, c, t, more);
    case CBin(_, _, _) => ReadsBinary(P, c, t, more);
    case CCond(_, _, _) => ReadsConditional(P, c, t, more);
    case CParen(_) => ReadsParens(P, c, t, more);
  }

  // The tokens of a conforming tree are accepted and give back its expression,
  // and the run fills the stack exactly when the tree needs that many entries
  lemma ParseIsComplete(t: Cst)
    requires Conforms(t)
    ensures Stream(Yield(t) + [END])
    ensures Parse(Yield(t) + [END]) == Final(true, Some(Strip(t)), 1 + Need(t) >= YYMAXDEPTH)
  {
    var ts := Yield(t) + [END];
    YieldHasNoEnd(t);
    StartIsValid(ts);
    var goal := Parse(ts);
    var P := (c: Config) => Valid(c) && Run(c) == goal;
    forall c | P(c) && Advance(c).Some?
      ensures P(Advance(c).value)
    {
      AdvanceIsStep(c, Advance(c).value);
      StepKeeps(c);
    }
    Reads(P, Start(ts), t, [END]);
    FinishRun(t, Having(Start(ts), t, [END]));
  }

  lemma {:induction false} YieldHasNoEnd(t: Cst)
    ensures END !in Yield(t)
  {
    match t
    case CNum(_) =>
    case CVar =>
    case CNot(a) => YieldHasNoEnd(a);
    case CBin(_, l, r) => YieldHasNoEnd(l); YieldHasNoEnd(r);
    case CCond(a, y, n) => YieldHasNoEnd(a); YieldHasNoEnd(y); YieldHasNoEnd(n);
    case CParen(i) => YieldHasNoEnd(i);
  }

  // The last three moves: reduce to the start symbol, shift the end, accept
  lemma ReducesStart(t: Cst, c: Config)
    requires c.stack == On(Bottom, 5, ExpVal(Strip(t)))
    ensures Reduction(c, 1) == Running(Push(c.(stack := Bottom, res := Some(Strip(t))), 25, ExpVal(Strip(t))))
  {
    assert YYR2[1] == 1;
    GotoIsDecided(1, 0);
    assert Pop(c.stack, 1) == Bottom;
  }

  lemma RunFromStart(t: Cst, c1: Config)
    requires Valid(c1) && c1.stack == On(Bottom, 25, ExpVal(Strip(t))) && c1.rest == [END] && c1.res == Some(Strip(t))
    ensures Run(c1) == Final(true, Some(Strip(t)), c1.deep)
  {
    StepKeeps(c1);
    var c2 := DoShift(c1, 26);
    assert Height(c1.stack) == 2;
    assert Step(c1) == Running(c2) && c2.rest == [END] && c2.deep == c1.deep;
    StepKeeps(c2);
    assert Move(c2) == Accept;
    assert Run(c1) == Run(c2);
  }

  lemma FinishRun(t: Cst, c: Config)
    requires Valid(c) && c.stack == On(Bottom, 5, ExpVal(Strip(t))) && c.rest == [END]
    ensures Run(c) == Final(true, Some(Strip(t)), c.deep)
  {
    StepKeeps(c);
    ReducesStart(t, c);
    assert Move(c) == Reduce(1);
    var c1 := Step(c).c;
    RunFromStart(t, c1);
    assert Run(c) == Run(c1) && c1.deep == c.deep;
  }

  // What is accepted, exactly: the grammar decides acceptance, its unique tree
  // the result, and the need of that tree whether the stack limit is met
  lemma AcceptanceIsExact(ts: seq<Token>, e: Expr)
    requires Stream(ts)
    ensures Parse(ts).accepted && Parse(ts).res == Some(e) <==>
            exists t :: Conforms(t) && Yield(t) + [END] == ts && Strip(t) == e
  {
    if Parse(ts).accepted && Parse(ts).res == Some(e) {
      var t := ParseIsSound(ts);
      assert Conforms(t) && Yield(t) + [END] == ts && Strip(t) == e;
    }
    forall t | Conforms(t) && Yield(t) + [END] == ts && Strip(t) == e
      ensures Parse(ts).accepted && Parse(ts).res == Some(e)
    {
      ParseIsComplete(t);
    }
  }
}
