// The parser of intl/plural.c as a deterministic machine over the packed tables,
// and the relation between its runs and the precedence grammar.
module PluralMachine {
  import opened Words
  import opened Sequences
  import opened PluralExp
  import opened PluralGrammar
  import opened PluralTables

  // YYSTYPE, remembering which union member was stored last
  datatype SemVal = Garbage | NumVal(n: Word) | OpVal(op: BinOp) | ExpVal(e: Expr)

  // What yylex delivers: every token up to and including the end of input
  ghost predicate Stream(ts: seq<Token>) {
    && |ts| > 0 && ts[|ts| - 1] == END
    && forall i :: 0 <= i < |ts| - 1 ==> ts[i] != END
  }

  // yylval after a token has been read: most tokens leave it alone
  function Store(t: Token, before: SemVal): SemVal {
    match t
    case NUMBER(n) => NumVal(n)
    case OP(op) => if op.Land? || op.Lor? then before else OpVal(op)
    case _ => before
  }

  // The state and value stacks, growing together above state 0
  datatype Stack = Bottom | On(below: Stack, s: State, v: SemVal)

  function Top(st: Stack): State {
    if st.Bottom? then 0 else st.s
  }

  // Entries in use, counting the one below everything
  function Height(st: Stack): (h: nat)
    ensures h >= 1
  {
    if st.Bottom? then 1 else Height(st.below) + 1
  }

  function Pop(st: Stack, k: nat): Stack {
    if k == 0 || st.Bottom? then st else Pop(st.below, k - 1)
  }

  // yyvsp[-k]
  function Value(st: Stack, k: nat): SemVal {
    if st.Bottom? then Garbage else if k == 0 then st.v else Value(st.below, k - 1)
  }

  // The greatest number of stack entries
  const YYMAXDEPTH: nat := 10000

  // The stacks, the tokens not shifted yet, yylval when the last of the others
  // was read, whether the stacks have ever held YYMAXDEPTH entries, and the
  // result stored in the caller's structure
  datatype Config = Config(stack: Stack, rest: seq<Token>, lval: SemVal, deep: bool, res: Option<Expr>)

  datatype Outcome = Running(c: Config) | Accepted | SyntaxError | Stuck

  function Start(ts: seq<Token>): Config {
    Config(Bottom, ts, Garbage, false, None)
  }

  function Push(c: Config, s: State, v: SemVal): Config {
    c.(stack := On(c.stack, s, v), deep := c.deep || Height(c.stack) + 1 >= YYMAXDEPTH)
  }

  // The end of input is never used up
  function DoShift(c: Config, to: State): Config
    requires c.rest != []
  {
    var t := c.rest[0];
    var v := Store(t, c.lval);
    Push(c.(rest := if t == END then c.rest else c.rest[1..], lval := v), to, v)
  }

  // The grammar actions; None if one would read a union member that is not there
  function Action(rule: Rule, st: Stack): Option<SemVal> {
    match rule
    case 1 => if Value(st, 0).ExpVal? then Some(Value(st, 0)) else None
    case 2 =>
      var (t, y, n) := (Value(st, 4), Value(st, 2), Value(st, 0));
      if t.ExpVal? && y.ExpVal? && n.ExpVal? then Some(ExpVal(Qmop(t.e, y.e, n.e))) else None
    case 3 => NewExp2(OpVal(Lor), Value(st, 2), Value(st, 0))
    case 4 => NewExp2(OpVal(Land), Value(st, 2), Value(st, 0))
    case 9 => if Value(st, 0).ExpVal? then Some(ExpVal(Lnot(Value(st, 0).e))) else None
    case 10 => Some(ExpVal(Var))
    case 11 => if Value(st, 0).NumVal? then Some(ExpVal(Num(Value(st, 0).n))) else None
    case 12 => if Value(st, 1).ExpVal? then Some(Value(st, 1)) else None
    case _ => NewExp2(Value(st, 1), Value(st, 2), Value(st, 0))
  }

  function NewExp2(op: SemVal, left: SemVal, right: SemVal): Option<SemVal> {
    if op.OpVal? && left.ExpVal? && right.ExpVal?
    then Some(ExpVal(Bin(op.op, left.e, right.e))) else None
  }

  // yyreduce
  function Reduction(c: Config, rule: Rule): Outcome {
    var len := YYR2[rule];
    match Action(rule, c.stack)
    case None => Stuck
    case Some(v) =>
      if Height(c.stack) <= len then Stuck
      else
        var st := Pop(c.stack, len);
        var res := if rule == 1 && v.ExpVal? then Some(v.e) else c.res;
        Running(Push(c.(stack := st, res := res), Goto(rule, Top(st)), v))
  }

  // One round of yybackup
  function Step(c: Config): Outcome
    requires c.rest != []
  {
    match Lookup(Top(c.stack), YyTranslate(Code(c.rest[0])))
    case Shift(to) => Running(DoShift(c, to))
    case Reduce(rule) => Reduction(c, rule)
    case Accept => Accepted
    case Error => SyntaxError
  }

  // ---------------------------------------------------------------
  // What the stacks stand for

  // The grammar symbol a stack entry was pushed for
  datatype Sym = T(t: Token) | E(c: Cst) | S(c: Cst)

  datatype Syms = Empty | Over(below: Syms, sym: Sym)

  function Text(sym: Sym): seq<Token> {
    match sym
    case T(t) => if t == END then [] else [t]
    case E(c) => Yield(c)
    case S(c) => Yield(c)
  }

  function Flat(sy: Syms): seq<Token> {
    if sy.Empty? then [] else Flat(sy.below) + Text(sy.sym)
  }

  // State s was entered over the symbol, leaving the value v
  ghost predicate Describes(s: State, sym: Sym, v: SemVal) {
    match s
    case 1 => sym == T(NOT)
    case 2 => sym.T? && sym.t.NUMBER? && v == NumVal(sym.t.n)
    case 3 => sym == T(VAR)
    case 4 => sym == T(LPAREN)
    case 8 => sym == T(QUESTION)
    case 15 => sym == T(RPAREN)
    case 23 => sym == T(COLON)
    case 25 => sym.S? && Conforms(sym.c) && v == ExpVal(Strip(sym.c))
    case 26 => sym == T(END)
    case _ =>
      if 9 <= s <= 14 then
        sym.T? && sym.t.OP? && Prec(sym.t.op) == s - 6 && (s >= 11 ==> v == OpVal(sym.t.op))
      else
        IsExpState(s) && sym.E? && Conforms(sym.c) && v == ExpVal(Strip(sym.c)) && Level(sym.c) > Context(s)
  }

  // State b may stand directly above state a
  ghost predicate Above(a: State, b: State) {
    if 1 <= b <= 4 then IsPrefix(a)
    else if 8 <= b <= 14 then IsExpState(a) && b - 6 > Context(a)
    else if IsExpState(b) then IsPrefix(a) && b == GotoExp(a)
    else
      match b
      case 15 => a == 7
      case 23 => a == 16
      case 25 => a == 0
      case 26 => a == 25
      case _ => false
  }

  // An operator stands only over an operand that binds at least as tightly
  ghost predicate Holds(sy: Syms, b: State) {
    8 <= b <= 14 ==> sy.Over? && sy.sym.E? && Level(sy.sym.c) >= b - 6
  }

  ghost predicate StackOk(st: Stack, sy: Syms) {
    match st
    case Bottom => sy.Empty?
    case On(below, s, v) =>
      && sy.Over? && StackOk(below, sy.below)
      && Describes(s, sy.sym, v) && Above(Top(below), s) && Holds(sy.below, s)
  }

  ghost predicate Inv(c: Config, sy: Syms) {
    && StackOk(c.stack, sy)
    && Stream(c.rest)
    && (sy.Over? && sy.sym.E? ==> Level(sy.sym.c) >= Binding(c.rest[0]))
    && (Top(c.stack) == 25 ==> sy.Over? && sy.sym.S? && c.res == Some(Strip(sy.sym.c)))
    && (Top(c.stack) == 26 ==>
      && sy.Over? && sy.below.Over? && sy.below.sym.S? && c.res == Some(Strip(sy.below.sym.c))
      && c.rest[0] == END)
  }

  // ---------------------------------------------------------------
  // Every step keeps the invariant

  lemma TopIsReachable(st: Stack, sy: Syms)
    requires StackOk(st, sy)
    ensures Top(st) < 27
  {
  }

  // When the decision is to shift
  lemma ShiftMeans(s: State, t: Token, to: State, lval: SemVal)
    requires s < 27 && Decide(s, YyTranslate(Code(t))) == Shift(to)
    ensures Above(s, to) && Describes(to, T(t), Store(t, lval)) && !IsExpState(to) && to != 25
    ensures 8 <= to <= 14 ==> Binding(t) == to - 6 && IsExpState(s)
    ensures to == 26 <==> t == END
  {
    BindingIsSymbol(t);
  }

  // An operator is shifted over an operand, and the end over the whole
  lemma ShiftHolds(c: Config, sy: Syms, to: State)
    requires Inv(c, sy) && Above(Top(c.stack), to)
    requires 8 <= to <= 14 ==> Binding(c.rest[0]) == to - 6 && IsExpState(Top(c.stack))
    ensures Holds(sy, to)
    ensures to == 26 ==> sy.Over? && sy.sym.S? && c.res == Some(Strip(sy.sym.c))
  {
    if 8 <= to <= 14 {
      assert c.stack.On? && sy.Over? && Describes(c.stack.s, sy.sym, c.stack.v);
    }
  }

  lemma StreamGoesOn(ts: seq<Token>)
    requires Stream(ts) && ts[0] != END
    ensures Stream(ts[1..]) && [ts[0]] + ts[1..] == ts
  {
  }

  lemma ShiftKeeps(c: Config, sy: Syms, to: State)
    requires Inv(c, sy) && Top(c.stack) < 27 && Decide(Top(c.stack), YyTranslate(Code(c.rest[0]))) == Shift(to)
    ensures Inv(DoShift(c, to), Over(sy, T(c.rest[0])))
    ensures Flat(Over(sy, T(c.rest[0]))) + DoShift(c, to).rest == Flat(sy) + c.rest
    ensures to == 26 <==> c.rest[0] == END
  {
    var t := c.rest[0];
    hide Describes, Above, Holds, Decide, Store, Stream, Strip, IsExpState;
    ShiftMeans(Top(c.stack), t, to, c.lval);
    ShiftHolds(c, sy, to);
    if t != END {
      StreamGoesOn(c.rest);
      Associate(Flat(sy), [t], c.rest[1..]);
    }
  }

  function Arity(rule: Rule): nat {
    match rule
    case 1 => 1
    case 2 => 5
    case 9 => 2
    case 10 => 1
    case 11 => 1
    case _ => 3
  }

  // The machine's indexed view of its topmost entries
  lemma TopThree(st: Stack)
    requires st.On? && st.below.On?
    ensures Value(st, 0) == st.v && Value(st, 1) == st.below.v && Value(st, 2) == Value(st.below.below, 0)
    ensures Pop(st, 1) == st.below && Pop(st, 2) == st.below.below && Pop(st, 3) == Pop(st.below.below, 1)
    ensures Height(st) == 2 + Height(st.below.below)
  {
    var b := st.below;
    assert Value(st, 1) == Value(b, 0) && Value(st, 2) == Value(b, 1) && Value(b, 1) == Value(b.below, 0);
    assert Pop(st, 1) == Pop(b, 0) && Pop(st, 2) == Pop(b, 1) && Pop(b, 1) == Pop(b.below, 0);
    assert Pop(st, 3) == Pop(b, 2) && Pop(b, 2) == Pop(b.below, 1);
  }

  lemma TopFive(st: Stack)
    requires st.On? && st.below.On? && st.below.below.On? && st.below.below.below.On? && st.below.below.below.below.On?
    ensures Value(st, 0) == st.v && Value(st, 2) == st.below.below.v && Value(st, 4) == st.below.below.below.below.v
    ensures Pop(st, 5) == st.below.below.below.below.below
    ensures Height(st) > 5
  {
    var b := st.below;
    TopThree(st);
    TopThree(b.below);
    assert Value(st, 4) == Value(b, 3) && Value(b, 3) == Value(b.below, 2);
    assert Pop(st, 5) == Pop(b, 4) && Pop(b, 4) == Pop(b.below, 3);
    assert Value(b.below.below.below, 0) == b.below.below.below.v;
    assert Pop(b.below.below.below, 1) == Pop(b.below.below.below.below, 0);
  }

  lemma ReductionGives(c: Config, rule: Rule, st: Stack, v: SemVal)
    requires rule != 1 && Action(rule, c.stack) == Some(v)
    requires Height(c.stack) > Arity(rule) && st == Pop(c.stack, Arity(rule)) && IsPrefix(Top(st))
    ensures Reduction(c, rule) == Running(Push(c.(stack := st), GotoExp(Top(st)), v))
  {
    assert YYR2[rule] == Arity(rule);
    GotoIsDecided(rule, Top(st));
  }

  // The rule applies to the top of the stack: its action builds the value of
  // 'tree', st and below are left, and the symbols spell what they spelt before
  ghost predicate Builds(stack: Stack, sy: Syms, la: Token, rule: Rule, st: Stack, below: Syms, tree: Cst) {
    && Action(rule, stack) == Some(ExpVal(Strip(tree)))
    && Height(stack) > Arity(rule) && st == Pop(stack, Arity(rule))
    && StackOk(st, below) && IsPrefix(Top(st))
    && Conforms(tree) && Level(tree) > Context(GotoExp(Top(st))) && Level(tree) >= Binding(la)
    && Flat(below) + Yield(tree) == Flat(sy)
  }

  lemma BuiltKeeps(c: Config, sy: Syms, rule: Rule, st: Stack, below: Syms, tree: Cst)
    requires rule != 1 && Stream(c.rest)
    requires Builds(c.stack, sy, c.rest[0], rule, st, below, tree)
    ensures Reduction(c, rule) == Running(Push(c.(stack := st), GotoExp(Top(st)), ExpVal(Strip(tree))))
    ensures Inv(Reduction(c, rule).c, Over(below, E(tree)))
    ensures Flat(Over(below, E(tree))) == Flat(sy)
  {
    ReductionGives(c, rule, st, ExpVal(Strip(tree)));
  }

  // When the decision is to reduce
  lemma ReduceMeans(s: State, t: Token, rule: Rule)
    requires s < 27 && Decide(s, YyTranslate(Code(t))) == Reduce(rule)
    ensures 3 <= rule <= 8 ==> s == rule + 14 && Binding(t) <= rule
    ensures rule == 2 ==> s == 24 && Binding(t) == 0
    ensures rule == 1 ==> s == 5
    ensures rule == 9 ==> s == 6
    ensures rule == 10 ==> s == 3
    ensures rule == 11 ==> s == 2
    ensures rule == 12 ==> s == 15
  {
    BindingIsSymbol(t);
  }

  // What lies below an expression, and below an expression that follows an operator
  lemma ExpShape(st: Stack, sy: Syms)
    requires StackOk(st, sy) && IsExpState(Top(st))
    ensures st.On? && sy.Over? && sy.sym.E? && Conforms(sy.sym.c) && st.v == ExpVal(Strip(sy.sym.c))
    ensures Level(sy.sym.c) > Context(st.s)
    ensures StackOk(st.below, sy.below) && IsPrefix(Top(st.below)) && st.s == GotoExp(Top(st.below))
    ensures Flat(sy) == Flat(sy.below) + Yield(sy.sym.c)
  {
  }

  lemma InfixShape(st: Stack, sy: Syms)
    requires StackOk(st, sy) && 8 <= Top(st) <= 14
    ensures st.On? && sy.Over? && StackOk(st.below, sy.below)
    ensures IsExpState(Top(st.below)) && st.s - 6 > Context(Top(st.below))
    ensures sy.below.Over? && sy.below.sym.E? && Level(sy.below.sym.c) >= st.s - 6
    ensures if st.s == 8 then sy.sym == T(QUESTION)
            else
              && sy.sym.T? && sy.sym.t.OP? && Prec(sy.sym.t.op) == st.s - 6
              && (st.s >= 11 ==> st.v == OpVal(sy.sym.t.op))
    ensures Flat(sy) == Flat(sy.below) + [sy.sym.t]
  {
  }

  lemma TokenShape(st: Stack, sy: Syms)
    requires StackOk(st, sy) && Top(st) in {1, 4, 15, 23}
    ensures st.On? && sy.Over? && StackOk(st.below, sy.below) && Above(Top(st.below), st.s)
    ensures sy.sym == T(match st.s case 1 => NOT case 4 => LPAREN case 15 => RPAREN case _ => COLON)
    ensures Flat(sy) == Flat(sy.below) + [sy.sym.t]
  {
  }

  lemma ReduceBinary(stack: Stack, sy: Syms, la: Token, rule: Rule) returns (st: Stack, below: Syms, tree: Cst)
    requires StackOk(stack, sy) && 3 <= rule <= 8 && Top(stack) == rule + 14 && Binding(la) <= rule
    ensures Builds(stack, sy, la, rule, st, below, tree)
  {
    hide StackOk, Describes;
    ExpShape(stack, sy);
    var st1, sy1 := stack.below, sy.below;
    assert st1.s == rule + 6;
    InfixShape(st1, sy1);
    var st2, sy2 := st1.below, sy1.below;
    ExpShape(st2, sy2);
    tree := CBin(sy1.sym.t.op, sy2.sym.c, sy.sym.c);
    st, below := st2.below, sy2.below;
    AssociateFour(Flat(below), Yield(sy2.sym.c), [sy1.sym.t], Yield(sy.sym.c));
    OperatorOfLevel(sy1.sym.t.op);
    TopThree(stack);
    assert Action(rule, stack) == Some(ExpVal(Strip(tree)));
  }

  lemma BindingIsSmall(t: Token)
    ensures Binding(t) <= 8
  {
  }

  lemma OperatorOfLevel(op: BinOp)
    ensures Prec(op) == 3 <==> op == Lor
    ensures Prec(op) == 4 <==> op == Land
  {
  }

  lemma ReduceConditional(stack: Stack, sy: Syms, la: Token) returns (st: Stack, below: Syms, tree: Cst)
    requires StackOk(stack, sy) && Top(stack) == 24 && Binding(la) == 0
    ensures Builds(stack, sy, la, 2, st, below, tree)
  {
    hide StackOk, Describes;
    ExpShape(stack, sy);
    var st1, sy1 := stack.below, sy.below;
    TokenShape(st1, sy1);
    var st2, sy2 := st1.below, sy1.below;
    ExpShape(st2, sy2);
    var st3, sy3 := st2.below, sy2.below;
    InfixShape(st3, sy3);
    var st4, sy4 := st3.below, sy3.below;
    ExpShape(st4, sy4);
    tree := CCond(sy4.sym.c, sy2.sym.c, sy.sym.c);
    st, below := st4.below, sy4.below;
    AssociateSix(Flat(below), Yield(sy4.sym.c), [QUESTION], Yield(sy2.sym.c), [COLON], Yield(sy.sym.c));
    TopFive(stack);
    assert Action(2, stack) == Some(ExpVal(Strip(tree)));
  }

  lemma ReduceParens(stack: Stack, sy: Syms, la: Token) returns (st: Stack, below: Syms, tree: Cst)
    requires StackOk(stack, sy) && Top(stack) == 15
    ensures Builds(stack, sy, la, 12, st, below, tree)
  {
    hide StackOk, Describes;
    TokenShape(stack, sy);
    var st1, sy1 := stack.below, sy.below;
    ExpShape(st1, sy1);
    var st2, sy2 := st1.below, sy1.below;
    TokenShape(st2, sy2);
    tree := CParen(sy1.sym.c);
    st, below := st2.below, sy2.below;
    AssociateFour(Flat(below), [LPAREN], Yield(sy1.sym.c), [RPAREN]);
    TopThree(stack);
    BindingIsSmall(la);
  }

  lemma ReduceNot(stack: Stack, sy: Syms, la: Token) returns (st: Stack, below: Syms, tree: Cst)
    requires StackOk(stack, sy) && Top(stack) == 6
    ensures Builds(stack, sy, la, 9, st, below, tree)
  {
    hide StackOk, Describes;
    ExpShape(stack, sy);
    var st1, sy1 := stack.below, sy.below;
    TokenShape(st1, sy1);
    tree := CNot(sy.sym.c);
    st, below := st1.below, sy1.below;
    AssociateFour(Flat(below), [NOT], Yield(sy.sym.c), []);
    assert [NOT] + Yield(sy.sym.c) + [] == Yield(tree);
    TopThree(stack);
    BindingIsSmall(la);
  }

  lemma ReduceAtom(stack: Stack, sy: Syms, la: Token, rule: Rule) returns (st: Stack, below: Syms, tree: Cst)
    requires StackOk(stack, sy) && 10 <= rule <= 11 && Top(stack) == 13 - rule
    ensures Builds(stack, sy, la, rule, st, below, tree)
  {
    tree := if rule == 10 then CVar else CNum(sy.sym.t.n);
    st, below := stack.below, sy.below;
    BindingIsSmall(la);
  }

  lemma ReduceStart(c: Config, sy: Syms)
    requires Inv(c, sy) && Top(c.stack) == 5
    ensures sy.Over? && sy.sym.E?
    ensures Reduction(c, 1).Running? && Inv(Reduction(c, 1).c, Over(sy.below, S(sy.sym.c)))
    ensures Flat(Over(sy.below, S(sy.sym.c))) == Flat(sy)
    ensures Top(Reduction(c, 1).c.stack) == 25 && Reduction(c, 1).c.rest == c.rest
  {
    ExpShape(c.stack, sy);
    var st := c.stack.below;
    assert Top(st) == 0 && Pop(c.stack, 1) == st && Height(c.stack) > 1;
    GotoIsDecided(1, 0);
    assert YYR2[1] == 1;
    assert Reduction(c, 1) == Running(Push(c.(stack := st, res := Some(Strip(sy.sym.c))), 25, c.stack.v));
  }
}
