// The packed LALR(1) tables of intl/plural.c and what they decide.
module PluralTables {
  import opened Words
  import opened PluralGrammar
  import opened PluralExp

  const YYFLAG := -32768
  const YYLAST := 53
  const YYFINAL := 27
  const YYNTBASE := 16
  const YYEOF := 0
  const YYTERROR := 1
  const YYERRCODE := 256
  const EQUOP2 := 257
  const CMPOP2 := 258
  const ADDOP2 := 259
  const MULOP2 := 260
  const NUMBER_TOKEN := 261

  type State = s: int | 0 <= s < 28
  type Symbol = t: int | 0 <= t < 16
  type Rule = r: int | 1 <= r <= 12 witness 1
  type Entry = e: int | -12 <= e <= 27 || e == YYFLAG witness 0

  const YYR1: seq<int> := [0, 16, 17, 17, 17, 17, 17, 17, 17, 17, 17, 17, 17]
  const YYR2: seq<nat> := [0, 1, 5, 3, 3, 3, 3, 3, 3, 2, 1, 1, 3]

  const YYDEFACT: seq<nat> :=
    [0, 0, 11, 10, 0, 1, 9, 0, 0, 0] +
    [0, 0, 0, 0, 0, 12, 0, 3, 4, 5] +
    [6, 7, 8, 0, 2, 0, 0, 0]

  const YYDEFGOTO: seq<State> := [25, 5]

  const YYPACT: seq<int> :=
    [-9, -9, YYFLAG, YYFLAG, -9, 34, YYFLAG, 11, -9, -9] +
    [-9, -9, -9, -9, -9, YYFLAG, 24, 39, 43, 16] +
    [26, -3, YYFLAG, -9, 34, 21, 53, YYFLAG]

  const YYPGOTO: seq<int> := [YYFLAG, -1]

  const YYTABLE: seq<Entry> :=
    [6, 1, 2, 7, 3, 4, 14, 16, 17, 18] +
    [19, 20, 21, 22, 8, 9, 10, 11, 12, 13] +
    [14, 26, 24, 12, 13, 14, 15, 8, 9, 10] +
    [11, 12, 13, 14, 13, 14, 23, 8, 9, 10] +
    [11, 12, 13, 14, 10, 11, 12, 13, 14, 11] +
    [12, 13, 14, 27]

  const YYCHECK: seq<int> :=
    [1, 10, 11, 4, 13, 14, 9, 8, 9, 10] +
    [11, 12, 13, 14, 3, 4, 5, 6, 7, 8] +
    [9, 0, 23, 7, 8, 9, 15, 3, 4, 5] +
    [6, 7, 8, 9, 8, 9, 12, 3, 4, 5] +
    [6, 7, 8, 9, 5, 6, 7, 8, 9, 6] +
    [7, 8, 9, 0]

  // What yylex returns for a token
  function Code(t: Token): int {
    match t
    case NUMBER(_) => NUMBER_TOKEN
    case VAR => 'n' as int
    case NOT => '!' as int
    case OP(Land) => '&' as int
    case OP(Lor) => '|' as int
    case OP(Equal) | OP(NotEqual) => EQUOP2
    case OP(LessThan) | OP(GreaterThan) | OP(LessOrEqual) | OP(GreaterOrEqual) => CMPOP2
    case OP(Plus) | OP(Minus) => ADDOP2
    case OP(Mult) | OP(Divide) | OP(Module) => MULOP2
    case QUESTION => '?' as int
    case COLON => ':' as int
    case LPAREN => '(' as int
    case RPAREN => ')' as int
    case END => YYEOF
    case BAD => YYERRCODE
  }

  // YYTRANSLATE, on the codes up to 261 that yylex returns.  The array holds 2
  // wherever no other entry is listed here.
  function YyTranslate(code: int): Symbol {
    match code
    case 0 => 0
    case 256 => 1
    case 63 => 3
    case 124 => 4
    case 38 => 5
    case 257 => 6
    case 258 => 7
    case 259 => 8
    case 260 => 9
    case 33 => 10
    case 261 => 11
    case 58 => 12
    case 110 => 13
    case 40 => 14
    case 41 => 15
    case _ => 2
  }

  datatype Move = Shift(to: State) | Reduce(rule: Rule) | Accept | Error

  // yydefault
  function DefaultMove(s: State): Move {
    if YYDEFACT[s] == 0 then Error else Reduce(YYDEFACT[s])
  }

  // yytable indexed through yypact and yycheck, if there is an entry
  function Packed(base: int, t: Symbol): (e: Option<Entry>) {
    var i := base + t;
    if i < 0 || i > YYLAST || YYCHECK[i] != t then None else Some(YYTABLE[i])
  }

  // The decision made at yybackup in state s with lookahead t
  function Lookup(s: State, t: Symbol): Move {
    if YYPACT[s] == YYFLAG then DefaultMove(s)
    else
      match Packed(YYPACT[s], t)
      case None => DefaultMove(s)
      case Some(a) =>
        if a == YYFLAG || a == 0 then Error
        else if a < 0 then Reduce(-a)
        else if a == YYFINAL then Accept
        else Shift(a)
  }

  // The state entered after reducing a rule above state s
  function Goto(rule: Rule, s: State): State {
    var n := YYR1[rule] - YYNTBASE;
    var i := YYPGOTO[n] + s;
    if 0 <= i <= YYLAST && YYCHECK[i] == s && 0 <= YYTABLE[i] then YYTABLE[i] else YYDEFGOTO[n]
  }

  // ---------------------------------------------------------------
  // The same decisions, read as operator precedence

  // States in which an expression must begin
  predicate IsPrefix(s: State) {
    s == 0 || s == 1 || s == 4 || 8 <= s <= 14 || s == 23
  }

  // States entered after an expression
  predicate IsExpState(s: State) {
    5 <= s <= 7 || 16 <= s <= 22 || s == 24
  }

  // The operator to the left of the expression: only tighter ones may follow it
  function Context(s: State): nat
    requires IsExpState(s)
  {
    if 17 <= s <= 22 then s - 14
    else if s == 6 then 8
    else 0
  }

  function GotoExp(s: State): State
    requires IsPrefix(s)
  {
    match s
    case 0 => 5
    case 1 => 6
    case 4 => 7
    case 23 => 24
    case _ => s + 8
  }

  function Decide(s: State, t: Symbol): Move
    requires s < 27
  {
    if IsPrefix(s) then
      match t
      case 10 => Shift(1)
      case 11 => Shift(2)
      case 13 => Shift(3)
      case 14 => Shift(4)
      case _ => Error
    else if IsExpState(s) then
      if 3 <= t <= 9 && t - 1 > Context(s) then Shift(t + 5)
      else if 17 <= s <= 22 then Reduce(s - 14)
      else
        match s
        case 5 => Reduce(1)
        case 6 => Reduce(9)
        case 24 => Reduce(2)
        case 7 => if t == 15 then Shift(15) else Error
        case _ => if t == 12 then Shift(23) else Error
    else
      match s
      case 2 => Reduce(11)
      case 3 => Reduce(10)
      case 15 => Reduce(12)
      case 25 => if t == 0 then Shift(26) else Error
      case _ => if t == 0 then Accept else Error
  }

  lemma RowPrefix(t: Symbol)
    ensures Packed(-9, t) == if t == 10 then Some(1) else if t == 11 then Some(2)
                             else if t == 13 then Some(3) else if t == 14 then Some(4) else None
  {
  }

  lemma RowAnyOperator(t: Symbol)
    ensures Packed(34, t) == if 3 <= t <= 9 then Some(t + 5) else None
  {
  }

  lemma RowInParens(t: Symbol)
    ensures Packed(11, t) == if 3 <= t <= 9 then Some(t + 5) else if t == 15 then Some(15) else None
  {
  }

  lemma RowAfterQuestion(t: Symbol)
    ensures Packed(24, t) == if 3 <= t <= 9 then Some(t + 5) else if t == 12 then Some(23) else None
  {
  }

  // The operators that may follow once only those above 'strength' bind
  function Tighter(strength: nat, t: Symbol): Option<Entry> {
    if t <= 9 && t - 1 > strength then Some(t + 5) else None
  }

  lemma RowAfterOr(t: Symbol)
    ensures Packed(39, t) == Tighter(3, t)
  {
  }

  lemma RowAfterAnd(t: Symbol)
    ensures Packed(43, t) == Tighter(4, t)
  {
  }

  lemma RowAfterEquality(t: Symbol)
    ensures Packed(16, t) == Tighter(5, t)
  {
  }

  lemma RowAfterRelation(t: Symbol)
    ensures Packed(26, t) == Tighter(6, t)
  {
  }

  lemma RowAfterAddition(t: Symbol)
    ensures Packed(-3, t) == Tighter(7, t)
  {
  }

  lemma RowFinish(t: Symbol)
    ensures Packed(21, t) == if t == 0 then Some(26) else None
    ensures Packed(53, t) == if t == 0 then Some(27) else None
  {
  }

  lemma AfterOperator(s: State, t: Symbol)
    requires 17 <= s <= 22
    ensures Lookup(s, t) == Decide(s, t)
  {
    match s
    case 17 => RowAfterOr(t);
    case 18 => RowAfterAnd(t);
    case 19 => RowAfterEquality(t);
    case 20 => RowAfterRelation(t);
    case 21 => RowAfterAddition(t);
    case _ =>
  }

  lemma AfterPrefix(s: State, t: Symbol)
    requires IsPrefix(s)
    ensures Lookup(s, t) == Decide(s, t)
  {
    assert YYPACT[s] == -9 && YYDEFACT[s] == 0;
    RowPrefix(t);
  }

  // The packed tables implement exactly the precedence rules
  lemma TablesArePrecedence(s: State, t: Symbol)
    requires s < 27
    ensures Lookup(s, t) == Decide(s, t)
  {
    if IsPrefix(s) {
      AfterPrefix(s, t);
    } else if 17 <= s <= 22 {
      AfterOperator(s, t);
    } else {
      match s
      case 5 => RowAnyOperator(t);
      case 24 => RowAnyOperator(t);
      case 7 => RowInParens(t);
      case 16 => RowAfterQuestion(t);
      case 25 => RowFinish(t);
      case 26 => RowFinish(t);
      case _ =>
    }
  }

  lemma GotoIsDecided(rule: Rule, s: State)
    ensures rule == 1 && s == 0 ==> Goto(rule, s) == 25
    ensures rule != 1 && IsPrefix(s) ==> Goto(rule, s) == GotoExp(s)
  {
  }

  // No state shifts the error token
  lemma ErrorIsNeverShifted(s: State)
    ensures YYPACT[s] == YYFLAG || Packed(YYPACT[s], YYTERROR) == None
  {
  }

  // The internal number of an infix token is one more than its binding strength
  lemma BindingIsSymbol(t: Token)
    ensures 3 <= YyTranslate(Code(t)) <= 9 <==> Binding(t) > 0
    ensures Binding(t) > 0 ==> YyTranslate(Code(t)) == Binding(t) + 1
  {
  }
}
