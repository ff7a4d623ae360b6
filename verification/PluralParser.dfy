// yyparse: the driver loop of intl/plural.c over its growing array stacks.
module PluralParser {
  import opened Words
  import opened PluralExp
  import opened PluralGrammar
  import opened PluralTables
  import opened PluralMachine
  import opened PluralRuns
  import opened PluralLexer

  const YYEMPTY := -2
  const YYINITDEPTH: nat := 200

  // The machine's stack held in entries 0 to k of the two arrays
  function StackOf(ss: seq<State>, vs: seq<SemVal>, k: nat): Stack
    requires k < |ss| == |vs|
  {
    if k == 0 then Bottom else On(StackOf(ss, vs, k - 1), ss[k], vs[k])
  }

  lemma {:induction false} StackOfSame(ss: seq<State>, vs: seq<SemVal>, ss': seq<State>, vs': seq<SemVal>, k: nat)
    requires k < |ss| == |vs| && k < |ss'| == |vs'|
    requires forall i :: 1 <= i <= k ==> ss[i] == ss'[i] && vs[i] == vs'[i]
    ensures StackOf(ss, vs, k) == StackOf(ss', vs', k)
  {
    if k > 0 {
      StackOfSame(ss, vs, ss', vs', k - 1);
    }
  }

  lemma {:induction false} PopOf(ss: seq<State>, vs: seq<SemVal>, k: nat, n: nat)
    requires k < |ss| == |vs| && n <= k
    ensures Pop(StackOf(ss, vs, k), n) == StackOf(ss, vs, k - n)
    ensures n < k ==> Value(StackOf(ss, vs, k), n) == vs[k - n]
    ensures Height(StackOf(ss, vs, k)) == k + 1
    decreases k
  {
    if n > 0 {
      PopOf(ss, vs, k - 1, n - 1);
    } else if k > 0 {
      PopOf(ss, vs, k - 1, 0);
    }
  }

  lemma PushOf(ss: seq<State>, vs: seq<SemVal>, k: nat, s: State, v: SemVal)
    requires k + 1 < |ss| == |vs|
    ensures StackOf(ss[k + 1 := s], vs[k + 1 := v], k + 1) == On(StackOf(ss, vs, k), s, v)
  {
    StackOfSame(ss, vs, ss[k + 1 := s], vs[k + 1 := v], k);
  }

  // What the parser still holds of the text: the tokens not shifted yet, the
  // first of which may already have been read into yychar and yylval
  ghost predicate InputIs(text: string, cp: nat, yychar: int, yylval: SemVal, c: Config)
    requires cp <= |text|
  {
    && c.rest != []
    && if yychar == YYEMPTY then c.rest == Tokens(text[cp..]) && c.lval == yylval
       else
         && yychar == Code(c.rest[0]) && yylval == Store(c.rest[0], c.lval)
         && (c.rest[0] != END ==> c.rest[1..] == Tokens(text[cp..]))
  }

  lemma CodeIsPositive(t: Token)
    ensures Code(t) >= 0 && (Code(t) == 0 <==> t == END)
  {
  }

  // The value computed by the action of a rule, read off the value array
  method Act(rule: Rule, yyvs: array<SemVal>, yyvsp: nat, ghost st: Stack) returns (yyval: SemVal)
    requires yyvsp < yyvs.Length && YYR2[rule] <= yyvsp
    requires forall n :: 0 <= n < yyvsp ==> Value(st, n) == yyvs[yyvsp - n]
    requires Action(rule, st).Some?
    ensures Some(yyval) == Action(rule, st)
  {
    assert YYR2[rule] == Arity(rule);
    var top := yyvs[yyvsp];
    assert top == Value(st, 0);
    match rule {
      case 1 => yyval := top;
      case 2 =>
        assert yyvs[yyvsp - 4] == Value(st, 4) && yyvs[yyvsp - 2] == Value(st, 2);
        yyval := ExpVal(Qmop(yyvs[yyvsp - 4].e, yyvs[yyvsp - 2].e, top.e));
      case 3 =>
        assert yyvs[yyvsp - 2] == Value(st, 2);
        yyval := ExpVal(Bin(Lor, yyvs[yyvsp - 2].e, top.e));
      case 4 =>
        assert yyvs[yyvsp - 2] == Value(st, 2);
        yyval := ExpVal(Bin(Land, yyvs[yyvsp - 2].e, top.e));
      case 9 => yyval := ExpVal(Lnot(top.e));
      case 10 => yyval := ExpVal(Var);
      case 11 => yyval := ExpVal(Num(top.n));
      case 12 =>
        assert yyvs[yyvsp - 1] == Value(st, 1);
        yyval := yyvs[yyvsp - 1];
      case _ =>
        assert yyvs[yyvsp - 1] == Value(st, 1) && yyvs[yyvsp - 2] == Value(st, 2);
        yyval := ExpVal(Bin(yyvs[yyvsp - 1].op, yyvs[yyvsp - 2].e, top.e));
    }
  }

  // Stacks of twice the size, but not above the limit
  method Extend(yyss: array<State>, yyvs: array<SemVal>, yyssp: nat) returns (ss: array<State>, vs: array<SemVal>)
    requires yyss.Length == yyvs.Length && yyssp < yyss.Length < YYMAXDEPTH
    ensures fresh(ss) && fresh(vs) && ss.Length == vs.Length
    ensures ss.Length == if 2 * yyss.Length > YYMAXDEPTH then YYMAXDEPTH else 2 * yyss.Length
    ensures forall i :: 0 <= i <= yyssp ==> ss[i] == yyss[i] && vs[i] == yyvs[i]
  {
    var size := yyss.Length * 2;
    if size > YYMAXDEPTH {
      size := YYMAXDEPTH;
    }
    ss := new State[size](_ => 0);
    vs := new SemVal[size](_ => Garbage);
    for i := 0 to yyssp + 1
      invariant forall k :: 0 <= k < i ==> ss[k] == yyss[k] && vs[k] == yyvs[k]
    {
      ss[i], vs[i] := yyss[i], yyvs[i];
    }
  }

  // yyerrlab: no state accepts the error token, so the whole stack is popped
  method Recover(yyss: array<State>, sp: nat) returns (ret: int)
    requires sp < yyss.Length
    ensures ret == 1
  {
    var yyssp := sp;
    while true
      invariant 0 <= yyssp <= sp
      decreases yyssp
    {
      var yystate := yyss[yyssp];
      var yyn := YYPACT[yystate];
      ErrorIsNeverShifted(yystate);
      if yyn != YYFLAG {
        var i := yyn + YYTERROR;
        if 0 <= i <= YYLAST && YYCHECK[i] == YYTERROR {
          assert false;
        }
      }
      if yyssp == 0 {
        return 1;
      }
      yyssp := yyssp - 1;
    }
  }

  // yynewstate: put one more entry on both stacks and keep room for the next,
  // unless that takes YYMAXDEPTH entries
  method PushEntry(yyss: array<State>, yyvs: array<SemVal>, yyssp: nat, yystate: State, yyval: SemVal)
    returns (ss: array<State>, vs: array<SemVal>, overflow: bool)
    requires yyss.Length == yyvs.Length && YYINITDEPTH <= yyss.Length <= YYMAXDEPTH && yyssp + 1 < yyss.Length
    modifies yyss, yyvs
    ensures overflow <==> yyssp + 2 >= YYMAXDEPTH
    ensures ss == yyss || fresh(ss)
    ensures vs == yyvs || fresh(vs)
    ensures ss.Length == vs.Length && YYINITDEPTH <= ss.Length <= YYMAXDEPTH
    ensures !overflow ==> yyssp + 2 < ss.Length
    ensures !overflow ==>
              && StackOf(ss[..], vs[..], yyssp + 1) == On(old(StackOf(yyss[..], yyvs[..], yyssp)), yystate, yyval)
              && ss[yyssp + 1] == yystate && ss[0] == old(yyss[0])
  {
    ss, vs := yyss, yyvs;
    PushOf(yyss[..], yyvs[..], yyssp, yystate, yyval);
    yyss[yyssp + 1], yyvs[yyssp + 1] := yystate, yyval;
    assert yyss[..] == old(yyss[..])[yyssp + 1 := yystate] && yyvs[..] == old(yyvs[..])[yyssp + 1 := yyval];
    overflow := false;
    if yyssp + 1 >= yyss.Length - 1 {
      if yyss.Length >= YYMAXDEPTH {
        overflow := true;
      } else {
        ss, vs := Extend(yyss, yyvs, yyssp + 1);
        StackOfSame(yyss[..], yyvs[..], ss[..], vs[..], yyssp + 1);
      }
    }
  }

  // yyreduce: everything but the push
  method ReduceBy(rule: Rule, yyss: array<State>, yyvs: array<SemVal>, yyssp: nat, res0: Option<Expr>, ghost c: Config)
    returns (sp: nat, yystate: State, yyval: SemVal, res: Option<Expr>)
    requires yyss.Length == yyvs.Length && yyssp < yyss.Length && yyss[0] == 0
    requires c.stack == StackOf(yyss[..], yyvs[..], yyssp) && c.res == res0
    requires Reduction(c, rule).Running?
    ensures sp <= yyssp
    ensures Reduction(c, rule).c.stack == On(StackOf(yyss[..], yyvs[..], sp), yystate, yyval)
    ensures Reduction(c, rule).c.res == res
  {
    forall n: nat | n < yyssp
      ensures Value(c.stack, n) == yyvs[yyssp - n]
    {
      PopOf(yyss[..], yyvs[..], yyssp, n);
    }
    var yylen := YYR2[rule];
    PopOf(yyss[..], yyvs[..], yyssp, 0);
    yyval := Act(rule, yyvs, yyssp, c.stack);
    PopOf(yyss[..], yyvs[..], yyssp, yylen);
    res := res0;
    if rule == 1 {
      res := Some(yyval.e);
    }
    sp := yyssp - yylen;
    yystate := Goto(rule, yyss[sp]);
  }

  lemma LexInput(text: string, cp: nat, yylval: SemVal, c: Config)
    requires cp <= |text| && InputIs(text, cp, YYEMPTY, yylval, c)
    ensures var (t, w) := Lex(text[cp..]);
            && cp + w <= |text| && t == c.rest[0] && Code(t) != YYEMPTY
            && InputIs(text, cp + w, Code(t), Store(t, yylval), c)
  {
    var (t, w) := Lex(text[cp..]);
    CodeIsPositive(t);
    assert text[cp..][w..] == text[cp + w..];
  }

  // One token is asked for at a time, and only where the tables need it
  method Lookahead(text: string, cp0: nat, yychar0: int, yylval0: SemVal, ghost c: Config)
    returns (cp: nat, yychar: int, yylval: SemVal)
    requires cp0 <= |text| && InputIs(text, cp0, yychar0, yylval0, c)
    ensures cp <= |text| && InputIs(text, cp, yychar, yylval, c)
    ensures yychar == Code(c.rest[0]) && yychar != YYEMPTY
  {
    hide Tokens, Store, Code;
    if yychar0 != YYEMPTY {
      return cp0, yychar0, yylval0;
    }
    LexInput(text, cp0, yylval0, c);
    yychar, cp, yylval := YyLex(text, cp0, yylval0);
  }

  lemma DefaultNeedsNoToken(s: State, t: Symbol)
    requires YYPACT[s] == YYFLAG
    ensures Lookup(s, t) == DefaultMove(s)
  {
  }

  // yybackup: decide what to do in a state, reading a token only if the state needs one
  method Decision(text: string, yystate: State, cp0: nat, yychar0: int, yylval0: SemVal, ghost c: Config)
    returns (move: Move, cp: nat, yychar: int, yylval: SemVal)
    requires cp0 <= |text| && InputIs(text, cp0, yychar0, yylval0, c)
    ensures cp <= |text| && InputIs(text, cp, yychar, yylval, c)
    ensures move == Lookup(yystate, YyTranslate(Code(c.rest[0])))
    ensures YYPACT[yystate] == YYFLAG || yychar != YYEMPTY
  {
    cp, yychar, yylval := cp0, yychar0, yylval0;
    if YYPACT[yystate] == YYFLAG {
      DefaultNeedsNoToken(yystate, YyTranslate(Code(c.rest[0])));
      move := DefaultMove(yystate);
    } else {
      cp, yychar, yylval := Lookahead(text, cp, yychar, yylval, c);
      move := Lookup(yystate, YyTranslate(yychar));
    }
  }

  // The tokens read on a successful parse, and the tree they spell
  ghost predicate TreeOf(text: string, start: nat, t: Cst)
    requires start <= |text|
  {
    Conforms(t) && Yield(t) + [END] == Tokens(text[start..])
  }

  // The variables of yyparse between two rounds, and the configuration they hold
  ghost predicate Holds(text: string, yyss: array<State>, yyvs: array<SemVal>, yyssp: nat,
                        cp: nat, yychar: int, yylval: SemVal, res: Option<Expr>, c: Config)
    reads yyss, yyvs
  {
    && yyss.Length == yyvs.Length && YYINITDEPTH <= yyss.Length <= YYMAXDEPTH && yyssp + 1 < yyss.Length
    && yyss[0] == 0 && c.stack == StackOf(yyss[..], yyvs[..], yyssp) && c.res == res
    && cp <= |text| && InputIs(text, cp, yychar, yylval, c)
  }

  // The shift or reduction of one round, up to the push
  method Enact(text: string, move: Move, yyss: array<State>, yyvs: array<SemVal>, sp: nat,
               cp: nat, yychar0: int, yylval: SemVal, res0: Option<Expr>, ghost c: Config)
    returns (yyssp: nat, yystate: State, yyval: SemVal, yychar: int, res: Option<Expr>)
    requires Holds(text, yyss, yyvs, sp, cp, yychar0, yylval, res0, c)
    requires move == Lookup(yyss[sp], YyTranslate(Code(c.rest[0])))
    requires YYPACT[yyss[sp]] == YYFLAG || yychar0 != YYEMPTY
    requires yyss[sp] == Top(c.stack) && Step(c).Running?
    ensures yyssp <= sp
    ensures Step(c).c.stack == On(StackOf(yyss[..], yyvs[..], yyssp), yystate, yyval)
    ensures Step(c).c.res == res && InputIs(text, cp, yychar, yylval, Step(c).c)
  {
    yyssp, yychar, res := sp, yychar0, res0;
    match move {
      case Shift(to) =>
        ShiftInput(text, cp, yychar, yylval, c, to, yyss[sp]);
        yystate, yyval := to, yylval;
        if yychar != YYEOF {
          yychar := YYEMPTY;
        }
      case Reduce(rule) =>
        yyssp, yystate, yyval, res := ReduceBy(rule, yyss, yyvs, yyssp, res, c);
    }
  }

  // One round: shift or reduce, and push the new state and value
  method Round(text: string, move: Move, yyss: array<State>, yyvs: array<SemVal>, sp: nat,
               cp: nat, yychar0: int, yylval: SemVal, res0: Option<Expr>, ghost c: Config)
    returns (ss: array<State>, vs: array<SemVal>, yyssp: nat, yychar: int, res: Option<Expr>, overflow: bool)
    requires Holds(text, yyss, yyvs, sp, cp, yychar0, yylval, res0, c)
    requires move == Lookup(yyss[sp], YyTranslate(Code(c.rest[0])))
    requires YYPACT[yyss[sp]] == YYFLAG || yychar0 != YYEMPTY
    requires yyss[sp] == Top(c.stack) && Step(c).Running?
    modifies yyss, yyvs
    ensures ss == yyss || fresh(ss)
    ensures vs == yyvs || fresh(vs)
    ensures overflow <==> Height(Step(c).c.stack) >= YYMAXDEPTH
    ensures res == Step(c).c.res
    ensures !overflow ==> Holds(text, ss, vs, yyssp, cp, yychar, yylval, res, Step(c).c)
  {
    var yystate, yyval;
    yyssp, yystate, yyval, yychar, res := Enact(text, move, yyss, yyvs, sp, cp, yychar0, yylval, res0, c);
    PopOf(yyss[..], yyvs[..], yyssp, 0);
    ss, vs, overflow := PushEntry(yyss, yyvs, yyssp, yystate, yyval);
    yyssp := yyssp + 1;
  }

  lemma Progress(c: Config)
    requires Valid(c)
    ensures c.rest != []
    ensures var move := Lookup(Top(c.stack), YyTranslate(Code(c.rest[0])));
            && (Step(c).Running? <==> !move.Accept? && !move.Error?)
            && (move.Accept? || move.Error? ==> Run(c) == Final(move.Accept?, c.res, c.deep))
    ensures Step(c).Running? ==>
              && Valid(Step(c).c) && Run(c) == Run(Step(c).c) && Lower(Step(c).c, c)
              && (Step(c).c.deep <==> c.deep || Height(Step(c).c.stack) >= YYMAXDEPTH)
  {
    StepKeeps(c);
  }

  // yyparse on the text from 'start' on.  It always ends; it returns 2 exactly
  // when the stacks come to hold YYMAXDEPTH entries, and otherwise 0 exactly on
  // the texts of the grammar.
  method YyParse(text: string, start: nat) returns (ret: int, res: Option<Expr>)
    requires start <= |text|
    ensures var final := Parse(Tokens(text[start..]));
            && ret == (if final.deep then 2 else if final.accepted then 0 else 1)
            && (ret != 2 ==> res == final.res)
    ensures ret == 0 <==> exists t :: TreeOf(text, start, t) && 1 + Need(t) < YYMAXDEPTH
    ensures ret == 0 ==> forall t | TreeOf(text, start, t) :: res == Some(Strip(t))
  {
    ghost var final := Parse(Tokens(text[start..]));
    ParseOutcome(text, start);
    StartIsValid(Tokens(text[start..]));
    ghost var c := Start(Tokens(text[start..]));
    var yyss := new State[YYINITDEPTH](_ => 0);
    var yyvs := new SemVal[YYINITDEPTH](_ => Garbage);
    var yyssp: nat := 0;
    var cp: nat, yychar, yylval := start, YYEMPTY, Garbage;
    res := None;
    while true
      invariant fresh(yyss) && fresh(yyvs)
      invariant Holds(text, yyss, yyvs, yyssp, cp, yychar, yylval, res, c)
      invariant Valid(c) && Run(c) == final && !c.deep
      decreases |c.rest|, Phase(Top(c.stack)), Weight(c.stack)
    {
      Progress(c);
      PopOf(yyss[..], yyvs[..], yyssp, 0);
      var move;
      move, cp, yychar, yylval := Decision(text, yyss[yyssp], cp, yychar, yylval, c);
      if move.Accept? {
        return 0, res;
      }
      if move.Error? {
        ret := Recover(yyss, yyssp);
        return;
      }
      var overflow;
      yyss, yyvs, yyssp, yychar, res, overflow := Round(text, move, yyss, yyvs, yyssp, cp, yychar, yylval, res, c);
      c := Step(c).c;
      if overflow {
        DeepStaysDeep(c);
        return 2, res;
      }
    }
  }

  // The machine's verdict in terms of the grammar
  lemma ParseOutcome(text: string, start: nat)
    requires start <= |text|
    ensures var final := Parse(Tokens(text[start..]));
            && (final.accepted && !final.deep <==> exists t :: TreeOf(text, start, t) && 1 + Need(t) < YYMAXDEPTH)
            && forall t | TreeOf(text, start, t) :: final.res == Some(Strip(t))
  {
    var ts := Tokens(text[start..]);
    forall t | TreeOf(text, start, t)
      ensures Parse(ts) == Final(true, Some(Strip(t)), 1 + Need(t) >= YYMAXDEPTH)
    {
      ParseIsComplete(t);
    }
    if Parse(ts).accepted {
      var t := ParseIsSound(ts);
      assert TreeOf(text, start, t);
    }
  }

  // Shifting uses the token that was read
  lemma ShiftInput(text: string, cp: nat, yychar: int, yylval: SemVal, c: Config, to: State, s: State)
    requires cp <= |text| && InputIs(text, cp, yychar, yylval, c)
    requires YYPACT[s] == YYFLAG || yychar != YYEMPTY
    requires Lookup(s, YyTranslate(Code(c.rest[0]))) == Shift(to)
    ensures yylval == DoShift(c, to).lval
    ensures InputIs(text, cp, if yychar == YYEOF then YYEOF else YYEMPTY, yylval, DoShift(c, to))
  {
    CodeIsPositive(c.rest[0]);
    assert YYPACT[s] != YYFLAG;
  }
}
