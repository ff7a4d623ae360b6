// From text to meaning: spelling and scanning are inverse, and parsing keeps the C
// value (intl/plural.c).
module PluralText {
  import opened Words
  import opened Numerals
  import opened PluralExp
  import opened PluralGrammar
  import opened PluralMachine
  import opened PluralRuns
  import opened PluralLexer
  import opened PluralParser

  // ---------------------------------------------------------------
  // Spelling tokens

  function Spell(t: Token): string {
    match t
    case NUMBER(n) => Numeral(n)
    case VAR => "n"
    case NOT => "!"
    case OP(Lor) => "||"
    case OP(Land) => "&&"
    case OP(Equal) => "=="
    case OP(NotEqual) => "!="
    case OP(LessThan) => "<"
    case OP(GreaterThan) => ">"
    case OP(LessOrEqual) => "<="
    case OP(GreaterOrEqual) => ">="
    case OP(Plus) => "+"
    case OP(Minus) => "-"
    case OP(Mult) => "*"
    case OP(Divide) => "/"
    case OP(Module) => "%"
    case QUESTION => "?"
    case COLON => ":"
    case LPAREN => "("
    case RPAREN => ")"
    case END => ";"
    case BAD => "@"
  }

  predicate IsBlank(gap: string) {
    forall k :: 0 <= k < |gap| ==> gap[k] == ' ' || gap[k] == '\t'
  }

  // The tokens in order, each after some blanks
  function Render(ts: seq<Token>, gaps: seq<string>): string
    requires |gaps| == |ts|
  {
    if ts == [] then "" else gaps[0] + Spell(ts[0]) + Render(ts[1..], gaps[1..])
  }

  // Where scanning stops: the end of the string, a semicolon or a newline,
  // perhaps after blanks
  ghost predicate Stops(tail: string) {
    Lex(tail).0 == END && !IsDigit(CharAt(tail, 0)) && CharAt(tail, 0) != '='
  }

  // ---------------------------------------------------------------
  // In a parse tree operands and operators alternate

  predicate StartsOperand(t: Token) {
    t.NUMBER? || t.VAR? || t.NOT? || t.LPAREN?
  }

  predicate EndsOperand(t: Token) {
    t.NUMBER? || t.VAR? || t.RPAREN?
  }

  ghost predicate Alternates(ts: seq<Token>) {
    |ts| > 0 && StartsOperand(ts[0]) && EndsOperand(ts[|ts| - 1]) && Chained(ts)
  }

  ghost predicate Chained(ts: seq<Token>) {
    && (forall i :: 0 <= i < |ts| - 1 ==> (EndsOperand(ts[i]) <==> !StartsOperand(ts[i + 1])))
    && forall i :: 0 <= i < |ts| ==> !ts[i].END? && !ts[i].BAD?
  }

  lemma AlternatesInfix(a: seq<Token>, t: Token, b: seq<Token>)
    requires Alternates(a) && Alternates(b) && (t.OP? || t.QUESTION? || t.COLON?)
    ensures Alternates(a + [t] + b)
  {
  }

  lemma AlternatesPrefix(t: Token, a: seq<Token>)
    requires Alternates(a) && (t.NOT? || t.LPAREN?)
    ensures Alternates([t] + a)
  {
  }

  lemma AlternatesClosed(a: seq<Token>)
    requires Alternates(a)
    ensures Alternates(a + [RPAREN])
  {
  }

  lemma {:induction false} YieldAlternates(c: Cst)
    ensures Alternates(Yield(c))
  {
    match c
    case CNum(_) =>
    case CVar =>
    case CNot(a) =>
      YieldAlternates(a);
      AlternatesPrefix(NOT, Yield(a));
    case CBin(op, l, r) =>
      YieldAlternates(l);
      YieldAlternates(r);
      AlternatesInfix(Yield(l), OP(op), Yield(r));
    case CCond(t, y, n) =>
      YieldAlternates(t);
      YieldAlternates(y);
      YieldAlternates(n);
      AlternatesInfix(Yield(t), QUESTION, Yield(y));
      AlternatesInfix(Yield(t) + [QUESTION] + Yield(y), COLON, Yield(n));
    case CParen(i) =>
      YieldAlternates(i);
      AlternatesPrefix(LPAREN, Yield(i));
      AlternatesClosed([LPAREN] + Yield(i));
  }

  // ---------------------------------------------------------------
  // Scanning what was spelt

  // What may follow a token without changing how it is scanned
  predicate Separates(t: Token, d: char) {
    && (t.NUMBER? ==> !IsDigit(d))
    && (t.NOT? || t == OP(LessThan) || t == OP(GreaterThan) ==> d != '=')
  }

  lemma {:induction false} DigitsRun(ds: string, rest: string)
    requires (forall k :: 0 <= k < |ds| ==> IsDigit(ds[k])) && !IsDigit(CharAt(rest, 0))
    ensures Digits(ds + rest) == |ds|
    decreases |ds|
  {
    if ds == "" {
      assert ds + rest == rest;
    } else {
      assert (ds + rest)[1..] == ds[1..] + rest;
      DigitsRun(ds[1..], rest);
    }
  }

  lemma NumberIsScanned(n: Word, rest: string)
    requires !IsDigit(CharAt(rest, 0))
    ensures First(Numeral(n) + rest) == (NUMBER(n), |Numeral(n)|)
  {
    var s := Numeral(n) + rest;
    NumeralDenotes(n);
    DigitsRun(Numeral(n), rest);
    assert s[..Digits(s)] == Numeral(n);
    assert CharAt(s, 0) == Numeral(n)[0];
    assert n % ULONG_MODULUS == n;
  }

  lemma TokenIsScanned(t: Token, rest: string)
    requires !t.END? && !t.BAD? && Separates(t, CharAt(rest, 0))
    ensures First(Spell(t) + rest) == (t, |Spell(t)|)
  {
    if t.NUMBER? {
      NumberIsScanned(t.n, rest);
    } else {
      var s := Spell(t) + rest;
      assert CharAt(s, 0) == Spell(t)[0];
      assert CharAt(s, 1) == if |Spell(t)| > 1 then Spell(t)[1] else CharAt(rest, 0);
    }
  }

  lemma {:induction false} BlanksRun(gap: string, s: string)
    requires IsBlank(gap) && CharAt(s, 0) != ' ' && CharAt(s, 0) != '\t'
    ensures Blanks(gap + s) == |gap|
    decreases |gap|
  {
    if gap == "" {
      assert gap + s == s;
    } else {
      assert (gap + s)[1..] == gap[1..] + s;
      BlanksRun(gap[1..], s);
    }
  }

  lemma FirstLetter(t: Token)
    ensures var d := Spell(t)[0];
            && (!StartsOperand(t) ==> !IsDigit(d))
            && (StartsOperand(t) ==> d != '=')
  {
  }

  // The next text cannot run into the token before it
  lemma NextSeparates(t: Token, ts: seq<Token>, gaps: seq<string>, tail: string)
    requires |gaps| == |ts| && (forall k :: 0 <= k < |gaps| ==> IsBlank(gaps[k])) && Stops(tail)
    requires ts != [] ==> (EndsOperand(t) <==> !StartsOperand(ts[0]))
    ensures Separates(t, CharAt(Render(ts, gaps) + tail, 0))
  {
    if ts == [] {
      assert Render(ts, gaps) + tail == tail;
    } else {
      FirstLetter(ts[0]);
      var s := Render(ts, gaps) + tail;
      assert CharAt(s, 0) == if gaps[0] == "" then Spell(ts[0])[0] else gaps[0][0];
    }
  }

  ghost predicate Spaced(ts: seq<Token>, gaps: seq<string>) {
    |gaps| == |ts| && forall k :: 0 <= k < |gaps| ==> IsBlank(gaps[k])
  }

  lemma RenderUnfolds(ts: seq<Token>, gaps: seq<string>, tail: string)
    requires |gaps| == |ts| > 0
    ensures Render(ts, gaps) + tail == gaps[0] + Spell(ts[0]) + (Render(ts[1..], gaps[1..]) + tail)
  {
  }

  lemma {:induction false} RenderIsScanned(ts: seq<Token>, gaps: seq<string>, tail: string)
    requires Spaced(ts, gaps) && Stops(tail)
    requires Chained(ts)
    ensures Tokens(Render(ts, gaps) + tail) == ts + [END]
    decreases |ts|
  {
    if ts == [] {
      assert Render(ts, gaps) + tail == tail;
      assert ts + [END] == [END];
    } else {
      RenderIsScanned(ts[1..], gaps[1..], tail);
      PrependRendered(ts, gaps, tail);
    }
  }

  lemma PrependRendered(ts: seq<Token>, gaps: seq<string>, tail: string)
    requires ts != [] && Spaced(ts, gaps) && Stops(tail) && Chained(ts)
    requires Tokens(Render(ts[1..], gaps[1..]) + tail) == ts[1..] + [END]
    ensures Tokens(Render(ts, gaps) + tail) == ts + [END]
  {
    hide Spell, Tokens, Stops, Chained, Separates, Render, IsBlank;
    HeadSeparates(ts, gaps, tail);
    OneIsScanned(ts[0], gaps[0], Render(ts[1..], gaps[1..]) + tail);
    RenderUnfolds(ts, gaps, tail);
    assert [ts[0]] + (ts[1..] + [END]) == ts + [END];
  }

  lemma HeadSeparates(ts: seq<Token>, gaps: seq<string>, tail: string)
    requires ts != [] && Spaced(ts, gaps) && Stops(tail) && Chained(ts)
    ensures !ts[0].END? && !ts[0].BAD? && Separates(ts[0], CharAt(Render(ts[1..], gaps[1..]) + tail, 0))
  {
    hide Stops, Separates, Render;
    NextSeparates(ts[0], ts[1..], gaps[1..], tail);
  }

  lemma SpellingIsNotBlank(t: Token)
    ensures Spell(t) != "" && Spell(t)[0] != ' ' && Spell(t)[0] != '\t'
  {
  }

  lemma Pieces(a: string, b: string, c: string)
    ensures a + b + c == a + (b + c) && (a + b + c)[|a|..] == b + c && (a + b + c)[|a| + |b|..] == c
  {
  }

  lemma OneIsScanned(t: Token, gap: string, rest: string)
    requires IsBlank(gap) && !t.END? && !t.BAD? && Separates(t, CharAt(rest, 0))
    ensures Tokens(gap + Spell(t) + rest) == [t] + Tokens(rest)
  {
    var s, text := Spell(t) + rest, gap + Spell(t) + rest;
    Pieces(gap, Spell(t), rest);
    SpellingIsNotBlank(t);
    BlanksRun(gap, s);
    TokenIsScanned(t, rest);
    assert Lex(text) == (t, |gap| + |Spell(t)|);
  }

  // ---------------------------------------------------------------
  // The main results about texts

  // Every conforming tree, however spaced and wherever it stands in a header, is
  // read back; within the stack limit YyParse returns 0 and its expression
  lemma TreeRoundTrip(c: Cst, pre: string, gaps: seq<string>, tail: string)
    requires Conforms(c) && Spaced(Yield(c), gaps) && Stops(tail)
    ensures var text := pre + (Render(Yield(c), gaps) + tail);
            && TreeOf(text, |pre|, c)
            && Parse(Tokens(text[|pre|..])) == Final(true, Some(Strip(c)), 1 + Need(c) >= YYMAXDEPTH)
  {
    YieldAlternates(c);
    RenderIsScanned(Yield(c), gaps, tail);
    assert (pre + (Render(Yield(c), gaps) + tail))[|pre|..] == Render(Yield(c), gaps) + tail;
    ParseIsComplete(c);
  }

  // Writing an expression with as few parentheses as possible and parsing the
  // text gives the expression back
  lemma RoundTrip(e: Expr, pre: string, gaps: seq<string>, tail: string)
    requires Spaced(Yield(Bare(e)), gaps) && Stops(tail)
    ensures var text := pre + (Render(Yield(Bare(e)), gaps) + tail);
            Parse(Tokens(text[|pre|..])) == Final(true, Some(e), 1 + Need(Bare(e)) >= YYMAXDEPTH)
  {
    BareConforms(e);
    TreeRoundTrip(Bare(e), pre, gaps, tail);
  }

  // plural_eval of what was parsed is the unsigned C value of the text
  lemma ParsedMeaning(text: string, start: nat, n: Word)
    requires start <= |text| && Parse(Tokens(text[start..])).accepted
    ensures var ts, final := Tokens(text[start..]), Parse(Tokens(text[start..]));
            && final.res.Some?
            && TokenValue(ts[..|ts| - 1], n) == Some(PluralEval(final.res.value, n))
  {
    var ts := Tokens(text[start..]);
    var t := ParseIsSound(ts);
    assert ts[..|ts| - 1] == Yield(t);
    EvalIsTokenValue(t, n);
  }

  // ---------------------------------------------------------------
  // Where scanning stops, and what is no token

  // The end, a semicolon and a newline stop it, after blanks or not
  lemma EndsOfText(gap: string, rest: string)
    requires IsBlank(gap)
    ensures Stops(gap) && Stops(gap + (";" + rest)) && Stops(gap + ("\n" + rest)) && Stops(gap + ("\0" + rest))
  {
    BlanksRun(gap, "");
    assert gap + "" == gap && gap[|gap|..] == "";
    StopsBehind(gap, ";" + rest);
    StopsBehind(gap, "\n" + rest);
    StopsBehind(gap, "\0" + rest);
  }

  lemma StopsBehind(gap: string, s: string)
    requires IsBlank(gap) && s != "" && (s[0] == ';' || s[0] == '\n' || s[0] == '\0')
    ensures Stops(gap + s)
  {
    BlanksRun(gap, s);
    assert (gap + s)[|gap|..] == s;
    assert CharAt(gap + s, 0) == if gap == "" then s[0] else gap[0];
  }

  // Half an operator, and any other character, is an error
  lemma StrangersAreBad(c: char, rest: string)
    ensures c !in "0123456789=!&|<>*/%+-n?:();\n\0" ==> First([c] + rest) == (BAD, 1)
    ensures CharAt(rest, 0) != '=' ==> First("=" + rest) == (BAD, 1)
    ensures CharAt(rest, 0) != '&' ==> First("&" + rest) == (BAD, 1)
    ensures CharAt(rest, 0) != '|' ==> First("|" + rest) == (BAD, 1)
  {
    assert CharAt([c] + rest, 0) == c && CharAt("=" + rest, 0) == '=';
    assert CharAt("&" + rest, 0) == '&' && CharAt("|" + rest, 0) == '|';
    assert CharAt("=" + rest, 1) == CharAt("&" + rest, 1) == CharAt("|" + rest, 1) == CharAt(rest, 0);
    assert IsDigit(c) ==> c in "0123456789" by {
      DigitsAreListed(c);
    }
  }

  lemma DigitsAreListed(c: char)
    ensures IsDigit(c) ==> c in "0123456789"
  {
    if IsDigit(c) {
      var i := c as int - '0' as int;
      assert "0123456789"[i] == c;
    }
  }
}
