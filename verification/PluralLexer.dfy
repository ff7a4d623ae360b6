// The scanner of intl/plural.c.
module PluralLexer {
  import opened Words
  import opened Numerals
  import opened PluralExp
  import opened PluralGrammar
  import opened PluralTables
  import opened PluralMachine

  // A C string: the character past the end is NUL
  function CharAt(s: string, i: nat): char {
    if i < |s| then s[i] else '\0'
  }

  // How many blanks a text begins with
  function Blanks(s: string): (n: nat)
    ensures n <= |s|
  {
    if s != "" && (s[0] == ' ' || s[0] == '\t') then 1 + Blanks(s[1..]) else 0
  }

  // How many digits a text begins with
  function Digits(s: string): (n: nat)
    ensures n <= |s|
  {
    if s != "" && IsDigit(s[0]) then 1 + Digits(s[1..]) else 0
  }

  // The token that character c starts when d follows, and how many characters it
  // takes.  The characters that end the input are not used up.
  function Symbol(c: char, d: char): (r: (Token, nat))
    ensures r.0 == END <==> c == ';' || c == '\n' || c == '\0'
    ensures if r.0 == END then r.1 == 0 else r.1 == 1 || (r.1 == 2 && (d == '=' || d == '&' || d == '|'))
  {
    match c
    case '=' => if d == '=' then (OP(Equal), 2) else (BAD, 1)
    case '!' => if d == '=' then (OP(NotEqual), 2) else (NOT, 1)
    case '&' => if d == '&' then (OP(Land), 2) else (BAD, 1)
    case '|' => if d == '|' then (OP(Lor), 2) else (BAD, 1)
    case '<' => if d == '=' then (OP(LessOrEqual), 2) else (OP(LessThan), 1)
    case '>' => if d == '=' then (OP(GreaterOrEqual), 2) else (OP(GreaterThan), 1)
    case '*' => (OP(Mult), 1)
    case '/' => (OP(Divide), 1)
    case '%' => (OP(Module), 1)
    case '+' => (OP(Plus), 1)
    case '-' => (OP(Minus), 1)
    case 'n' => (VAR, 1)
    case '?' => (QUESTION, 1)
    case ':' => (COLON, 1)
    case '(' => (LPAREN, 1)
    case ')' => (RPAREN, 1)
    case ';' => (END, 0)
    case '\n' => (END, 0)
    case '\0' => (END, 0)
    case _ => (BAD, 1)
  }

  // The token that begins a text without leading blanks, and its length
  function First(s: string): (r: (Token, nat))
    ensures if r.0 == END then r.1 == 0 else 0 < r.1 <= |s|
  {
    if IsDigit(CharAt(s, 0)) then (NUMBER(Decimal(s[..Digits(s)]) % ULONG_MODULUS), Digits(s))
    else Symbol(CharAt(s, 0), CharAt(s, 1))
  }

  // The same for any text, with the length of the blanks counted in
  function Lex(s: string): (r: (Token, nat))
    ensures r.1 <= |s| && (r.0 != END ==> 0 < r.1)
  {
    var (t, w) := First(s[Blanks(s)..]);
    (t, Blanks(s) + w)
  }

  // A whole text as tokens
  function Tokens(s: string): (ts: seq<Token>)
    ensures Stream(ts)
    decreases |s|
  {
    var (t, w) := Lex(s);
    if t == END then [END] else [t] + Tokens(s[w..])
  }

  lemma DecimalGrows(s: string, i: nat, j: nat)
    requires i <= j < |s|
    ensures Decimal(s[i..j + 1]) == 10 * Decimal(s[i..j]) + Digit(s[j])
  {
    assert s[i..j + 1][..j - i] == s[i..j];
  }

  lemma Wraps(n: nat, d: nat)
    ensures (((n % ULONG_MODULUS) * 10) % ULONG_MODULUS + d) % ULONG_MODULUS == (10 * n + d) % ULONG_MODULUS
  {
  }

  // The case of yylex for a number whose first digit is at 'start'.  The value
  // is reduced digit by digit, yet it is the whole number reduced once.
  method ScanNumber(s: string, start: nat) returns (n: Word, exp: nat)
    requires start < |s| && IsDigit(s[start])
    ensures exp == start + Digits(s[start..])
    ensures n == Decimal(s[start..exp]) % ULONG_MODULUS
  {
    exp := start + 1;
    n := Digit(s[start]);
    DecimalGrows(s, start, start);
    assert s[start..][1..] == s[exp..];
    while IsDigit(CharAt(s, exp))
      invariant start < exp <= |s| && exp + Digits(s[exp..]) == start + Digits(s[start..])
      invariant n == Decimal(s[start..exp]) % ULONG_MODULUS
      decreases |s| - exp
    {
      DecimalGrows(s, start, exp);
      Wraps(Decimal(s[start..exp]), Digit(s[exp]));
      n := (n * 10) % ULONG_MODULUS;
      n := (n + Digit(s[exp])) % ULONG_MODULUS;
      assert s[exp..][1..] == s[exp + 1..];
      exp := exp + 1;
    }
  }

  // The cases of yylex for the operators that compare
  method ScanComparison(s: string, start: nat, ghost lval0: SemVal) returns (result: int, exp: nat, lval: SemVal)
    requires start < |s| && (s[start] == '<' || s[start] == '>')
    ensures var (t, w) := First(s[start..]); result == Code(t) && exp == start + w && lval == Store(t, lval0)
  {
    result := CMPOP2;
    exp := start + 1;
    if CharAt(s, exp) == '=' {
      exp := exp + 1;
      lval := OpVal(if s[start] == '<' then LessOrEqual else GreaterOrEqual);
    } else {
      lval := OpVal(if s[start] == '<' then LessThan else GreaterThan);
    }
  }

  // The other cases of yylex
  method ScanSymbol(s: string, start: nat, lval0: SemVal) returns (result: int, exp: nat, lval: SemVal)
    requires start < |s| && !IsDigit(s[start]) && s[start] != '<' && s[start] != '>' && s[start] != '\0'
    ensures var (t, w) := First(s[start..]); result == Code(t) && exp == start + w && lval == Store(t, lval0)
  {
    exp, lval := start + 1, lval0;
    var c, d := s[start], CharAt(s, exp);
    result := c as int;
    match c {
      case '=' =>
        if d == '=' {
          exp, lval, result := exp + 1, OpVal(Equal), EQUOP2;
        } else {
          result := YYERRCODE;
        }
      case '!' =>
        if d == '=' {
          exp, lval, result := exp + 1, OpVal(NotEqual), EQUOP2;
        }
      case '&' =>
        if d == c {
          exp := exp + 1;
        } else {
          result := YYERRCODE;
        }
      case '|' =>
        if d == c {
          exp := exp + 1;
        } else {
          result := YYERRCODE;
        }
      case '*' => lval, result := OpVal(Mult), MULOP2;
      case '/' => lval, result := OpVal(Divide), MULOP2;
      case '%' => lval, result := OpVal(Module), MULOP2;
      case '+' => lval, result := OpVal(Plus), ADDOP2;
      case '-' => lval, result := OpVal(Minus), ADDOP2;
      case 'n' =>
      case '?' =>
      case ':' =>
      case '(' =>
      case ')' =>
      case ';' => exp, result := exp - 1, YYEOF;
      case '\n' => exp, result := exp - 1, YYEOF;
      case _ => result := YYERRCODE;
    }
  }

  lemma LexFrom(s: string, exp0: nat, exp: nat)
    requires exp0 <= exp <= |s| && exp + Blanks(s[exp..]) == exp0 + Blanks(s[exp0..])
    requires CharAt(s, exp) != ' ' && CharAt(s, exp) != '\t'
    ensures Lex(s[exp0..]) == (First(s[exp..]).0, exp - exp0 + First(s[exp..]).1)
  {
    hide First;
    assert s[exp0..][Blanks(s[exp0..])..] == s[exp..];
  }

  lemma NumberThere(s: string, start: nat, end: nat)
    requires start < |s| && IsDigit(s[start]) && end == start + Digits(s[start..])
    ensures start <= end <= |s| && First(s[start..]) == (NUMBER(Decimal(s[start..end]) % ULONG_MODULUS), end - start)
  {
    assert s[start..][..end - start] == s[start..end];
  }

  lemma EndsThere(s: string)
    requires CharAt(s, 0) == '\0'
    ensures First(s) == (END, 0)
  {
  }

  // yylex
  method YyLex(s: string, exp0: nat, lval0: SemVal) returns (result: int, exp: nat, lval: SemVal)
    requires exp0 <= |s|
    ensures var (t, w) := Lex(s[exp0..]); result == Code(t) && exp == exp0 + w && lval == Store(t, lval0)
  {
    hide Lex, First;
    exp, lval := exp0, lval0;
    while true
      invariant exp0 <= exp <= |s| && exp + Blanks(s[exp..]) == exp0 + Blanks(s[exp0..])
      decreases |s| - exp
    {
      if CharAt(s, exp) == '\0' {
        LexFrom(s, exp0, exp);
        EndsThere(s[exp..]);
        return YYEOF, exp, lval;
      }
      if CharAt(s, exp) != ' ' && CharAt(s, exp) != '\t' {
        break;
      }
      assert s[exp..][1..] == s[exp + 1..];
      exp := exp + 1;
    }
    LexFrom(s, exp0, exp);
    var c := s[exp];
    if IsDigit(c) {
      var n, i := ScanNumber(s, exp);
      NumberThere(s, exp, i);
      return NUMBER_TOKEN, i, NumVal(n);
    } else if c == '<' || c == '>' {
      result, exp, lval := ScanComparison(s, exp, lval);
    } else {
      result, exp, lval := ScanSymbol(s, exp, lval);
    }
  }
}
