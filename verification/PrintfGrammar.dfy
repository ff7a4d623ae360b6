// The directives of a format string (intl/printf-parse.c): their grammar, and the
// greedy reader that decides it.
module PrintfGrammar {
  import opened Words
  import opened Sequences
  import opened Numerals
  import opened XSize

  predicate IsFlag(c: char) {
    c == '\'' || c == '-' || c == '+' || c == ' ' || c == '#' || c == '0'
  }

  predicate IsModifier(c: char) {
    c == 'h' || c == 'L' || c == 'l' || c == 'j' || c == 'z' || c == 'Z' || c == 't'
  }

  predicate IsConversion(c: char) {
    || c == 'd' || c == 'i' || c == 'o' || c == 'u' || c == 'x' || c == 'X'
    || c == 'f' || c == 'F' || c == 'e' || c == 'E' || c == 'g' || c == 'G' || c == 'a' || c == 'A'
    || c == 'c' || c == 'C' || c == 's' || c == 'S' || c == 'p' || c == 'n' || c == '%'
  }

  ghost predicate All(p: char -> bool, s: string) {
    forall i :: 0 <= i < |s| ==> p(s[i])
  }

  // The longest start of s whose characters satisfy p
  function Span(p: char -> bool, s: string): (r: string)
    ensures r <= s && All(p, r)
    ensures r == s || !p(s[|r|])
  {
    if s == "" || !p(s[0]) then "" else [s[0]] + Span(p, s[1..])
  }

  // A number that ends in '$'; a width or a precision; a directive after its '%'
  datatype Amount = Absent | Number(digits: string) | Star(posn: Option<string>)

  datatype Dir = Dir(posn: Option<string>, flags: string, width: Amount, precision: Amount, modifiers: string,
                     conv: char)

  function PosnText(posn: Option<string>): string {
    if posn.None? then "" else posn.value + "$"
  }

  function WidthText(a: Amount): string {
    match a
    case Absent => ""
    case Number(digits) => digits
    case Star(posn) => "*" + PosnText(posn)
  }

  function PrecisionText(a: Amount): string {
    if a.Absent? then "" else "." + WidthText(a)
  }

  function Text(d: Dir): string {
    PosnText(d.posn) + (d.flags + (WidthText(d.width) + (PrecisionText(d.precision) + (d.modifiers + [d.conv]))))
  }

  // Positions count from 1 and stay below SIZE_MAX
  ghost predicate PosnOk(posn: Option<string>) {
    posn.Some? ==> posn.value != "" && All(IsDigit, posn.value) && 0 < Decimal(posn.value) < SIZE_MAX
  }

  ghost predicate AmountOk(a: Amount) {
    match a
    case Absent => true
    case Number(digits) => All(IsDigit, digits)
    case Star(posn) => PosnOk(posn)
  }

  // The grammar: a width is no flag at its start, and is not empty
  ghost predicate DirOk(d: Dir) {
    && PosnOk(d.posn) && All(IsFlag, d.flags) && AmountOk(d.width) && AmountOk(d.precision)
    && (d.width.Number? ==> d.width.digits != "" && d.width.digits[0] != '0')
    && All(IsModifier, d.modifiers) && IsConversion(d.conv)
  }

  // ---------------------------------------------------------------
  // Reading

  datatype Read<T> = Bad | Good(value: T, rest: string)

  // The loops over digits, saturating
  function Saturating(digits: string): (n: Size)
    requires All(IsDigit, digits)
    ensures n == Clip(Decimal(digits))
  {
    if digits == "" then 0
    else
      var before := Saturating(digits[..|digits| - 1]);
      Xsum(Xtimes(before, 10), digits[|digits| - 1] as int - '0' as int)
  }

  function ReadPosn(s: string): (r: Read<Option<string>>)
    ensures r.Good? ==> PosnOk(r.value)
  {
    var digits := Span(IsDigit, s);
    if digits == "" || |digits| == |s| || s[|digits|] != '$' then Good(None, s)
    else if Saturating(digits) == 0 || Saturating(digits) == SIZE_MAX then Bad
    else Good(Some(digits), s[|digits| + 1..])
  }

  function ReadStar(s: string): (r: Read<Amount>)
    ensures r.Good? ==> AmountOk(r.value)
  {
    match ReadPosn(s)
    case Bad => Bad
    case Good(posn, rest) => Good(Star(posn), rest)
  }

  function ReadAmount(s: string): (r: Read<Amount>)
    ensures r.Good? ==> AmountOk(r.value)
  {
    if s != "" && s[0] == '*' then ReadStar(s[1..])
    else
      var digits := Span(IsDigit, s);
      Good(Number(digits), s[|digits|..])
  }

  // No digits, no width
  function ReadWidth(s: string): (r: Read<Amount>)
    ensures r.Good? ==> AmountOk(r.value)
  {
    var r := ReadAmount(s);
    if r == Good(Number(""), s) then Good(Absent, s) else r
  }

  function ReadPrecision(s: string): (r: Read<Amount>)
    ensures r.Good? ==> AmountOk(r.value)
  {
    if s == "" || s[0] != '.' then Good(Absent, s) else ReadAmount(s[1..])
  }

  // A directive after its '%'
  function ReadDir(s: string): Read<Dir> {
    match ReadPosn(s)
    case Bad => Bad
    case Good(posn, s1) =>
      var flags := Span(IsFlag, s1);
      match ReadWidth(s1[|flags|..])
      case Bad => Bad
      case Good(width, s2) =>
        match ReadPrecision(s2)
        case Bad => Bad
        case Good(precision, s3) =>
          var modifiers := Span(IsModifier, s3);
          var s4 := s3[|modifiers|..];
          if s4 == "" || !IsConversion(s4[0]) then Bad
          else Good(Dir(posn, flags, width, precision, modifiers, s4[0]), s4[1..])
  }

  // ---------------------------------------------------------------
  // What is read is in the grammar

  lemma SpanSplits(p: char -> bool, s: string)
    ensures s == Span(p, s) + s[|Span(p, s)|..]
  {
  }

  lemma Head(s: string)
    requires s != ""
    ensures s == [s[0]] + s[1..]
  {
  }

  lemma PosnSound(s: string)
    ensures var r := ReadPosn(s);
            r.Good? ==> s == PosnText(r.value) + r.rest && PosnOk(r.value)
  {
    var digits := Span(IsDigit, s);
    if ReadPosn(s).Good? && ReadPosn(s).value.Some? {
      SpanSplits(IsDigit, s);
      Head(s[|digits|..]);
      assert s[|digits|..][1..] == s[|digits| + 1..];
      Associate(digits, "$", s[|digits| + 1..]);
    }
  }

  lemma AmountSound(s: string)
    ensures var r := ReadAmount(s);
            && (r.Good? ==> s == WidthText(r.value) + r.rest && AmountOk(r.value) && !r.value.Absent?)
            && (r.Good? && r.value.Number? ==> r.value.digits <= s)
  {
    if s != "" && s[0] == '*' {
      PosnSound(s[1..]);
      Head(s);
      var r := ReadPosn(s[1..]);
      if r.Good? {
        Associate("*", PosnText(r.value), r.rest);
      }
    } else {
      SpanSplits(IsDigit, s);
    }
  }

  lemma WidthSound(s: string)
    ensures var r := ReadWidth(s);
            && (r.Good? ==> s == WidthText(r.value) + r.rest && AmountOk(r.value))
            && (r.Good? && r.value.Number? ==> r.value.digits != "" && r.value.digits <= s)
  {
    AmountSound(s);
  }

  lemma PrecisionSound(s: string)
    ensures var r := ReadPrecision(s);
            r.Good? ==> s == PrecisionText(r.value) + r.rest && AmountOk(r.value)
  {
    if s != "" && s[0] == '.' {
      AmountSound(s[1..]);
      Head(s);
      var r := ReadAmount(s[1..]);
      if r.Good? {
        Associate(".", WidthText(r.value), r.rest);
      }
    }
  }

  lemma RegroupSeven(a: string, b: string, c: string, d: string, e: string, f: string, rest: string)
    ensures a + (b + (c + (d + (e + (f + rest))))) == (a + (b + (c + (d + (e + f))))) + rest
  {
    Associate(e, f, rest);
    Associate(d, e + f, rest);
    Associate(c, d + (e + f), rest);
    Associate(b, c + (d + (e + f)), rest);
    Associate(a, b + (c + (d + (e + f))), rest);
  }

  // What is read is a directive of the grammar, and its text
  lemma ReadDirIsSound(s: string)
    ensures var r := ReadDir(s);
            r.Good? ==> s == Text(r.value) + r.rest && DirOk(r.value)
  {
    var r := ReadDir(s);
    if r.Good? {
      PosnSound(s);
      var s1 := ReadPosn(s).rest;
      var flags := Span(IsFlag, s1);
      SpanSplits(IsFlag, s1);
      WidthSound(s1[|flags|..]);
      var s2 := ReadWidth(s1[|flags|..]).rest;
      PrecisionSound(s2);
      var s3 := ReadPrecision(s2).rest;
      SpanSplits(IsModifier, s3);
      var s4 := s3[|Span(IsModifier, s3)|..];
      Head(s4);
      var d := r.value;
      RegroupSeven(PosnText(d.posn), d.flags, WidthText(d.width), PrecisionText(d.precision), d.modifiers, [d.conv],
                   r.rest);
    }
  }

  // ---------------------------------------------------------------
  // Every text of the grammar is read back

  lemma SpanOf(p: char -> bool, a: string, b: string)
    requires All(p, a) && (b == "" || !p(b[0]))
    ensures Span(p, a + b) == a && (a + b)[|a|..] == b
  {
    if a == "" {
      assert a + b == b;
    } else {
      assert (a + b)[1..] == a[1..] + b;
      SpanOf(p, a[1..], b);
    }
  }

  lemma PosnComplete(posn: Option<string>, rest: string)
    requires PosnOk(posn)
    requires posn.None? ==> !StartsLikePosn(rest)
    ensures ReadPosn(PosnText(posn) + rest) == Good(posn, rest)
  {
    if posn.Some? {
      var digits := posn.value;
      Associate(digits, "$", rest);
      SpanOf(IsDigit, digits, "$" + rest);
      assert (digits + ("$" + rest))[|digits| + 1..] == rest;
    } else {
      assert "" + rest == rest;
    }
  }

  predicate StartsLikePosn(s: string) {
    var digits := Span(IsDigit, s);
    digits != "" && |digits| < |s| && s[|digits|] == '$'
  }

  // Where the text of a directive cannot be taken for a position
  predicate DigitsThenDollar(s: string) {
    s != "" && if IsDigit(s[0]) then DigitsThenDollar(s[1..]) else s[0] == '$'
  }

  lemma {:induction false} NoPosn(s: string)
    requires !DigitsThenDollar(s)
    ensures !StartsLikePosn(s)
  {
    if s != "" && IsDigit(s[0]) {
      NoPosn(s[1..]);
      var digits := Span(IsDigit, s[1..]);
      assert Span(IsDigit, s) == [s[0]] + digits;
      if |digits| + 1 < |s| {
        assert s[|digits| + 1] == s[1..][|digits|];
        if digits == "" {
          assert s[1..][0] == s[1];
        }
      }
    }
  }

  lemma {:induction false} NoDollar(p: char -> bool, a: string, b: string)
    requires All(p, a) && !DigitsThenDollar(b) && !p('$')
    ensures !DigitsThenDollar(a + b)
  {
    if a == "" {
      assert a + b == b;
    } else {
      assert (a + b)[1..] == a[1..] + b;
      NoDollar(p, a[1..], b);
    }
  }

  // What can follow a flag, a width and a precision
  predicate EndsAmount(s: string) {
    s != "" && !IsDigit(s[0]) && s[0] != '$' && s[0] != '*'
  }

  predicate EndsFlags(s: string) {
    s != "" && !IsFlag(s[0])
  }

  lemma AmountComplete(a: Amount, rest: string)
    requires AmountOk(a) && !a.Absent? && EndsAmount(rest)
    ensures ReadAmount(WidthText(a) + rest) == Good(a, rest)
    ensures !DigitsThenDollar(WidthText(a) + rest)
  {
    match a
    case Number(digits) =>
      SpanOf(IsDigit, digits, rest);
      NoDollar(IsDigit, digits, rest);
      assert digits != "" ==> (digits + rest)[0] == digits[0];
      assert digits == "" ==> digits + rest == rest;
    case Star(posn) =>
      NoPosn(rest);
      PosnComplete(posn, rest);
      Associate("*", PosnText(posn), rest);
      assert ("*" + (PosnText(posn) + rest))[1..] == PosnText(posn) + rest;
  }

  lemma WidthComplete(a: Amount, rest: string)
    requires AmountOk(a) && EndsAmount(rest) && EndsFlags(rest)
    requires a.Number? ==> a.digits != "" && a.digits[0] != '0'
    ensures ReadWidth(WidthText(a) + rest) == Good(a, rest)
    ensures !DigitsThenDollar(WidthText(a) + rest) && EndsFlags(WidthText(a) + rest)
  {
    if a.Absent? {
      assert WidthText(a) + rest == rest;
    } else {
      AmountComplete(a, rest);
    }
  }

  lemma PrecisionComplete(a: Amount, rest: string)
    requires AmountOk(a) && EndsAmount(rest) && rest[0] != '.' && EndsFlags(rest)
    ensures var s := PrecisionText(a) + rest;
            ReadPrecision(s) == Good(a, rest) && EndsAmount(s) && EndsFlags(s)
  {
    if a.Absent? {
      assert PrecisionText(a) + rest == rest;
    } else {
      AmountComplete(a, rest);
      Associate(".", WidthText(a), rest);
      assert ("." + (WidthText(a) + rest))[1..] == WidthText(a) + rest;
    }
  }

  lemma ConversionStandsApart(c: char)
    requires IsConversion(c)
    ensures !IsFlag(c) && !IsModifier(c)
  {
    assert c == '%' || c as int >= 'A' as int;
  }

  lemma ModifiersComplete(modifiers: string, conv: char, tail: string)
    requires All(IsModifier, modifiers) && IsConversion(conv)
    ensures var s := modifiers + ([conv] + tail);
            && Span(IsModifier, s) == modifiers && s[|modifiers|..] == [conv] + tail
            && EndsAmount(s) && s[0] != '.' && EndsFlags(s)
  {
    ConversionStandsApart(conv);
    SpanOf(IsModifier, modifiers, [conv] + tail);
    var s := modifiers + ([conv] + tail);
    if modifiers == "" {
      assert s[0] == conv;
    } else {
      assert s[0] == modifiers[0] && IsModifier(modifiers[0]);
    }
  }

  // Every directive of the grammar is read back from its text, whatever follows
  lemma ReadDirIsComplete(d: Dir, tail: string)
    requires DirOk(d)
    ensures ReadDir(Text(d) + tail) == Good(d, tail)
  {
    var s4 := [d.conv] + tail;
    var s3 := d.modifiers + s4;
    var s2 := PrecisionText(d.precision) + s3;
    var s1 := WidthText(d.width) + s2;
    var s0 := d.flags + s1;
    RegroupSeven(PosnText(d.posn), d.flags, WidthText(d.width), PrecisionText(d.precision), d.modifiers, [d.conv],
                 tail);
    ModifiersComplete(d.modifiers, d.conv, tail);
    PrecisionComplete(d.precision, s3);
    WidthComplete(d.width, s2);
    SpanOf(IsFlag, d.flags, s1);
    NoDollar(IsFlag, d.flags, s1);
    NoPosn(s0);
    PosnComplete(d.posn, s0);
    assert s4[1..] == tail;
  }
}
