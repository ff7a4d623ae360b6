// Filename patterns: fnmatch() of lib/fnmatch.c with no flags set.
module Fnmatch {

  // A member of a bracket expression: a character or a range
  datatype Member = One(c: char) | Range(from: char, to: char)

  datatype Item =
    | AnyChar
    | AnyString
    | Literal(c: char)
    | Escaped(c: char)
    | Bracket(mark: string, members: seq<Member>)

  // ---------------------------------------------------------------
  // The language of a pattern (section 2.13 of the Shell and Utilities volume of POSIX)

  predicate InMember(m: Member, ch: char) {
    match m
    case One(c) => ch == c
    case Range(from, to) => from <= ch <= to
  }

  predicate InMembers(ms: seq<Member>, ch: char) {
    ms != [] && (InMember(ms[0], ch) || InMembers(ms[1..], ch))
  }

  // A mark negates the set
  predicate ItemMatches(item: Item, ch: char)
    requires !item.AnyString?
  {
    match item
    case AnyChar => true
    case Literal(c) => ch == c
    case Escaped(c) => ch == c
    case Bracket(mark, members) => InMembers(members, ch) <==> mark == ""
  }

  ghost predicate Matches(items: seq<Item>, s: string)
    decreases |items|
  {
    if items == [] then s == ""
    else if items[0].AnyString? then exists k :: 0 <= k <= |s| && Matches(items[1..], s[k..])
    else s != "" && ItemMatches(items[0], s[0]) && Matches(items[1..], s[1..])
  }

  // ---------------------------------------------------------------
  // How patterns are written

  function MemberText(m: Member): string {
    match m
    case One(c) => [c]
    case Range(from, to) => [from, '-', to]
  }

  // The members and the closing bracket
  function MembersText(ms: seq<Member>): string {
    if ms == [] then "]" else MemberText(ms[0]) + MembersText(ms[1..])
  }

  function ItemText(item: Item): string {
    match item
    case AnyChar => "?"
    case AnyString => "*"
    case Literal(c) => [c]
    case Escaped(c) => ['\\', c]
    case Bracket(mark, members) => "[" + (mark + MembersText(members))
  }

  function Text(items: seq<Item>): string {
    if items == [] then "" else ItemText(items[0]) + Text(items[1..])
  }

  predicate Plain(c: char) {
    c != '\0' && c != '\\'
  }

  function FirstOf(m: Member): char {
    if m.One? then m.c else m.from
  }

  // Members after the first do not start with the closing bracket; a range does not
  // end with it; and a hyphen after a single character is the last member
  predicate MembersOk(ms: seq<Member>) {
    match |ms|
    case 0 => true
    case _ =>
      var m, rest := ms[0], ms[1..];
      && Plain(FirstOf(m)) && (m.Range? ==> Plain(m.to) && m.to != ']')
      && (rest != [] ==> FirstOf(rest[0]) != ']')
      && (rest != [] && m.One? && FirstOf(rest[0]) == '-' ==> rest == [One('-')])
      && MembersOk(rest)
  }

  predicate ItemOk(item: Item) {
    match item
    case AnyChar => true
    case AnyString => true
    case Literal(c) => c != '\0' && c != '?' && c != '*' && c != '[' && c != '\\'
    case Escaped(c) => c != '\0'
    case Bracket(mark, members) =>
      && (mark == "" || mark == "!" || mark == "^") && members != [] && MembersOk(members)
      && (mark == "" ==> FirstOf(members[0]) != '!' && FirstOf(members[0]) != '^')
  }

  // No second '*' in a run of wildcards
  predicate NoStarInRun(items: seq<Item>) {
    items == [] || (!items[0].AnyString? && (items[0].AnyChar? ==> NoStarInRun(items[1..])))
  }

  predicate WellFormed(items: seq<Item>) {
    items == []
    || (ItemOk(items[0]) && WellFormed(items[1..]) && (items[0].AnyString? ==> NoStarInRun(items[1..])))
  }

  // ---------------------------------------------------------------
  // Bracket expressions

  lemma {:induction false} RestHasNoCloser(ms: seq<Member>)
    requires MembersOk(ms) && (ms != [] ==> FirstOf(ms[0]) != ']')
    ensures MembersText(ms) != "" && ']' !in MembersText(ms)[..|MembersText(ms)| - 1]
    ensures MembersText(ms)[|MembersText(ms)| - 1] == ']'
  {
    if ms != [] {
      RestHasNoCloser(ms[1..]);
      var a, b := MemberText(ms[0]), MembersText(ms[1..]);
      assert (a + b)[..|a + b| - 1] == a + b[..|b| - 1];
    }
  }

  // The loop that skips the rest of a bracket expression.  Here and below, 'q' starts
  // with the character last read and goes on with those still to be read.
  method SkipBracket(q: string, ghost body: string, ghost tail: string) returns (p: string)
    requires q == body + ("]" + tail) && ']' !in body
    ensures p == tail
  {
    p := q;
    ghost var left := body;
    while p[0] != ']'
      invariant p == left + ("]" + tail) && ']' !in left
      decreases |p|
    {
      SkipOne(left, tail);
      p := p[1..];
      left := left[1..];
    }
    SkipNone(left, tail);
    p := p[1..];
  }

  lemma SkipOne(left: string, tail: string)
    requires (left + ("]" + tail))[0] != ']'
    ensures left != "" && (left + ("]" + tail))[1..] == left[1..] + ("]" + tail)
  {
  }

  lemma SkipNone(left: string, tail: string)
    requires ']' !in left && (left + ("]" + tail))[0] == ']'
    ensures (left + ("]" + tail))[1..] == tail
  {
  }

  // The bounds that a member is compared with
  function Bounds(m: Member): (char, char) {
    match m
    case One(c) => (c, c)
    case Range(from, to) => (from, to)
  }

  lemma BoundsMeanMember(m: Member, ch: char)
    ensures Bounds(m).0 <= ch <= Bounds(m).1 <==> InMember(m, ch)
  {
    if m.One? && m.c as int == ch as int {
      assert (m.c as int) as char == (ch as int) as char;
    }
  }

  // One round of the loop over the members: the bounds of the member at q, and what
  // comes after it
  method ReadMember(q: string, ghost ms: seq<Member>, ghost tail: string) returns (cstart: char, cend: char, p: string)
    requires ms != [] && MembersOk(ms) && q == MembersText(ms) + tail
    ensures (cstart, cend) == Bounds(ms[0]) && p == MembersText(ms[1..]) + tail
  {
    ghost var rest := MembersText(ms[1..]) + tail;
    RestStarts(ms[1..], tail);
    MemberFirst(ms, tail);
    cstart, cend := q[0], q[0];
    p := q[1..];
    if p[0] == '-' && p[1] != ']' {
      cend := p[1];
      p := p[2..];
    }
  }

  lemma MemberFirst(ms: seq<Member>, tail: string)
    requires ms != []
    ensures var q, rest := MembersText(ms) + tail, MembersText(ms[1..]) + tail;
            && q[0] == FirstOf(ms[0])
            && (ms[0].One? ==> q[1..] == rest)
            && (ms[0].Range? ==> |q| > 3 && q[1] == '-' && q[2] == ms[0].to && q[3..] == rest)
  {
    var text := MembersText(ms[1..]);
    RestStarts(ms[1..], tail);
    assert MembersText(ms) == MemberText(ms[0]) + text;
    MemberBefore(ms[0], text, tail);
  }

  lemma MemberBefore(m: Member, text: string, tail: string)
    requires text + tail != ""
    ensures var q, rest := (MemberText(m) + text) + tail, text + tail;
            && q[0] == FirstOf(m)
            && (m.One? ==> q[1..] == rest)
            && (m.Range? ==> |q| > 3 && q[1] == '-' && q[2] == m.to && q[3..] == rest)
  {
    var q, rest := (MemberText(m) + text) + tail, text + tail;
    assert q == MemberText(m) + rest;
  }

  // What follows a member
  lemma RestStarts(ms: seq<Member>, tail: string)
    ensures var s := MembersText(ms) + tail;
            && s != ""
            && (ms == [] ==> s[0] == ']')
            && (ms != [] ==> s[0] == FirstOf(ms[0]))
            && (ms == [One('-')] ==> |s| > 1 && s[1] == ']')
            && (s[0] == '-' ==> |s| > 1)
  {
    if ms != [] {
      var more := MembersText(ms[1..]);
      assert MembersText(ms) == MemberText(ms[0]) + more;
      assert more != "" && (ms[1..] == [] ==> more[0] == ']');
    }
  }

  // The case '[': whether ch is matched, and the pattern behind the bracket
  method MatchBracket(p: string, ch: char, ghost mark: string, ghost ms: seq<Member>, ghost tail: string)
    returns (ok: bool, rest: string)
    requires ItemOk(Item.Bracket(mark, ms)) && p == (mark + MembersText(ms)) + tail
    ensures ok <==> ItemMatches(Item.Bracket(mark, ms), ch)
    ensures rest == tail
  {
    BracketStarts(mark, ms, tail);
    var q := p;
    var not := q[0] == '!' || q[0] == '^';
    if not {
      q := q[1..];
    }
    ghost var left := ms;
    while true
      invariant left != [] && MembersOk(left) && q == MembersText(left) + tail
      invariant InMembers(left, ch) == InMembers(ms, ch)
      decreases |left|
    {
      var cstart, cend;
      BoundsMeanMember(left[0], ch);
      cstart, cend, q := ReadMember(q, left, tail);
      left := left[1..];
      if cstart <= ch <= cend {
        BodyAndCloser(left, tail);
        var text := MembersText(left);
        rest := SkipBracket(q, text[..|text| - 1], tail);
        return !not, rest;
      }
      RestStarts(left, tail);
      if q[0] == ']' {
        return not, q[1..];
      }
    }
  }

  lemma BracketStarts(mark: string, ms: seq<Member>, tail: string)
    requires ItemOk(Item.Bracket(mark, ms))
    ensures var p := (mark + MembersText(ms)) + tail;
            && p != "" && (p[0] == '!' || p[0] == '^' <==> mark != "")
            && (if mark == "" then p else p[1..]) == MembersText(ms) + tail
  {
    RestStarts(ms, tail);
    assert (mark + MembersText(ms)) + tail == mark + (MembersText(ms) + tail);
  }

  lemma BodyAndCloser(ms: seq<Member>, tail: string)
    requires MembersOk(ms) && (ms != [] ==> FirstOf(ms[0]) != ']')
    ensures var text := MembersText(ms);
            && text != "" && ']' !in text[..|text| - 1]
            && text + tail == text[..|text| - 1] + ("]" + tail)
  {
    RestHasNoCloser(ms);
    var text := MembersText(ms);
    assert text == text[..|text| - 1] + "]";
  }

  // ---------------------------------------------------------------
  // Strings of any length

  // A '*' matches nothing, or one character and more
  lemma StarUnfolds(items: seq<Item>, s: string)
    ensures Matches([AnyString] + items, s)
            <==> Matches(items, s) || (s != "" && Matches([AnyString] + items, s[1..]))
  {
    var star := [AnyString] + items;
    assert star[1..] == items && s[0..] == s;
    if Matches(star, s) && !Matches(items, s) {
      var k :| 0 <= k <= |s| && Matches(items, s[k..]);
      assert s[1..][k - 1..] == s[k..];
    }
    if s != "" && Matches(star, s[1..]) {
      var k :| 0 <= k <= |s| - 1 && Matches(items, s[1..][k..]);
      assert s[1..][k..] == s[k + 1..];
    }
  }

  // A '*' and a '?' may change places
  lemma {:induction false} StarThenAny(items: seq<Item>, s: string)
    ensures Matches([AnyString] + ([AnyChar] + items), s) <==> s != "" && Matches([AnyString] + items, s[1..])
    decreases |s|
  {
    var any := [AnyChar] + items;
    assert any[1..] == items;
    StarUnfolds(any, s);
    if s != "" {
      StarUnfolds(items, s[1..]);
      StarThenAny(items, s[1..]);
    }
  }

  lemma StarAlone(s: string)
    ensures Matches([AnyString], s)
  {
    assert s[|s|..] == "" && [AnyString][1..] == [];
  }

  // The pattern after a run of wildcards starts with something that takes a character
  predicate TakesChar(items: seq<Item>) {
    items != [] && !items[0].AnyString? && !items[0].AnyChar?
  }

  // What follows the first character of an item
  function AfterFirst(item: Item): string {
    match item
    case Escaped(c) => [c]
    case Bracket(mark, members) => mark + MembersText(members)
    case _ => ""
  }

  function FirstChar(item: Item): char {
    match item
    case AnyChar => '?'
    case AnyString => '*'
    case Literal(c) => c
    case Escaped(_) => '\\'
    case Bracket(_, _) => '['
  }

  lemma ItemStarts(item: Item)
    ensures ItemText(item) == [FirstChar(item)] + AfterFirst(item)
  {
    hide MembersText;
  }

  lemma TextStarts(items: seq<Item>)
    requires items != []
    ensures var p := Text(items);
            p != "" && p[0] == FirstChar(items[0]) && p[1..] == AfterFirst(items[0]) + Text(items[1..])
  {
    hide ItemText, AfterFirst, FirstChar;
    ItemStarts(items[0]);
    assert ([FirstChar(items[0])] + AfterFirst(items[0]) + Text(items[1..]))[1..] == AfterFirst(items[0])
        + Text(items[1..]);
  }

  // Another first character cannot start a match
  lemma WrongStart(items: seq<Item>, s: string, c1: char)
    requires items != [] && s != "" && s[0] != c1
    requires items[0] == Literal(c1) || items[0] == Escaped(c1)
    ensures !Matches(items, s)
  {
  }

  const FNM_NOMATCH: int := 1

  // The case '*': 'rest' is the pattern behind it
  method MatchStar(pattern: string, str: string, ghost rest: seq<Item>) returns (r: int)
    requires WellFormed(rest) && NoStarInRun(rest) && pattern == Text(rest)
    ensures r == if Matches([AnyString] + rest, str) then 0 else FNM_NOMATCH
    decreases |rest|, 2
  {
    hide Matches;
    var p, n := pattern, str;
    ghost var left := rest;
    while p != "" && (p[0] == '?' || p[0] == '*')
      invariant |left| <= |rest| && WellFormed(left) && NoStarInRun(left) && p == Text(left)
      invariant Matches([AnyString] + left, n) == Matches([AnyString] + rest, str)
      decreases |left|
    {
      TextStarts(left);
      assert left == [AnyChar] + left[1..];
      StarThenAny(left[1..], n);
      if p[0] == '?' && n == "" {
        return FNM_NOMATCH;
      }
      p := p[1..];
      n := n[1..];
      left := left[1..];
    }
    if p == "" {
      EmptyText(left);
      StarAlone(n);
      assert [AnyString] + left == [AnyString];
      return 0;
    }
    RunEnds(left);
    r := SearchFrom(p, n, left);
  }

  lemma EmptyText(items: seq<Item>)
    ensures Text(items) == "" <==> items == []
  {
  }

  lemma RunEnds(items: seq<Item>)
    requires WellFormed(items) && NoStarInRun(items) && items != [] && Text(items)[0] != '?' && Text(items)[0] != '*'
    ensures TakesChar(items)
  {
    TextStarts(items);
  }

  // The loop that tries the rest of the pattern at every place
  method SearchFrom(p: string, str: string, ghost items: seq<Item>) returns (r: int)
    requires WellFormed(items) && TakesChar(items) && p == Text(items)
    ensures r == if Matches([AnyString] + items, str) then 0 else FNM_NOMATCH
    decreases |items|, 1
  {
    TextStarts(items);
    var n := str;
    var c := p[0];
    var c1 := if c == '\\' then p[1] else c;
    while n != ""
      invariant Matches([AnyString] + items, n) == Matches([AnyString] + items, str)
      decreases |n|
    {
      StarUnfolds(items, n);
      if c == '[' || n[0] == c1 {
        r := Fnmatch(p, n, items);
        if r == 0 {
          return 0;
        }
      } else {
        WrongStart(items, n, c1);
      }
      n := n[1..];
    }
    StarUnfolds(items, n);
    return FNM_NOMATCH;
  }

  // fnmatch.  A well formed pattern matches exactly the strings of its language.
  method Fnmatch(pattern: string, str: string, ghost items: seq<Item>) returns (r: int)
    requires WellFormed(items) && pattern == Text(items)
    ensures r == if Matches(items, str) then 0 else FNM_NOMATCH
    decreases |items|, 0
  {
    var p, n := pattern, str;
    ghost var left := items;
    while p != ""
      invariant |left| <= |items| && WellFormed(left) && p == Text(left)
      invariant Matches(left, n) == Matches(items, str)
      decreases |left|
    {
      EmptyText(left);
      TextStarts(left);
      var c := p[0];
      p := p[1..];
      match c {
      case '?' =>
        if n == "" {
          return FNM_NOMATCH;
        }
      case '\\' =>
        c := p[0];
        p := p[1..];
        if n == "" || n[0] != c {
          return FNM_NOMATCH;
        }
      case '*' =>
        assert left == [AnyString] + left[1..];
        r := MatchStar(p, n, left[1..]);
        return;
      case '[' =>
        if n == "" {
          return FNM_NOMATCH;
        }
        var ok;
        ok, p := MatchBracket(p, n[0], left[0].mark, left[0].members, Text(left[1..]));
        if !ok {
          return FNM_NOMATCH;
        }
      case _ =>
        if n == "" || c != n[0] {
          return FNM_NOMATCH;
        }
      }
      n := n[1..];
      left := left[1..];
    }
    EmptyText(left);
    return if n == "" then 0 else FNM_NOMATCH;
  }
}
