// What each kind of pattern matches, and how it is written (lib/fnmatch.c).
module FnmatchPatterns {
  import opened Fnmatch

  // Wildcards and characters
  lemma OneCharacterEach(items: seq<Item>, c: char, s: string)
    ensures Matches([], s) <==> s == ""
    ensures Matches([AnyChar] + items, s) <==> s != "" && Matches(items, s[1..])
    ensures Matches([Literal(c)] + items, s) <==> s != "" && s[0] == c && Matches(items, s[1..])
    ensures Matches([Escaped(c)] + items, s) <==> s != "" && s[0] == c && Matches(items, s[1..])
  {
    assert ([AnyChar] + items)[1..] == items;
    assert ([Literal(c)] + items)[1..] == items;
    assert ([Escaped(c)] + items)[1..] == items;
  }

  lemma AnyStringMatches(items: seq<Item>, s: string)
    ensures Matches([AnyString] + items, s) <==> exists k :: 0 <= k <= |s| && Matches(items, s[k..])
  {
    assert ([AnyString] + items)[1..] == items;
  }

  // A bracket expression takes one of its characters, or with a mark none of them
  lemma BracketMatches(mark: string, ms: seq<Member>, items: seq<Item>, s: string)
    ensures Matches([Bracket(mark, ms)] + items, s)
            <==> s != "" && Matches(items, s[1..])
                 && ((exists m :: m in ms && (m == One(s[0]) || (m.Range? && m.from <= s[0] && s[0] <= m.to)))
                     <==> mark == "")
  {
    assert ([Bracket(mark, ms)] + items)[1..] == items;
    if s != "" {
      AmongMembers(ms, s[0]);
    }
  }

  lemma {:induction false} AmongMembers(ms: seq<Member>, ch: char)
    ensures InMembers(ms, ch)
            <==> exists m :: m in ms && (m == One(ch) || (m.Range? && m.from <= ch && ch <= m.to))
  {
    if ms != [] {
      AmongMembers(ms[1..], ch);
      assert forall m :: m in ms <==> m == ms[0] || m in ms[1..];
    }
  }

  // Characters without special meaning match themselves
  function Literals(s: string): seq<Item> {
    seq(|s|, i requires 0 <= i < |s| => Literal(s[i]))
  }

  lemma {:induction false} PlainMatchesItself(s: string, t: string)
    ensures Matches(Literals(s), t) <==> t == s
    ensures Text(Literals(s)) == s
  {
    var items := Literals(s);
    if s != "" {
      assert items[1..] == Literals(s[1..]);
      assert items == [Literal(s[0])] + items[1..];
      OneCharacterEach(items[1..], s[0], t);
      PlainMatchesItself(s[1..], if t == "" then "" else t[1..]);
      assert s == [s[0]] + s[1..];
    }
  }

  // How the special ones are written
  lemma WildcardsAreWritten(c: char, items: seq<Item>)
    ensures Text([AnyChar] + items) == "?" + Text(items)
    ensures Text([AnyString] + items) == "*" + Text(items)
    ensures Text([Escaped(c)] + items) == "\\" + [c] + Text(items)
  {
    assert ([AnyChar] + items)[1..] == ([AnyString] + items)[1..] == ([Escaped(c)] + items)[1..] == items;
  }

  lemma BracketsAreWritten(c: char, from: char, to: char)
    ensures ItemText(Bracket("", [One(c), Range(from, to)])) == "[" + ([c] + ([from, '-', to] + "]"))
    ensures ItemText(Bracket("!", [One(c)])) == "[" + ("!" + ([c] + "]"))
    ensures ItemText(Bracket("^", [One(c)])) == "[" + ("^" + ([c] + "]"))
  {
    var both := [One(c), Range(from, to)];
    assert both[1..] == [Range(from, to)] && both[1..][1..] == [] && [One(c)][1..] == [];
    assert MembersText([One(c)]) == [c] + MembersText([]);
    assert MembersText(both) == [c] + MembersText(both[1..]);
    assert MembersText(both[1..]) == [from, '-', to] + MembersText([]);
    assert "" + MembersText(both) == MembersText(both);
  }
}
