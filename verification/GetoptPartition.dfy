// What a scan of getopt takes for options and what it leaves, told from the elements
// alone (lib/getopt.c).
module GetoptPartition {
  import opened Words
  import opened GetoptScan
  import opened GetoptFacts

  // ---------------------------------------------------------------
  // The arguments of one option element

  // Whether a name needs the next element
  predicate NameTakes(cfg: Config, text: string)
    requires cfg.longopts.Some?
  {
    && '=' !in text && LongMatch(cfg.longopts.value, text).Found?
    && cfg.longopts.value[LongMatch(cfg.longopts.value, text).i].hasArg == RequiredArgument
  }

  function NameArguments(cfg: Config, text: string, following: seq<string>): (n: nat)
    requires cfg.longopts.Some?
    ensures n <= |following|
  {
    if following != [] && NameTakes(cfg, text) then 1 else 0
  }

  // How many of the following elements an option element takes, read from 'next' on
  function Arguments(cfg: Config, elem: string, next: string, following: seq<string>): (n: nat)
    requires |elem| >= 2 && next != "" && WNeedsLongopts(cfg)
    ensures n <= |following|
    decreases |next|
  {
    var rest := next[1..];
    if ReadsLong(cfg, elem, next) then NameArguments(cfg, next, following)
    else if IsW(cfg, next) then
      if rest != "" then NameArguments(cfg, rest, following)
      else if following == [] then 0
      else 1 + NameArguments(cfg, following[0], following[1..])
    else if TakesArgument(cfg, next[0]) then
      if rest == "" && NeedsArgument(cfg, next[0]) && following != [] then 1 else 0
    else if rest == "" then 0
    else Arguments(cfg, elem, rest, following)
  }

  // Whether the reading comes to a -W with an ambiguous name
  predicate MeetsAmbiguousW(cfg: Config, elem: string, next: string, following: seq<string>)
    requires |elem| >= 2 && next != "" && WNeedsLongopts(cfg)
    decreases |next|
  {
    var rest := next[1..];
    if ReadsLong(cfg, elem, next) then false
    else if IsW(cfg, next) then AmbiguousW(cfg, next, following)
    else !TakesArgument(cfg, next[0]) && rest != "" && MeetsAmbiguousW(cfg, elem, rest, following)
  }

  lemma UpToEqWhole(text: string)
    ensures UpToEq(text) == text <==> '=' !in text
  {
    if text != "" && text[0] != '=' {
      UpToEqWhole(text[1..]);
      assert text == [text[0]] + text[1..];
    }
  }

  lemma NamedTakes(cfg: Config, optarg: string, following: seq<string>, done: nat)
    requires cfg.longopts.Some?
    ensures var d := DecodeNamed(cfg, optarg, following, done);
            && d.left == "" && d.taken <= done + 1
            && d.taken == done + NameArguments(cfg, optarg, following)
                          + if LongMatch(cfg.longopts.value, UpToEq(optarg)) == Ambiguous then 1 else 0
  {
    UpToEqWhole(optarg);
  }

  lemma LongTakes(cfg: Config, elem: string, next: string, following: seq<string>)
    requires |elem| >= 2 && next != "" && LooksLong(cfg, elem)
    ensures var d := DecodeLong(cfg, elem, next, following);
            && (d.Some? <==> ReadsLong(cfg, elem, next))
            && (d.Some? ==> d.value.left == "" && d.value.taken == 1 + NameArguments(cfg, next, following))
  {
    UpToEqWhole(next);
  }

  // One call: it reads on, or is done with the element and its arguments, and then
  // passes one element more exactly after a -W with an ambiguous name
  lemma CallTakes(cfg: Config, elem: string, next: string, following: seq<string>)
    requires |elem| >= 2 && next != "" && WNeedsLongopts(cfg)
    ensures var d := Decode(cfg, elem, next, following);
            if d.left != "" then
              && d.taken == 0 && d.left == next[1..]
              && Arguments(cfg, elem, d.left, following) == Arguments(cfg, elem, next, following)
              && MeetsAmbiguousW(cfg, elem, d.left, following) == MeetsAmbiguousW(cfg, elem, next, following)
            else
              d.taken == 1 + Arguments(cfg, elem, next, following)
                         + if !ReadsLong(cfg, elem, next) && AmbiguousW(cfg, next, following) then 1 else 0
  {
    if LooksLong(cfg, elem) {
      LongTakes(cfg, elem, next, following);
    }
    if !ReadsLong(cfg, elem, next) && IsW(cfg, next) {
      if |next| > 1 {
        NamedTakes(cfg, next[1..], following, 1);
      } else if following != [] {
        NamedTakes(cfg, following[0], following[1..], 2);
      }
    }
  }

  // ---------------------------------------------------------------
  // Elements that are passed without being used

  // The call with another element in the place of one
  function DecodeWith(cfg: Config, elem: string, next: string, following: seq<string>, j: nat, x: string): Decoded
    requires |elem| >= 2 && next != "" && WNeedsLongopts(cfg) && j < |following|
  {
    Decode(cfg, elem, next, following[j := x])
  }

  // A call passes the element, and would do the same whatever the element were
  ghost predicate PassedUnused(cfg: Config, elem: string, next: string, following: seq<string>, j: nat)
    requires |elem| >= 2 && next != "" && WNeedsLongopts(cfg)
  {
    var d := Decode(cfg, elem, next, following);
    && j < |following| && j + 1 < d.taken
    && forall x :: DecodeWith(cfg, elem, next, following, j, x) == d
  }

  function Other(s: string): (r: string)
    ensures r != s
  {
    if s == "" then "x" else ""
  }

  function Longest(opts: seq<LongOption>): (n: nat)
    ensures forall i :: 0 <= i < |opts| ==> |opts[i].name| <= n
  {
    if opts == [] then 0 else Max(Longest(opts[..|opts| - 1]), |opts[|opts| - 1].name|)
  }

  function Strokes(n: nat): (s: string)
    ensures |s| == n && '=' !in s
  {
    if n == 0 then "" else Strokes(n - 1) + "x"
  }

  // A name that is no option, and is not 'other'
  lemma Unmatched(opts: seq<LongOption>, other: string) returns (x: string)
    ensures x != other && UpToEq(x) == x && LongMatch(opts, x) == NoMatch
  {
    x := Strokes(Longest(opts) + |other| + 1);
    UpToEqWhole(x);
    LongMatchIsRight(opts, x, NoMatch);
  }

  lemma UsedIfDifferent(cfg: Config, elem: string, next: string, following: seq<string>, j: nat, x: string)
    requires |elem| >= 2 && next != "" && WNeedsLongopts(cfg) && j < |following|
    requires DecodeWith(cfg, elem, next, following, j, x) != Decode(cfg, elem, next, following)
    ensures !PassedUnused(cfg, elem, next, following, j)
  {
  }

  // What a call passes unused is exactly the element behind an ambiguous -W name
  lemma UnusedAfterAmbiguousW(cfg: Config, elem: string, next: string, following: seq<string>, j: nat)
    requires |elem| >= 2 && next != "" && WNeedsLongopts(cfg)
    ensures PassedUnused(cfg, elem, next, following, j) <==>
            && !ReadsLong(cfg, elem, next) && AmbiguousW(cfg, next, following)
            && j < |following| && j == if |next| > 1 then 0 else 1
  {
    if j < |following| && j + 1 < Decode(cfg, elem, next, following).taken {
      CallTakes(cfg, elem, next, following);
      if ReadsLong(cfg, elem, next) {
        UsedByName(cfg, elem, next, following, j);
      } else if IsW(cfg, next) {
        UsedByW(cfg, elem, next, following, j);
      } else {
        UsedByCharacter(cfg, elem, next, following, j);
      }
    } else {
      CallTakes(cfg, elem, next, following);
    }
  }

  lemma UsedByName(cfg: Config, elem: string, next: string, following: seq<string>, j: nat)
    requires |elem| >= 2 && next != "" && WNeedsLongopts(cfg) && ReadsLong(cfg, elem, next)
    requires j < |following| && j + 1 < Decode(cfg, elem, next, following).taken
    ensures !PassedUnused(cfg, elem, next, following, j)
  {
    CallTakes(cfg, elem, next, following);
    UpToEqWhole(next);
    UsedIfDifferent(cfg, elem, next, following, j, Other(following[0]));
  }

  lemma UsedByCharacter(cfg: Config, elem: string, next: string, following: seq<string>, j: nat)
    requires |elem| >= 2 && next != "" && WNeedsLongopts(cfg) && !ReadsLong(cfg, elem, next) && !IsW(cfg, next)
    requires j < |following| && j + 1 < Decode(cfg, elem, next, following).taken
    ensures !PassedUnused(cfg, elem, next, following, j)
  {
    UsedIfDifferent(cfg, elem, next, following, j, Other(following[0]));
  }

  lemma DecodesW(cfg: Config, elem: string, next: string, following: seq<string>)
    requires |elem| >= 2 && next != "" && WNeedsLongopts(cfg) && !ReadsLong(cfg, elem, next) && IsW(cfg, next)
    requires |next| > 1 || following != []
    ensures Decode(cfg, elem, next, following)
            == if |next| > 1 then DecodeNamed(cfg, next[1..], following, 1)
               else DecodeNamed(cfg, following[0], following[1..], 2)
  {
  }

  function NamedWith(cfg: Config, optarg: string, following: seq<string>, done: nat, x: string): Decoded
    requires cfg.longopts.Some? && following != []
  {
    DecodeNamed(cfg, optarg, following[0 := x], done)
  }

  // The element behind the name is used unless the name is ambiguous
  lemma NamedTells(cfg: Config, optarg: string, following: seq<string>, done: nat)
    requires cfg.longopts.Some? && following != [] && DecodeNamed(cfg, optarg, following, done).taken > done
    ensures (forall x :: NamedWith(cfg, optarg, following, done, x) == DecodeNamed(cfg, optarg, following, done)) <==>
            LongMatch(cfg.longopts.value, UpToEq(optarg)) == Ambiguous
  {
    if LongMatch(cfg.longopts.value, UpToEq(optarg)) != Ambiguous {
      var x := Other(following[0]);
      assert NamedWith(cfg, optarg, following, done, x) != DecodeNamed(cfg, optarg, following, done);
    }
  }

  // And the name itself is always used
  lemma NameIsUsed(cfg: Config, elem: string, next: string, following: seq<string>)
    requires |elem| >= 2 && |next| == 1 && WNeedsLongopts(cfg) && !ReadsLong(cfg, elem, next) && IsW(cfg, next)
    requires following != []
    ensures !PassedUnused(cfg, elem, next, following, 0)
  {
    var x := Unmatched(cfg.longopts.value, following[0]);
    hide LongMatch, UpToEq, ReadsLong, IsW, Decode;
    DecodesW(cfg, elem, next, following);
    DecodesW(cfg, elem, next, following[0 := x]);
    assert DecodeWith(cfg, elem, next, following, 0, x) == Decoded(Plain('W' as int, Some(x)), "", 2);
  }

  lemma UsedByW(cfg: Config, elem: string, next: string, following: seq<string>, j: nat)
    requires |elem| >= 2 && next != "" && WNeedsLongopts(cfg) && !ReadsLong(cfg, elem, next) && IsW(cfg, next)
    requires j < |following| && j + 1 < Decode(cfg, elem, next, following).taken
    ensures PassedUnused(cfg, elem, next, following, j) <==>
            AmbiguousW(cfg, next, following) && j == if |next| > 1 then 0 else 1
  {
    hide LongMatch, UpToEq, ReadsLong, Index, Decode, DecodeNamed;
    DecodesW(cfg, elem, next, following);
    if |next| == 1 && j == 0 {
      NameIsUsed(cfg, elem, next, following);
    } else {
      var named, more, done := if |next| > 1 then next[1..] else following[0],
                               if |next| > 1 then following else following[1..], if |next| > 1 then 1 else 2;
      NamedTakes(cfg, named, more, done);
      NamedTells(cfg, named, more, done);
      forall x
        ensures DecodeWith(cfg, elem, next, following, j, x) == NamedWith(cfg, named, more, done, x)
      {
        DecodesW(cfg, elem, next, following[j := x]);
        assert |next| == 1 ==> following[j := x][0] == following[0] && following[j := x][1..] == following[1..][0 := x];
      }
    }
  }

  // ---------------------------------------------------------------
  // The division of the arguments

  datatype Division = Division(opts: seq<string>, nons: seq<string>, rest: seq<string>)

  // An option element with its arguments
  function Group(cfg: Config, args: seq<string>): (n: nat)
    requires args != [] && !IsNonOption(args[0]) && args[0] != "--" && WNeedsLongopts(cfg)
    ensures 1 <= n <= |args|
  {
    1 + Arguments(cfg, args[0], Lead(cfg.longopts.Some?, args[0]), args[1..])
  }

  // Option elements with their arguments and the first "--" are options; the others,
  // and all behind that "--", are not.  Without permuting the first other element ends
  // the options, or counts as one.
  function Divide(o: Ordering, cfg: Config, args: seq<string>): Division
    requires WNeedsLongopts(cfg)
    decreases |args|
  {
    if args == [] then Division([], [], [])
    else if args[0] == "--" then
      if o == Permute then Division(["--"], args[1..], []) else Division(["--"], [], args[1..])
    else if IsNonOption(args[0]) then
      if o == RequireOrder then Division([], [], args)
      else
        var d := Divide(o, cfg, args[1..]);
        if o == Permute then Division(d.opts, [args[0]] + d.nons, d.rest)
        else Division([args[0]] + d.opts, d.nons, d.rest)
    else
      var n := Group(cfg, args);
      var d := Divide(o, cfg, args[n..]);
      Division(args[..n] + d.opts, d.nons, d.rest)
  }

  // No option among the arguments is a -W with an ambiguous name
  predicate Clear(o: Ordering, cfg: Config, args: seq<string>)
    requires WNeedsLongopts(cfg)
    decreases |args|
  {
    if args == [] || args[0] == "--" then true
    else if IsNonOption(args[0]) then o == RequireOrder || Clear(o, cfg, args[1..])
    else
      && !MeetsAmbiguousW(cfg, args[0], Lead(cfg.longopts.Some?, args[0]), args[1..])
      && Clear(o, cfg, args[Group(cfg, args)..])
  }

  // A caller can rule it out: no -W, or no argument that might be one
  lemma {:induction false} ClearWithoutW(o: Ordering, cfg: Config, args: seq<string>)
    requires WNeedsLongopts(cfg)
    requires !Lists(cfg.optstring, 'W', ';') || forall i :: 0 <= i < |args| ==> 'W' !in args[i]
    ensures Clear(o, cfg, args)
    decreases |args|
  {
    if args != [] && args[0] != "--" {
      if IsNonOption(args[0]) {
        ClearWithoutW(o, cfg, args[1..]);
      } else {
        var n := Group(cfg, args);
        MeetsNone(cfg, args[0], Lead(cfg.longopts.Some?, args[0]), args[1..]);
        forall i | 0 <= i < |args[n..]|
          ensures args[n..][i] == args[n + i]
        {
        }
        ClearWithoutW(o, cfg, args[n..]);
      }
    }
  }

  lemma {:induction false} MeetsNone(cfg: Config, elem: string, next: string, following: seq<string>)
    requires |elem| >= 2 && next != "" && WNeedsLongopts(cfg)
    requires !Lists(cfg.optstring, 'W', ';') || 'W' !in next
    ensures !MeetsAmbiguousW(cfg, elem, next, following)
    decreases |next|
  {
    if |next| > 1 {
      MeetsNone(cfg, elem, next[1..], following);
    }
  }

  // ---------------------------------------------------------------
  // The scan divides the arguments so

  lemma ScanAfter(o: Ordering, rd: Reader, rest: seq<string>, next: string, opts: seq<string>, event: Event,
                  rest': seq<string>, next': string)
    requires MidElement(rest, next) && Shrinks(rd) && Next(o, rd, rest, next) == Emit(event, opts, [], rest', next')
    ensures Scan(o, rd, rest, next) == Prefixed([event], opts, [], Scan(o, rd, rest', next'))
  {
  }

  // What is left of an element and its arguments
  lemma {:induction false} ScanElement(o: Ordering, cfg: Config, rd: Reader, rest: seq<string>, next: string)
    returns (events: seq<Event>)
    requires Realizes(cfg, rd) && MidElement(rest, next) && next != ""
    requires !MeetsAmbiguousW(cfg, rest[0], next, rest[1..])
    ensures var n := 1 + Arguments(cfg, rest[0], next, rest[1..]);
            Scan(o, rd, rest, next) == Prefixed(events, rest[..n], [], Scan(o, rd, rest[n..], ""))
    decreases |next|
  {
    hide Arguments, Scan, Decode, MeetsAmbiguousW;
    CallTakes(cfg, rest[0], next, rest[1..]);
    var d := Decode(cfg, rest[0], next, rest[1..]);
    assert d == rd.decode(rest[0], next, rest[1..]);
    if d.left == "" {
      AmbiguousIsMet(cfg, rest[0], next, rest[1..]);
      ScanAfter(o, rd, rest, next, rest[..d.taken], d.event, rest[d.taken..], "");
      events := [d.event];
    } else {
      assert rest[..0] == [] && rest[0..] == rest;
      ScanAfter(o, rd, rest, next, [], d.event, rest, d.left);
      var more := ScanElement(o, cfg, rd, rest, d.left);
      events := [d.event] + more;
      var n := 1 + Arguments(cfg, rest[0], next, rest[1..]);
      PrefixedTwice([d.event], more, rest[..n], Scan(o, rd, rest[n..], ""));
    }
  }

  lemma AmbiguousIsMet(cfg: Config, elem: string, next: string, following: seq<string>)
    requires |elem| >= 2 && next != "" && WNeedsLongopts(cfg) && !MeetsAmbiguousW(cfg, elem, next, following)
    ensures ReadsLong(cfg, elem, next) || !AmbiguousW(cfg, next, following)
  {
  }

  // An option element is read from behind its punctuation
  lemma ScanLead(o: Ordering, cfg: Config, rd: Reader, rest: seq<string>)
    requires Realizes(cfg, rd) && rest != [] && !IsNonOption(rest[0]) && rest[0] != "--"
    ensures Scan(o, rd, rest, "") == Scan(o, rd, rest, Lead(cfg.longopts.Some?, rest[0]))
  {
    NextHere(o, rd, rest);
    var next := Lead(rd.longs, rest[0]);
    assert Next(o, rd, rest, "") == Next(o, rd, rest, next);
  }

  lemma ScanOther(o: Ordering, rd: Reader, rest: seq<string>) returns (events: seq<Event>)
    requires Shrinks(rd) && rest != [] && IsNonOption(rest[0]) && rest[0] != "--" && o != RequireOrder
    ensures Scan(o, rd, rest, "")
            == if o == Permute then Prefixed(events, [], [rest[0]], Scan(o, rd, rest[1..], ""))
               else Prefixed(events, [rest[0]], [], Scan(o, rd, rest[1..], ""))
  {
    if o == Permute {
      events := [];
      assert rest == [rest[0]] + rest[1..];
      ScanOperand(rd, rest[0], rest[1..]);
    } else {
      events := [Plain(1, Some(rest[0]))];
      ScanAfter(o, rd, rest, "", [rest[0]], Plain(1, Some(rest[0])), rest[1..], "");
    }
  }

  // The scan and the division where no other element is passed
  lemma ScanStops(o: Ordering, cfg: Config, rd: Reader, args: seq<string>)
    requires Realizes(cfg, rd)
    requires args == [] || args[0] == "--" || (IsNonOption(args[0]) && o == RequireOrder)
    ensures var d := Divide(o, cfg, args); Scan(o, rd, args, "") == Some(Outcome([], d.opts, d.nons, d.rest))
  {
    NextHere(o, rd, args);
  }

  // An outcome agrees with a division
  ghost predicate Agrees(r: Option<Outcome>, d: Division) {
    r.Some? && r.value.opts == d.opts && r.value.nons == d.nons && r.value.rest == d.rest
  }

  lemma AgreesBehind(events: seq<Event>, opts: seq<string>, nons: seq<string>, r: Option<Outcome>, d: Division)
    requires Agrees(r, d)
    ensures Agrees(Prefixed(events, opts, nons, r), Division(opts + d.opts, nons + d.nons, d.rest))
  {
  }

  // A scan that meets no ambiguous -W name ends, and takes for options exactly the
  // elements that are, with their arguments
  lemma {:induction false} ScanDivides(o: Ordering, cfg: Config, rd: Reader, args: seq<string>)
    requires Realizes(cfg, rd) && Clear(o, cfg, args)
    ensures Agrees(Scan(o, rd, args, ""), Divide(o, cfg, args))
    decreases |args|
  {
    hide Scan, Arguments, MeetsAmbiguousW, Decode, Prefixed;
    if args == [] || args[0] == "--" || (IsNonOption(args[0]) && o == RequireOrder) {
      ScanStops(o, cfg, rd, args);
    } else if IsNonOption(args[0]) {
      ScanDivides(o, cfg, rd, args[1..]);
      var events := ScanOther(o, rd, args);
      var r, d := Scan(o, rd, args[1..], ""), Divide(o, cfg, args[1..]);
      if o == Permute {
        AgreesBehind(events, [], [args[0]], r, d);
        assert [] + d.opts == d.opts;
      } else {
        AgreesBehind(events, [args[0]], [], r, d);
        assert [] + d.nons == d.nons;
      }
    } else {
      var n := Group(cfg, args);
      ScanDivides(o, cfg, rd, args[n..]);
      ScanLead(o, cfg, rd, args);
      var events := ScanElement(o, cfg, rd, args, Lead(cfg.longopts.Some?, args[0]));
      var d := Divide(o, cfg, args[n..]);
      AgreesBehind(events, args[..n], [], Scan(o, rd, args[n..], ""), d);
      assert [] + d.nons == d.nons;
    }
  }

  // ---------------------------------------------------------------
  // What the division is

  ghost predicate AllOther(s: seq<string>) {
    forall i :: 0 <= i < |s| ==> IsNonOption(s[i])
  }

  // Option elements with their arguments, and a "--" at the end if there is one
  predicate Grouped(cfg: Config, opts: seq<string>)
    requires WNeedsLongopts(cfg)
    decreases |opts|
  {
    if opts == [] || opts == ["--"] then true
    else !IsNonOption(opts[0]) && opts[0] != "--" && Grouped(cfg, opts[Group(cfg, opts)..])
  }

  // When permuting, what is left is the other elements and all that followed the first
  // "--"; 'k' is its place, or the end
  lemma {:induction false} DivisionLeaves(cfg: Config, args: seq<string>) returns (others: seq<string>, k: nat)
    requires WNeedsLongopts(cfg)
    ensures k <= |args| && AllOther(others)
    ensures var d := Divide(Permute, cfg, args);
            if k == |args| then d.nons == others
            else
              && args[k] == "--" && d.nons == others + args[k + 1..]
              && d.opts != [] && d.opts[|d.opts| - 1] == "--"
    decreases |args|
  {
    if args == [] || args[0] == "--" {
      others, k := [], 0;
    } else if IsNonOption(args[0]) {
      others, k := DivisionLeaves(cfg, args[1..]);
      others, k := [args[0]] + others, k + 1;
    } else {
      var n := Group(cfg, args);
      others, k := DivisionLeaves(cfg, args[n..]);
      k := n + k;
    }
  }

  // How many elements an option takes does not depend on what follows them
  lemma {:induction false} ArgumentsAreLocal(cfg: Config, elem: string, next: string, following: seq<string>,
                                             more: seq<string>)
    requires |elem| >= 2 && next != "" && WNeedsLongopts(cfg)
    requires more == [] || Arguments(cfg, elem, next, following) < |following|
    ensures var n := Arguments(cfg, elem, next, following);
            Arguments(cfg, elem, next, following[..n] + more) == n
    decreases |next|
  {
    var n := Arguments(cfg, elem, next, following);
    var rest := next[1..];
    if n == |following| {
      assert following[..n] + more == following;
    } else if !ReadsLong(cfg, elem, next) && !IsW(cfg, next) && !TakesArgument(cfg, next[0]) && rest != "" {
      ArgumentsAreLocal(cfg, elem, rest, following, more);
    }
  }

  // What is taken for options is option elements, each with its arguments, and the
  // first "--"
  lemma {:induction false} DivisionGroups(o: Ordering, cfg: Config, args: seq<string>)
    requires WNeedsLongopts(cfg) && o != ReturnInOrder
    ensures Grouped(cfg, Divide(o, cfg, args).opts)
    decreases |args|
  {
    if args == [] || args[0] == "--" {
    } else if IsNonOption(args[0]) {
      if o == Permute {
        DivisionGroups(o, cfg, args[1..]);
      }
    } else {
      var n := Group(cfg, args);
      var d := Divide(o, cfg, args[n..]);
      DivisionGroups(o, cfg, args[n..]);
      var opts := args[..n] + d.opts;
      assert opts[1..] == args[1..][..n - 1] + d.opts;
      ArgumentsAreLocal(cfg, args[0], Lead(cfg.longopts.Some?, args[0]), args[1..], d.opts);
      assert opts[n..] == d.opts;
    }
  }

  // In a permuting scan what comes first is options with their arguments and the "--",
  // and what comes last is other elements and what followed the "--", each in order
  lemma ScanSeparates(cfg: Config, rd: Reader, args: seq<string>) returns (others: seq<string>, k: nat)
    requires Realizes(cfg, rd) && Clear(Permute, cfg, args)
    ensures Scan(Permute, rd, args, "").Some?
    ensures var r := Scan(Permute, rd, args, "").value;
            && Merges(r.opts, r.nons, args) && Grouped(cfg, r.opts)
            && k <= |args| && AllOther(others)
            && if k == |args| then r.nons == others
               else args[k] == "--" && r.nons == others + args[k + 1..] && r.opts != [] && r.opts[|r.opts| - 1] == "--"
  {
    hide Scan, Divide, Clear, Grouped, Decode;
    ScanDivides(Permute, cfg, rd, args);
    StablePartition(rd, args);
    DivisionGroups(Permute, cfg, args);
    others, k := DivisionLeaves(cfg, args);
  }

  // With an ambiguous name behind -W this fails: the file is taken for an option
  lemma AmbiguousWTakesFile()
    ensures var cfg, args := Config("W;", Some(FOO_AND_FOB), false), ["-W", "fo", "file"];
            && Scan(Permute, ReaderOf(cfg), args, "") == Some(Outcome([Plain(QUESTION, Some("fo"))], args, [], []))
            && Divide(Permute, cfg, args) == Division(["-W", "fo"], ["file"], [])
  {
    var cfg, args := Config("W;", Some(FOO_AND_FOB), false), ["-W", "fo", "file"];
    FoIsAmbiguous();
    assert Lead(true, args[0]) == "W" && args[1..] == ["fo", "file"] && "W"[1..] == "";
    TakesAll(cfg, args);
    LeavesFile(cfg, args);
  }

  lemma TakesAll(cfg: Config, args: seq<string>)
    requires cfg == Config("W;", Some(FOO_AND_FOB), false) && args == ["-W", "fo", "file"]
    requires LongMatch(FOO_AND_FOB, "fo") == Ambiguous && UpToEq("fo") == "fo" && Lead(true, "-W") == "W"
    ensures Scan(Permute, ReaderOf(cfg), args, "") == Some(Outcome([Plain(QUESTION, Some("fo"))], args, [], []))
  {
    hide Scan, LongMatch, UpToEq;
    var rd := ReaderOf(cfg);
    var event := Plain(QUESTION, Some("fo"));
    assert args[1..] == ["fo", "file"] && "W"[1..] == "";
    assert DecodeShort(cfg, "W", args[1..]) == Decoded(event, "", 3);
    assert rd.decode("-W", "W", args[1..]) == Decode(cfg, "-W", "W", args[1..]);
    assert args[..3] == args && args[3..] == [];
    NextHere(Permute, rd, args);
    ScanAfter(Permute, rd, args, "", args, event, [], "");
    ScanNothing(rd, event, args);
  }

  lemma ScanNothing(rd: Reader, event: Event, opts: seq<string>)
    requires Shrinks(rd)
    ensures Prefixed([event], opts, [], Scan(Permute, rd, [], "")) == Some(Outcome([event], opts, [], []))
  {
    NextHere(Permute, rd, []);
    assert Scan(Permute, rd, [], "") == Some(Outcome([], [], [], []));
    var events: seq<Event>, none: seq<string> := [], [];
    assert [event] + events == [event] && opts + none == opts && none + none == none;
  }

  lemma LeavesFile(cfg: Config, args: seq<string>)
    requires cfg == Config("W;", Some(FOO_AND_FOB), false) && args == ["-W", "fo", "file"]
    requires LongMatch(FOO_AND_FOB, "fo") == Ambiguous && Lead(true, "-W") == "W"
    ensures Divide(Permute, cfg, args) == Division(["-W", "fo"], ["file"], [])
  {
    hide LongMatch;
    assert args[1..] == ["fo", "file"] && "W"[1..] == "";
    assert Group(cfg, args) == 2 && args[..2] == ["-W", "fo"] && args[2..] == ["file"];
    assert ["file"][1..] == [];
    assert Divide(Permute, cfg, []) == Division([], [], []);
    assert Divide(Permute, cfg, ["file"]) == Division([], ["file"], []);
  }
}
