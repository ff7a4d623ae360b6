// getopt: the resumable scanner of lib/getopt.c, which permutes its arguments so that
// the options come first.
module Getopt {
  import opened Words
  import opened Sequences
  import opened Rotation
  import opened GetoptScan
  import opened GetoptPartition
  import opened GetoptMark

  lemma MatchStep(opts: seq<LongOption>, name: string, p: nat)
    requires p < |opts|
    ensures Candidates(opts[..p + 1], name) == Candidates(opts[..p], name) + if name <= opts[p].name then [p] else []
    ensures Exact(opts[..p], name) == None && opts[p].name != name ==> Exact(opts[..p + 1], name) == None
  {
    assert opts[..p + 1][..p] == opts[..p];
  }

  lemma NothingMatched(name: string)
    ensures Candidates([], name) == [] && Exact([], name) == None
  {
  }

  lemma ExactAt(opts: seq<LongOption>, name: string, p: nat)
    requires p < |opts| && Exact(opts[..p], name) == None && opts[p].name == name
    ensures Exact(opts, name) == Some(p)
  {
    forall i | 0 <= i < p
      ensures opts[i].name != name
    {
      assert opts[..p][i] == opts[i];
    }
  }

  // The loop over the long options
  method MatchLong(opts: seq<LongOption>, name: string) returns (r: Match)
    ensures r == LongMatch(opts, name)
  {
    hide Candidates, Exact;
    var pfound: Option<nat>, ambig, p := None, false, 0;
    ghost var c := [];
    NothingMatched(name);
    assert opts[..0] == [];
    while p < |opts|
      invariant p <= |opts| && Exact(opts[..p], name) == None && c == Candidates(opts[..p], name)
      invariant ambig <==> |c| > 1
      invariant pfound == if c == [] then None else Some(c[0])
    {
      MatchStep(opts, name, p);
      if name <= opts[p].name {
        if |name| == |opts[p].name| {
          ExactAt(opts, name, p);
          return Found(p);
        } else if pfound.None? {
          pfound := Some(p);
        } else {
          ambig := true;
        }
        c := c + [p];
      }
      p := p + 1;
    }
    assert opts[..|opts|] == opts;
    if ambig {
      return Ambiguous;
    }
    return if pfound.Some? then Found(pfound.value) else NoMatch;
  }

  // The loops that look for the end of a name
  method NameEnd(s: string) returns (n: nat)
    ensures n == |UpToEq(s)|
  {
    n := 0;
    assert s[0..] == s;
    while n < |s| && s[n] != '='
      invariant n <= |s| && n + |UpToEq(s[n..])| == |UpToEq(s)|
    {
      assert s[n..][1..] == s[n + 1..];
      n := n + 1;
    }
  }

  // The arguments before optind: the program name, options, other elements (from
  // 'first' to 'last'), and options since
  ghost predicate Arranged(s: seq<string>, first: nat, last: nat, optind: nat, opts: seq<string>, nons: seq<string>) {
    && 1 <= first <= last <= optind <= |s|
    && s[1..first] + s[last..optind] == opts
    && s[first..last] == nons
  }

  lemma ExchangeArranges(s: seq<string>, first: nat, last: nat, optind: nat, opts: seq<string>, nons: seq<string>)
    requires Arranged(s, first, last, optind, opts, nons)
    ensures var s', mid := Exchanged(s, first, last, optind), first + (optind - last);
            && |s'| == |s| && s'[0] == s[0] && s'[optind..] == s[optind..]
            && Arranged(s', mid, optind, optind, opts, nons)
  {
    var s', mid := Exchanged(s, first, last, optind), first + (optind - last);
    assert s'[1..mid] == s[1..first] + s[last..optind];
    assert s'[mid..optind] == s[first..last];
    assert s'[1..mid] + s'[optind..optind] == s'[1..mid];
  }

  lemma SettledArranges(s: seq<string>, first: nat, last: nat, optind: nat, opts: seq<string>, nons: seq<string>)
    requires Arranged(s, first, last, optind, opts, nons) && first == last
    ensures nons == [] && Arranged(s, optind, optind, optind, opts, nons)
  {
    assert s[1..first] + s[last..optind] == s[1..optind] + s[optind..optind];
  }

  // One more element that is no option
  lemma SkipArranges(s: seq<string>, first: nat, optind: nat, opts: seq<string>, nons: seq<string>)
    requires Arranged(s, first, optind, optind, opts, nons) && optind < |s|
    ensures Arranged(s, first, optind + 1, optind + 1, opts, nons + [s[optind]])
  {
    assert s[first..optind + 1] == s[first..optind] + [s[optind]];
  }

  // More elements that belong to an option
  lemma TakeArranges(s: seq<string>, first: nat, last: nat, optind: nat, opts: seq<string>, nons: seq<string>, k: nat)
    requires Arranged(s, first, last, optind, opts, nons) && optind + k <= |s|
    ensures Arranged(s, first, last, optind + k, opts + s[optind..][..k], nons)
    ensures s[optind + k..] == s[optind..][k..]
  {
    assert s[last..optind + k] == s[last..optind] + s[optind..][..k];
    assert s[1..first] + (s[last..optind] + s[optind..][..k]) == (s[1..first] + s[last..optind]) + s[optind..][..k];
  }

  lemma ArrangedOrder(s: seq<string>, first: nat, last: nat, optind: nat, opts: seq<string>, nons: seq<string>)
    requires Arranged(s, first, last, optind, opts, nons)
    ensures first <= last <= optind <= |s|
  {
  }

  lemma ArrangedWhole(s: seq<string>, first: nat, optind: nat, opts: seq<string>, nons: seq<string>)
    requires Arranged(s, first, optind, optind, opts, nons)
    ensures s == [s[0]] + opts + nons + s[optind..] && first == 1 + |opts|
  {
  }

  lemma StopsArranged(s: seq<string>, elem: string, opts: seq<string>, nons: seq<string>, tail: seq<string>)
    requires s == [elem] + opts + nons + tail
    ensures Arranged(s, 1 + |opts|, 1 + |opts|, 1 + |opts|, opts, [])
  {
    assert s[1..1 + |opts|] == opts;
    StartsAgain(s, 1 + |opts|, opts);
  }

  // After the last call the options are what comes before optind
  lemma StartsAgain(s: seq<string>, optind: nat, opts: seq<string>)
    requires optind == 1 + |opts| <= |s| && s[1..optind] == opts
    ensures Arranged(s, optind, optind, optind, opts, [])
  {
    assert s[1..optind] + s[optind..optind] == s[1..optind];
  }

  function Min(a: nat, b: nat): nat {
    if a < b then a else b
  }

  // The first argument to scan
  function First(optind: nat): nat {
    if optind == 0 then 1 else optind
  }

  // What has been found so far, and what is still to come, make up the goal
  ghost predicate Continues(o: Ordering, rd: Reader, rest: seq<string>, next: string, goal: Outcome, events: seq<Event>,
                            opts: seq<string>, nons: seq<string>)
    requires MidElement(rest, next) && Shrinks(rd)
  {
    match Scan(o, rd, rest, next)
    case None => false
    case Some(r) => goal == Outcome(events + r.events, opts + r.opts, nons + r.nons, r.rest)
  }

  lemma ContinuesNext(o: Ordering, rd: Reader, rest: seq<string>, next: string, goal: Outcome, events: seq<Event>,
                      opts: seq<string>, nons: seq<string>)
    requires MidElement(rest, next) && Shrinks(rd) && Continues(o, rd, rest, next, goal, events, opts, nons)
    ensures var s := Next(o, rd, rest, next);
            && !s.Overrun?
            && (s.Stop? ==> goal == Outcome(events, opts + s.opts, nons + s.nons, s.rest))
            && (s.Emit? ==> Continues(o, rd, s.rest, s.next, goal, events + [s.event], opts + s.opts, nons + s.nons))
  {
    var s := Next(o, rd, rest, next);
    if s.Emit? {
      var r := Scan(o, rd, s.rest, s.next).value;
      Associate(events, [s.event], r.events);
      Associate(opts, s.opts, r.opts);
      Associate(nons, s.nons, r.nons);
    }
  }

  class Scanner {
    var optind: nat
    var nextchar: string
    var optarg: Option<string>
    var firstNonopt: nat
    var lastNonopt: nat
    var ordering: Ordering
    var initialized: bool

    // The scanning state that decoding one option leaves alone
    twostate predicate SameSpans()
      reads this
    {
      && firstNonopt == old(firstNonopt) && lastNonopt == old(lastNonopt) && ordering == old(ordering)
      && initialized == old(initialized)
    }

    // The effect of decoding one option of the element at 'start'
    ghost predicate Decodes(d: Decoded, start: nat, e: Event)
      reads this
    {
      e == d.event && nextchar == d.left && optind == start + d.taken
    }

    // An option found by its name; optind is past the elements used so far
    method FinishLong(argv: array<string>, cfg: Config, i: nat, value: string, bad: Option<int>, ghost start: nat)
      returns (e: Event)
      requires cfg.longopts.Some? && i < |cfg.longopts.value| && start <= optind <= argv.Length
      modifies this
      ensures SameSpans()
      ensures Decodes(DecodeFound(cfg, cfg.longopts.value[i], i, old(optarg), value, argv[old(optind)..],
                                  old(optind) - start, bad), start, e)
    {
      var pfound := cfg.longopts.value[i];
      nextchar := "";
      if value != "" {
        if pfound.hasArg != NoArgument {
          optarg := Some(value[1..]);
        } else {
          return Event(QUESTION, optarg, bad, None, None);
        }
      } else if pfound.hasArg == RequiredArgument {
        if optind < argv.Length {
          optarg := Some(argv[optind]);
          optind := optind + 1;
        } else {
          return Event(Missing(cfg), optarg, bad, None, None);
        }
      }
      if pfound.flag {
        return Event(0, optarg, None, Some(i), Some(pfound.val));
      }
      return Event(pfound.val, optarg, None, Some(i), None);
    }

    // The element read as a long option; None if it is to be read as short ones
    method TryLong(argv: array<string>, cfg: Config) returns (e: Option<Event>)
      requires optind < argv.Length && |argv[optind]| >= 2 && nextchar != "" && LooksLong(cfg, argv[optind])
      requires optarg == None
      modifies this
      ensures SameSpans()
      ensures var d := DecodeLong(cfg, argv[old(optind)], old(nextchar), argv[old(optind) + 1..]);
              && (e.Some? <==> d.Some?)
              && if d.Some? then Decodes(d.value, old(optind), e.value)
                 else optind == old(optind) && nextchar == old(nextchar) && optarg == None
    {
      var nameend := NameEnd(nextchar);
      var longopts := cfg.longopts.value;
      assert nextchar[..nameend] == UpToEq(nextchar);
      var pfound := MatchLong(longopts, nextchar[..nameend]);
      if pfound.Ambiguous? {
        nextchar := "";
        optind := optind + 1;
        return Some(Bad(QUESTION, None, 0));
      }
      if pfound.Found? {
        ghost var start := optind;
        optind := optind + 1;
        var found := FinishLong(argv, cfg, pfound.i, nextchar[nameend..], Some(longopts[pfound.i].val), start);
        return Some(found);
      }
      if !cfg.longOnly || argv[optind][1] == '-' || nextchar[0] !in cfg.optstring {
        nextchar := "";
        optind := optind + 1;
        return Some(Bad(QUESTION, None, 0));
      }
      return None;
    }

    // The argument of -W as a long option
    method ReadNamed(argv: array<string>, cfg: Config, ghost start: nat) returns (e: Event)
      requires cfg.longopts.Some? && start <= optind <= argv.Length && optarg.Some?
      modifies this
      ensures SameSpans()
      ensures Decodes(DecodeNamed(cfg, old(optarg).value, argv[old(optind)..], old(optind) - start), start, e)
    {
      nextchar := optarg.value;
      var nameend := NameEnd(nextchar);
      assert nextchar[..nameend] == UpToEq(nextchar);
      var pfound := MatchLong(cfg.longopts.value, nextchar[..nameend]);
      if pfound.Ambiguous? {
        nextchar := "";
        optind := optind + 1;
        return Plain(QUESTION, optarg);
      }
      if pfound.Found? {
        e := FinishLong(argv, cfg, pfound.i, nextchar[nameend..], None, start);
        return;
      }
      nextchar := "";
      return Plain('W' as int, optarg);
    }

    // The option -W foo, after the W; optind is already past an element that ends here
    method ReadW(argv: array<string>, cfg: Config, ghost start: nat) returns (e: Event)
      requires cfg.longopts.Some? && start < argv.Length && optind == start + if nextchar == "" then 1 else 0
      requires optarg == None
      modifies this
      ensures SameSpans()
      ensures Decodes(DecodeW(cfg, old(nextchar), argv[start + 1..]), start, e)
    {
      if nextchar != "" {
        optarg := Some(nextchar);
        optind := optind + 1;
      } else if optind == argv.Length {
        return Bad(Missing(cfg), None, 'W' as int);
      } else {
        optarg := Some(argv[optind]);
        optind := optind + 1;
        assert argv[start + 1..][1..] == argv[start + 2..];
      }
      e := ReadNamed(argv, cfg, start);
    }

    // The next short option character
    method ReadShort(argv: array<string>, cfg: Config) returns (e: Event)
      requires optind < argv.Length && nextchar != "" && WNeedsLongopts(cfg) && optarg == None
      modifies this
      ensures SameSpans()
      ensures Decodes(DecodeShort(cfg, old(nextchar), argv[old(optind) + 1..]), old(optind), e)
    {
      ghost var start := optind;
      var c := nextchar[0];
      var temp := Index(cfg.optstring, c);
      nextchar := nextchar[1..];
      if nextchar == "" {
        optind := optind + 1;
      }
      if temp == "" || c == ':' {
        return Bad(QUESTION, None, c as int);
      }
      if c == 'W' && |temp| > 1 && temp[1] == ';' {
        e := ReadW(argv, cfg, start);
        return;
      }
      if |temp| > 1 && temp[1] == ':' {
        if nextchar != "" {
          optarg := Some(nextchar);
          optind := optind + 1;
        } else if |temp| > 2 && temp[2] == ':' {
          optarg := None;
        } else if optind == argv.Length {
          return Bad(Missing(cfg), None, c as int);
        } else {
          optarg := Some(argv[optind]);
          optind := optind + 1;
        }
        nextchar := "";
      }
      return Plain(c as int, optarg);
    }

    method DecodeOption(argv: array<string>, cfg: Config) returns (e: Event)
      requires optind < argv.Length && |argv[optind]| >= 2 && nextchar != "" && WNeedsLongopts(cfg) && optarg == None
      modifies this
      ensures SameSpans()
      ensures Decodes(Decode(cfg, argv[old(optind)], old(nextchar), argv[old(optind) + 1..]), old(optind), e)
    {
      if LooksLong(cfg, argv[optind]) {
        var found := TryLong(argv, cfg);
        if found.Some? {
          return found.value;
        }
      }
      e := ReadShort(argv, cfg);
    }

    // Between calls: 'opts' and 'nons' are the elements passed so far
    ghost predicate At(argv: array<string>, opts: seq<string>, nons: seq<string>)
      reads this, argv
    {
      && optind <= argv.Length && MidElement(argv[optind..], nextchar)
      && Arranged(argv[..], Min(firstNonopt, optind), Min(lastNonopt, optind), optind, opts, nons)
      && (ordering != Permute ==> nons == [])
      && (nextchar != "" ==> firstNonopt <= lastNonopt <= optind)
    }

    // The spans once clamped
    ghost predicate Clamped(argv: array<string>, opts: seq<string>, nons: seq<string>)
      reads this, argv
    {
      optind <= argv.Length && Arranged(argv[..], firstNonopt, lastNonopt, optind, opts, nons)
    }

    // The options since the last other element come before it
    method Settle(argv: array<string>, ghost opts: seq<string>, ghost nons: seq<string>)
      requires Clamped(argv, opts, nons)
      modifies this`firstNonopt, this`lastNonopt, argv
      ensures Clamped(argv, opts, nons) && lastNonopt == optind
      ensures argv[0] == old(argv[0]) && argv[optind..] == old(argv[optind..])
    {
      if firstNonopt != lastNonopt && lastNonopt != optind {
        ExchangeArranges(argv[..], firstNonopt, lastNonopt, optind, opts, nons);
        Exchange(argv, firstNonopt, lastNonopt, optind);
        firstNonopt := firstNonopt + (optind - lastNonopt);
      } else if lastNonopt != optind {
        SettledArranges(argv[..], firstNonopt, lastNonopt, optind, opts, nons);
        firstNonopt := optind;
      }
      lastNonopt := optind;
    }

    // The loop that passes elements that are no options
    method SkipNons(argv: array<string>, ghost rd: Reader, ghost opts: seq<string>, ghost nons: seq<string>)
      returns (ghost n: seq<string>)
      requires Shrinks(rd) && Clamped(argv, opts, nons) && lastNonopt == optind
      modifies this`optind, this`lastNonopt
      ensures Clamped(argv, opts, nons + n) && lastNonopt == optind
      ensures Skips(rd, argv[old(optind)..], n, argv[optind..])
      ensures optind < argv.Length ==> !IsNonOption(argv[optind])
    {
      ghost var rest := argv[optind..];
      n := [];
      assert nons + n == nons;
      SkipsNone(rd, rest);
      while optind < argv.Length && IsNonOption(argv[optind])
        invariant Arranged(argv[..], firstNonopt, optind, optind, opts, nons + n)
        invariant Skips(rd, rest, n, argv[optind..])
        decreases argv.Length - optind
      {
        SkipArranges(argv[..], firstNonopt, optind, opts, nons + n);
        SkipsMore(rd, rest, n, argv[optind..]);
        assert argv[optind..][1..] == argv[optind + 1..];
        n := n + [argv[optind]];
        assert nons + n == (nons + n[..|n| - 1]) + [argv[optind]];
        optind := optind + 1;
      }
      lastNonopt := optind;
    }

    // The scan is over: 'tail' is left alone
    ghost predicate Over(argv: array<string>, opts: seq<string>, nons: seq<string>, tail: seq<string>)
      reads this, argv
    {
      && argv.Length > 0 && argv[..] == [argv[0]] + opts + nons + tail && optind == 1 + |opts|
      && nextchar == "" && At(argv, opts, [])
    }

    // The "--" changes places with the elements before it
    method ExchangeDashes(argv: array<string>, ghost opts: seq<string>, ghost nons: seq<string>)
      requires Clamped(argv, opts, nons) && (nons == [] ==> firstNonopt == lastNonopt)
      modifies this`firstNonopt, argv
      ensures firstNonopt == 1 + |opts| && argv[..] == [old(argv[0])] + opts + nons + old(argv[optind..])
    {
      hide Exchanged;
      if firstNonopt != lastNonopt && lastNonopt != optind {
        ExchangeArranges(argv[..], firstNonopt, lastNonopt, optind, opts, nons);
        Exchange(argv, firstNonopt, lastNonopt, optind);
        firstNonopt := firstNonopt + (optind - lastNonopt);
      } else if firstNonopt == lastNonopt {
        SettledArranges(argv[..], firstNonopt, lastNonopt, optind, opts, nons);
        firstNonopt := optind;
      }
      ArrangedWhole(argv[..], firstNonopt, optind, opts, nons);
    }

    lemma StopsOver(argv: array<string>, opts: seq<string>, nons: seq<string>, tail: seq<string>)
      requires argv.Length > 0 && argv[..] == [argv[0]] + opts + nons + tail
      requires optind == 1 + |opts| == firstNonopt && lastNonopt == argv.Length && nextchar == ""
      ensures Over(argv, opts, nons, tail)
    {
      hide Arranged;
      StopsArranged(argv[..], argv[0], opts, nons, tail);
    }

    // The element "--"
    method EndOfOptions(argv: array<string>, ghost opts: seq<string>, ghost nons: seq<string>)
      requires Clamped(argv, opts, nons) && optind < argv.Length && argv[optind] == "--" && nextchar == ""
      requires if nons == [] then firstNonopt == lastNonopt else lastNonopt == optind && ordering == Permute
      modifies this`optind, this`firstNonopt, this`lastNonopt, argv
      ensures argv[0] == old(argv[0]) && Over(argv, opts + ["--"], nons, old(argv[optind + 1..]))
    {
      hide Arranged, Over;
      ghost var tail := argv[optind + 1..];
      TakeArranges(argv[..], firstNonopt, lastNonopt, optind, opts, nons, 1);
      assert argv[optind..][..1] == ["--"];
      optind := optind + 1;
      ExchangeDashes(argv, opts + ["--"], nons);
      lastNonopt := argv.Length;
      optind := argv.Length;
      if firstNonopt != lastNonopt {
        optind := firstNonopt;
      }
      StopsOver(argv, opts + ["--"], nons, tail);
    }

    // No element is left
    method EndOfList(argv: array<string>, ghost opts: seq<string>, ghost nons: seq<string>)
      requires Clamped(argv, opts, nons) && optind == argv.Length && nextchar == ""
      requires if nons == [] then firstNonopt == lastNonopt else lastNonopt == optind && ordering == Permute
      modifies this`optind
      ensures Over(argv, opts, nons, [])
    {
      if nons == [] {
        SettledArranges(argv[..], firstNonopt, lastNonopt, optind, opts, nons);
        ArrangedWhole(argv[..], optind, optind, opts, nons);
      } else {
        ArrangedWhole(argv[..], firstNonopt, optind, opts, nons);
      }
      if firstNonopt != lastNonopt {
        optind := firstNonopt;
        StartsAgain(argv[..], optind, opts);
      }
    }

    // The result of a call that does step s
    ghost predicate Does(argv: array<string>, s: Step, e: Option<Event>, opts: seq<string>, nons: seq<string>)
      reads this, argv
    {
      match s
      case Stop(o, n, tail) => e == None && Over(argv, opts + o, nons + n, tail)
      case Emit(event, o, n, rest, next) =>
        e == Some(event) && At(argv, opts + o, nons + n) && argv[optind..] == rest && nextchar == next
      case Overrun(event, n) => e == Some(event) && optind > argv.Length
    }

    // Elements passed on the way count with those passed before
    lemma DoesMore(argv: array<string>, s: Step, n: seq<string>, e: Option<Event>, opts: seq<string>, nons: seq<string>)
      requires Does(argv, s, e, opts, nons + n)
      ensures Does(argv, WithNons(n, s), e, opts, nons)
    {
      if s.Stop? {
        assert (nons + n) + s.nons == nons + (n + s.nons);
      } else if s.Emit? {
        assert (nons + n) + s.nons == nons + (n + s.nons);
      }
    }

    // The state after an option at 'start' has been decoded
    lemma DecodedDoes(argv: array<string>, rest: seq<string>, d: Decoded, start: nat, opts: seq<string>,
                      nons: seq<string>)
      requires start < argv.Length && Arranged(argv[..], firstNonopt, lastNonopt, start, opts, nons)
      requires rest == argv[start..] && |rest[0]| >= 2 && |d.left| < |rest[0]| && (d.left == "" <==> d.taken > 0)
      requires optind == start + d.taken && nextchar == d.left && (ordering != Permute ==> nons == [])
      ensures Does(argv, EmitDecoded(d, rest), Some(d.event), opts, nons)
    {
      hide Arranged;
      if d.taken <= |rest| {
        TakeArranges(argv[..], firstNonopt, lastNonopt, start, opts, nons, d.taken);
        assert rest[d.taken..] == argv[optind..];
        assert nons + [] == nons;
        assert firstNonopt <= lastNonopt <= optind by {
          ArrangedOrder(argv[..], firstNonopt, lastNonopt, start, opts, nons);
        }
      }
    }

    // Decode the option at optind
    method DecodeHere(argv: array<string>, cfg: Config, ghost rd: Reader, ghost rest: seq<string>, ghost d: Decoded,
                      ghost opts: seq<string>, ghost nons: seq<string>)
      returns (e: Option<Event>)
      requires Clamped(argv, opts, nons) && optind < argv.Length && |argv[optind]| >= 2 && nextchar != ""
      requires |nextchar| < |argv[optind]| && Realizes(cfg, rd) && optarg == None
      requires ordering != Permute ==> nons == []
      requires rest == argv[optind..] && d == rd.decode(rest[0], nextchar, rest[1..])
      modifies this
      ensures ordering == old(ordering) && initialized == old(initialized)
      ensures Does(argv, EmitDecoded(d, rest), e, opts, nons)
    {
      hide Decode, Arranged, Does, EmitDecoded;
      ghost var start := optind;
      assert rest[1..] == argv[optind + 1..];
      assert d == Decode(cfg, rest[0], nextchar, rest[1..]);
      var event := DecodeOption(argv, cfg);
      DecodedDoes(argv, rest, d, start, opts, nons);
      return Some(event);
    }

    // Go on with the element being read
    method Resume(argv: array<string>, cfg: Config, ghost rd: Reader, ghost opts: seq<string>, ghost nons: seq<string>)
      returns (e: Option<Event>)
      requires argv.Length > 0 && At(argv, opts, nons) && nextchar != "" && Realizes(cfg, rd) && optarg == None
      modifies this
      ensures ordering == old(ordering) && initialized == old(initialized)
      ensures Does(argv, Next(ordering, rd, old(argv[optind..]), old(nextchar)), e, opts, nons)
    {
      ghost var rest := argv[optind..];
      e := DecodeHere(argv, cfg, rd, rest, rd.decode(rest[0], nextchar, rest[1..]), opts, nons);
    }

    // Put the options since the last other element first and, when permuting, pass
    // further elements that are no options
    method Gather(argv: array<string>, ghost rd: Reader, ghost opts: seq<string>, ghost nons: seq<string>)
      returns (ghost n: seq<string>)
      requires argv.Length > 0 && At(argv, opts, nons) && Shrinks(rd)
      modifies this`optind, this`firstNonopt, this`lastNonopt, argv
      ensures argv[0] == old(argv[0]) && Clamped(argv, opts, nons + n)
      ensures if ordering == Permute then
                && lastNonopt == optind && (optind < argv.Length ==> !IsNonOption(argv[optind]))
                && Skips(rd, old(argv[optind..]), n, argv[optind..])
              else
                nons + n == [] == n && argv[optind..] == old(argv[optind..])
    {
      if lastNonopt > optind {
        lastNonopt := optind;
      }
      if firstNonopt > optind {
        firstNonopt := optind;
      }
      n := [];
      assert nons + n == nons;
      if ordering == Permute {
        Settle(argv, opts, nons);
        n := SkipNons(argv, rd, opts, nons);
      }
    }

    method FinishAtDashes(argv: array<string>, ghost s: Step, ghost opts: seq<string>, ghost nons: seq<string>)
      requires Clamped(argv, opts, nons) && optind < argv.Length && argv[optind] == "--" && nextchar == ""
      requires if ordering == Permute then lastNonopt == optind else nons == []
      requires s == if ordering == Permute then Stop(["--"], argv[optind + 1..], [])
          else Stop(["--"], [], argv[optind + 1..])
      modifies this`optind, this`firstNonopt, this`lastNonopt, argv
      ensures argv[0] == old(argv[0])
      ensures Does(argv, s, None, opts, nons)
    {
      hide At;
      ghost var tail := argv[optind + 1..];
      EndOfOptions(argv, opts, nons);
      assert ["--"] + [] == ["--"] && nons + [] == nons;
      assert [argv[0]] + (opts + ["--"]) + nons + tail == [argv[0]] + (opts + ["--"]) + (nons + tail) + [];
    }

    method FinishAtEnd(argv: array<string>, ghost opts: seq<string>, ghost nons: seq<string>)
      requires Clamped(argv, opts, nons) && optind == argv.Length && nextchar == ""
      requires if ordering == Permute then lastNonopt == optind else nons == []
      modifies this`optind
      ensures Does(argv, Stop([], [], []), None, opts, nons)
    {
      assert nons + [] == nons && opts + [] == opts;
      EndOfList(argv, opts, nons);
    }

    // An element that is no option, when not permuting: stop, or describe it and pass it
    method MeetOther(argv: array<string>, ghost s: Step, ghost opts: seq<string>) returns (e: Option<Event>)
      requires argv.Length > 0 && Clamped(argv, opts, []) && nextchar == ""
      requires ordering != Permute && optind < argv.Length && IsNonOption(argv[optind])
      requires s == if ordering == RequireOrder then Stop([], [], argv[optind..])
                    else Emit(Plain(1, Some(argv[optind])), [argv[optind]], [], argv[optind + 1..], "")
      modifies this`optind, this`optarg
      ensures Does(argv, s, e, opts, [])
    {
      assert opts + [] == opts;
      SettledArranges(argv[..], firstNonopt, lastNonopt, optind, opts, []);
      if ordering == RequireOrder {
        ArrangedWhole(argv[..], optind, optind, opts, []);
        return None;
      }
      TakeArranges(argv[..], firstNonopt, lastNonopt, optind, opts, [], 1);
      assert argv[optind..][..1] == [argv[optind]];
      optarg := Some(argv[optind]);
      optind := optind + 1;
      return Some(Plain(1, optarg));
    }

    // An option element, whose punctuation is skipped
    method ReadOption(argv: array<string>, cfg: Config, ghost rd: Reader, ghost rest: seq<string>, ghost d: Decoded,
                      ghost opts: seq<string>, ghost nons: seq<string>)
      returns (e: Option<Event>)
      requires Clamped(argv, opts, nons) && optind < argv.Length && !IsNonOption(argv[optind]) && argv[optind] != "--"
      requires Realizes(cfg, rd) && optarg == None && (ordering != Permute ==> nons == [])
      requires rest == argv[optind..] && d == rd.decode(rest[0], Lead(rd.longs, rest[0]), rest[1..])
      modifies this
      ensures ordering == old(ordering) && initialized == old(initialized)
      ensures Does(argv, EmitDecoded(d, rest), e, opts, nons)
    {
      nextchar := Lead(cfg.longopts.Some?, argv[optind]);
      e := DecodeHere(argv, cfg, rd, rest, d, opts, nons);
    }

    // The element at optind
    method CallHere(argv: array<string>, cfg: Config, ghost rd: Reader, ghost s: Step, ghost opts: seq<string>,
                    ghost nons: seq<string>)
      returns (e: Option<Event>)
      requires argv.Length > 0 && Clamped(argv, opts, nons) && nextchar == "" && Realizes(cfg, rd) && optarg == None
      requires if ordering == Permute then lastNonopt == optind && (optind < argv.Length ==> !IsNonOption(argv[optind]))
               else nons == []
      requires s == Next(ordering, rd, argv[optind..], "")
      modifies this, argv
      ensures ordering == old(ordering) && initialized == old(initialized) && argv[0] == old(argv[0])
      ensures Does(argv, s, e, opts, nons)
    {
      NextHere(ordering, rd, argv[optind..]);
      if optind != argv.Length && argv[optind] == "--" {
        assert argv[optind..][1..] == argv[optind + 1..];
        FinishAtDashes(argv, s, opts, nons);
        return None;
      }
      if optind == argv.Length {
        FinishAtEnd(argv, opts, nons);
        return None;
      }
      assert argv[optind..][1..] == argv[optind + 1..];
      if IsNonOption(argv[optind]) {
        e := MeetOther(argv, s, opts);
      } else {
        ghost var rest := argv[optind..];
        e := ReadOption(argv, cfg, rd, rest, rd.decode(rest[0], Lead(rd.longs, rest[0]), rest[1..]), opts, nons);
      }
    }

    // _getopt_internal once the scan is initialized
    method Call(argv: array<string>, cfg: Config, ghost rd: Reader, ghost opts: seq<string>, ghost nons: seq<string>)
      returns (e: Option<Event>)
      requires argv.Length > 0 && At(argv, opts, nons) && Realizes(cfg, rd)
      modifies this, argv
      ensures ordering == old(ordering) && initialized == old(initialized) && argv[0] == old(argv[0])
      ensures Does(argv, Next(ordering, rd, old(argv[optind..]), old(nextchar)), e, opts, nons)
    {
      optarg := None;
      if nextchar != "" {
        e := Resume(argv, cfg, rd, opts, nons);
        return;
      }
      ghost var n := Gather(argv, rd, opts, nons);
      ghost var s := Next(ordering, rd, argv[optind..], "");
      e := CallHere(argv, cfg, rd, s, opts, nons + n);
      DoesMore(argv, s, n, e, opts, nons);
      WithNonsNone(s);
    }

    constructor ()
      ensures !initialized && optind == 1
    {
      optind := 1;
      nextchar := "";
      optarg := None;
      firstNonopt := 0;
      lastNonopt := 0;
      ordering := Permute;
      initialized := false;
    }

    // Whether the next call starts a scan
    predicate Starts()
      reads this
    {
      !initialized || optind == 0
    }

    // _getopt_internal.  The call that starts a scan leaves out the mark at the start
    // of the option string; later calls do not.
    method GetoptInternal(argv: array<string>, cfg: Config, posixlyCorrect: bool, ghost rd: Reader,
                          ghost opts: seq<string>, ghost nons: seq<string>)
      returns (e: Option<Event>)
      requires argv.Length > 0 && Realizes(if Starts() then WithoutMark(cfg) else cfg, rd)
      requires if Starts() then optind <= argv.Length && opts == argv[1..First(optind)] && nons == []
               else At(argv, opts, nons)
      modifies this, argv
      ensures initialized && argv[0] == old(argv[0])
      ensures ordering == if old(Starts()) then OrderingOf(cfg.optstring, posixlyCorrect) else old(ordering)
      ensures Does(argv, Next(ordering, rd, old(argv[First(optind)..]), if old(Starts()) then "" else old(nextchar)), e,
                   opts, nons)
    {
      var optstring := cfg;
      if optind == 0 || !initialized {
        if optind == 0 {
          optind := 1;
        }
        firstNonopt := optind;
        lastNonopt := optind;
        nextchar := "";
        ordering := OrderingOf(cfg.optstring, posixlyCorrect);
        optstring := WithoutMark(cfg);
        initialized := true;
        StartsAgain(argv[..], optind, opts);
      }
      e := Call(argv, optstring, rd, opts, nons);
    }
  }

  // The calls after the first, until there is no option left
  method CallOn(scanner: Scanner, argv: array<string>, cfg: Config, posixlyCorrect: bool, ghost o: Ordering,
                ghost rd: Reader, ghost goal: Outcome, first: Event, ghost opts0: seq<string>, ghost nons0: seq<string>)
    returns (events: seq<Event>, optind: nat)
    requires argv.Length > 0 && Realizes(cfg, rd)
    requires !scanner.Starts() && scanner.ordering == o && scanner.At(argv, opts0, nons0)
    requires Continues(o, rd, argv[scanner.optind..], scanner.nextchar, goal, [first], opts0, nons0)
    modifies scanner, argv
    ensures events == goal.events && optind == 1 + |goal.opts|
    ensures argv[..] == [old(argv[0])] + goal.opts + goal.nons + goal.rest
  {
    ghost var opts, nons, rest, next := opts0, nons0, argv[scanner.optind..], scanner.nextchar;
    events := [first];
    while true
      invariant argv[0] == old(argv[0])
      invariant MidElement(rest, next) && Continues(o, rd, rest, next, goal, events, opts, nons)
      invariant !scanner.Starts() && scanner.ordering == o && scanner.At(argv, opts, nons)
      invariant rest == argv[scanner.optind..] && next == scanner.nextchar
      decreases |rest|, Left(rest, next)
    {
      ContinuesNext(o, rd, rest, next, goal, events, opts, nons);
      ghost var s := Next(o, rd, rest, next);
      var e := scanner.GetoptInternal(argv, cfg, posixlyCorrect, rd, opts, nons);
      if e.None? {
        return events, scanner.optind;
      }
      events := events + [e.value];
      opts, nons, rest, next := opts + s.opts, nons + s.nons, s.rest, s.next;
    }
  }

  // What the first call leaves to come
  lemma FirstLeaves(o: Ordering, first: Reader, later: Reader, args: seq<string>)
    requires Shrinks(first) && Shrinks(later) && ScanFrom(o, first, later, args).Some?
    ensures var s, goal := Next(o, first, args, ""), ScanFrom(o, first, later, args).value;
            && !s.Overrun? && [] + s.opts == s.opts && [] + s.nons == s.nons
            && (s.Stop? ==> goal == Outcome([], s.opts, s.nons, s.rest))
            && (s.Emit? ==> Continues(o, later, s.rest, s.next, goal, [s.event], s.opts, s.nons))
  {
  }

  // Call until there is no option left
  method CallAll(argv: array<string>, cfg: Config, posixlyCorrect: bool, ghost first: Reader, ghost later: Reader)
    returns (events: seq<Event>, optind: nat)
    requires argv.Length > 0 && Realizes(WithoutMark(cfg), first) && Realizes(cfg, later)
    requires ScanFrom(OrderingOf(cfg.optstring, posixlyCorrect), first, later, argv[1..]).Some?
    modifies argv
    ensures var r := ScanFrom(OrderingOf(cfg.optstring, posixlyCorrect), first, later, old(argv[1..])).value;
            && events == r.events
            && argv[..] == [old(argv[0])] + r.opts + r.nons + r.rest
            && optind == 1 + |r.opts|
  {
    hide ScanFrom, Continues, Next;
    var scanner := new Scanner();
    ghost var o := OrderingOf(cfg.optstring, posixlyCorrect);
    ghost var goal := ScanFrom(o, first, later, argv[1..]).value;
    ghost var s := Next(o, first, argv[1..], "");
    FirstLeaves(o, first, later, argv[1..]);
    var e := scanner.GetoptInternal(argv, cfg, posixlyCorrect, first, [], []);
    if e.None? {
      return [], scanner.optind;
    }
    events, optind := CallOn(scanner, argv, cfg, posixlyCorrect, o, later, goal, e.value, s.opts, s.nons);
  }

  // A whole scan.  The events are those of the scanner that moves nothing, and the
  // arguments end up partitioned.  A mark at the start of the option string is left
  // out by the first call only.
  method ScanAll(argv: array<string>, cfg: Config, posixlyCorrect: bool) returns (events: seq<Event>, optind: nat)
    requires argv.Length > 0 && WNeedsLongopts(cfg)
    requires ScanFrom(OrderingOf(cfg.optstring, posixlyCorrect), ReaderOf(WithoutMark(cfg)), ReaderOf(cfg),
                      argv[1..]).Some?
    modifies argv
    ensures var r := ScanFrom(OrderingOf(cfg.optstring, posixlyCorrect), ReaderOf(WithoutMark(cfg)), ReaderOf(cfg),
                              old(argv[1..])).value;
            && events == r.events
            && argv[..] == [old(argv[0])] + r.opts + r.nons + r.rest
            && optind == 1 + |r.opts|
  {
    events, optind := CallAll(argv, cfg, posixlyCorrect, ReaderOf(WithoutMark(cfg)), ReaderOf(cfg));
  }

  // Where neither a mark nor an ambiguous -W name has a say, what comes first is the
  // options with their arguments, and what comes last is all else
  method ScanDivided(argv: array<string>, cfg: Config, posixlyCorrect: bool) returns (events: seq<Event>, optind: nat)
    requires argv.Length > 0 && WNeedsLongopts(cfg)
    requires SilentLater(OrderingOf(cfg.optstring, posixlyCorrect), cfg, argv[1..])
    requires Clear(OrderingOf(cfg.optstring, posixlyCorrect), WithoutMark(cfg), argv[1..])
    modifies argv
    ensures var d := Divide(OrderingOf(cfg.optstring, posixlyCorrect), WithoutMark(cfg), old(argv[1..]));
            && argv[..] == [old(argv[0])] + d.opts + d.nons + d.rest
            && optind == 1 + |d.opts|
    ensures Some(events)
            == EventsOf(Scan(OrderingOf(cfg.optstring, posixlyCorrect), ReaderOf(WithoutMark(cfg)), old(argv[1..]), ""))
  {
    ghost var o := OrderingOf(cfg.optstring, posixlyCorrect);
    ghost var bare, rd := ReaderOf(WithoutMark(cfg)), ReaderOf(cfg);
    ScanDivides(o, WithoutMark(cfg), bare, argv[1..]);
    MarkIsSilentExactly(o, cfg, rd, bare, argv[1..]);
    events, optind := CallAll(argv, cfg, posixlyCorrect, bare, rd);
  }

  ghost function EventsOf(r: Option<Outcome>): Option<seq<Event>> {
    match r
    case None => None
    case Some(r) => Some(r.events)
  }
}
