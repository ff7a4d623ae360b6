// The mark at the start of the option string, which only the call that starts a scan
// leaves out (lib/getopt.c).
module GetoptMark {
  import opened Words
  import opened GetoptScan
  import opened GetoptFacts
  import opened GetoptPartition

  predicate Marked(cfg: Config) {
    cfg.optstring != "" && cfg.optstring[0] in "-+"
  }

  // The reply to a missing argument changes exactly if a colon follows the mark
  lemma MissingAfterMark(cfg: Config)
    ensures Missing(cfg) != Missing(WithoutMark(cfg)) <==> Marked(cfg) && |cfg.optstring| > 1 && cfg.optstring[1] == ':'
  {
  }

  // What is left of an element
  predicate IsTail(elem: string, next: string) {
    |elem| >= 2 && 0 < |next| < |elem| && elem[|elem| - |next|..] == next
  }

  // An option takes no argument, one, or one that may be left out
  function Form(after: string): nat {
    if "::" <= after then 2 else if ":" <= after then 1 else 0
  }

  // A short option whose argument is missing
  predicate Lacks(cfg: Config, next: string, following: seq<string>)
    requires next != "" && WNeedsLongopts(cfg)
  {
    if IsW(cfg, next) then
      if |next| > 1 then following == [] && NameTakes(cfg, next[1..])
      else following == [] || (|following| == 1 && NameTakes(cfg, following[0]))
    else |next| == 1 && following == [] && NeedsArgument(cfg, next[0])
  }

  // When a call that takes the mark for an option does something else: the character
  // is read, and has not the same form behind the mark as where it is listed; or an
  // argument is missing, and a colon follows the mark
  predicate MarkMatters(cfg: Config, elem: string, next: string, following: seq<string>)
    requires IsTail(elem, next) && WNeedsLongopts(cfg)
  {
    && Marked(cfg)
    && var bare, mark := WithoutMark(cfg), cfg.optstring[0];
       var form := Form(bare.optstring);
       if ReadsLong(cfg, elem, next) then form > 0 && following == [] && NameTakes(cfg, next)
       else if next[0] != mark then form > 0 && Lacks(bare, next, following)
       else if mark !in bare.optstring then
         LooksLong(bare, elem) || |next| > 1 || following != [] || form != 1
       else if |next| > 1 then (form == 0) != (Form(After(bare, mark)) == 0)
       else (form == 1) != (Form(After(bare, mark)) == 1) || (form == 1 && following == [])
  }

  lemma IndexBehind(mark: char, s: string, c: char)
    ensures Index([mark] + s, c) == if c == mark then [mark] + s else Index(s, c)
  {
    assert ([mark] + s)[1..] == s;
  }

  lemma BareReads(cfg: Config, elem: string, next: string)
    requires IsTail(elem, next) && WNeedsLongopts(cfg) && Marked(cfg) && next[0] != cfg.optstring[0]
    ensures LooksLong(cfg, elem) == LooksLong(WithoutMark(cfg), elem)
    ensures ReadsLong(cfg, elem, next) == ReadsLong(WithoutMark(cfg), elem, next)
  {
    var mark, s := cfg.optstring[0], cfg.optstring[1..];
    assert cfg.optstring == [mark] + s;
    if elem[1] == mark && |elem| == 2 {
      assert next[0] == elem[|elem| - |next|..][0];
    }
  }

  lemma FoundDiffers(cfg: Config, bare: Config, o: LongOption, i: nat, optarg: Option<string>, value: string,
                     following: seq<string>, done: nat, bad: Option<int>)
    ensures DecodeFound(cfg, o, i, optarg, value, following, done, bad)
            != DecodeFound(bare, o, i, optarg, value, following, done, bad) <==>
            Missing(cfg) != Missing(bare) && value == "" && o.hasArg == RequiredArgument && following == []
    ensures var d, d' := DecodeFound(cfg, o, i, optarg, value, following, done, bad),
                         DecodeFound(bare, o, i, optarg, value, following, done, bad);
            d.event == d'.event ==> d == d'
  {
  }

  // By name
  lemma LongDiffers(cfg: Config, elem: string, next: string, following: seq<string>)
    requires IsTail(elem, next) && WNeedsLongopts(cfg) && Marked(cfg) && ReadsLong(cfg, elem, next)
    ensures Decode(cfg, elem, next, following) != Decode(WithoutMark(cfg), elem, next, following) <==>
            Form(WithoutMark(cfg).optstring) > 0 && following == [] && NameTakes(cfg, next)
    ensures Decode(cfg, elem, next, following).event == Decode(WithoutMark(cfg), elem, next, following).event ==>
              Decode(cfg, elem, next, following) == Decode(WithoutMark(cfg), elem, next, following)
  {
    hide LongMatch, DecodeShort;
    var bare := WithoutMark(cfg);
    var name := UpToEq(next);
    UpToEqWhole(next);
    assert LooksLong(bare, elem) && ReadsLong(bare, elem, next) by {
      assert cfg.optstring == [cfg.optstring[0]] + bare.optstring;
    }
    var m := LongMatch(cfg.longopts.value, name);
    if m.Found? {
      var o := cfg.longopts.value[m.i];
      FoundDiffers(cfg, bare, o, m.i, None, next[|name|..], following, 1, Some(o.val));
    }
  }

  lemma NamedDiffers(cfg: Config, optarg: string, following: seq<string>, done: nat)
    requires cfg.longopts.Some?
    ensures DecodeNamed(cfg, optarg, following, done) != DecodeNamed(WithoutMark(cfg), optarg, following, done) <==>
            Missing(cfg) != Missing(WithoutMark(cfg)) && following == [] && NameTakes(cfg, optarg)
    ensures var d := DecodeNamed(cfg, optarg, following, done);
            var d' := DecodeNamed(WithoutMark(cfg), optarg, following, done);
            d.event == d'.event ==> d == d'
  {
    hide LongMatch;
    UpToEqWhole(optarg);
    var name := UpToEq(optarg);
    var m := LongMatch(cfg.longopts.value, name);
    if m.Found? {
      var o := cfg.longopts.value[m.i];
      FoundDiffers(cfg, WithoutMark(cfg), o, m.i, Some(optarg), optarg[|name|..], following, done, None);
    }
  }

  lemma WDiffers(cfg: Config, next: string, following: seq<string>)
    requires next != "" && cfg.longopts.Some? && Marked(cfg)
    ensures var bare := WithoutMark(cfg);
            DecodeW(cfg, next[1..], following) != DecodeW(bare, next[1..], following) <==>
            && Missing(cfg) != Missing(bare)
            && if |next| > 1 then following == [] && NameTakes(bare, next[1..])
               else following == [] || (|following| == 1 && NameTakes(bare, following[0]))
    ensures DecodeW(cfg, next[1..], following).event == DecodeW(WithoutMark(cfg), next[1..], following).event ==>
              DecodeW(cfg, next[1..], following) == DecodeW(WithoutMark(cfg), next[1..], following)
  {
    hide DecodeNamed, NameTakes, Missing;
    if |next| > 1 {
      NamedDiffers(cfg, next[1..], following, 1);
      NameTakesSame(cfg, next[1..]);
    } else if following != [] {
      NamedDiffers(cfg, following[0], following[1..], 2);
      NameTakesSame(cfg, following[0]);
    }
  }

  lemma OtherIndex(cfg: Config, c: char)
    requires Marked(cfg) && c != cfg.optstring[0]
    ensures Index(cfg.optstring, c) == Index(WithoutMark(cfg).optstring, c)
  {
    assert cfg.optstring == [cfg.optstring[0]] + WithoutMark(cfg).optstring;
    IndexBehind(cfg.optstring[0], WithoutMark(cfg).optstring, c);
  }

  lemma WIsRead(cfg: Config, next: string, following: seq<string>)
    requires next != "" && WNeedsLongopts(cfg) && IsW(cfg, next)
    ensures DecodeShort(cfg, next, following) == DecodeW(cfg, next[1..], following)
  {
  }

  // Any other character, by what the option string says of it
  lemma CharacterDiffers(cfg: Config, bare: Config, next: string, following: seq<string>)
    requires next != "" && WNeedsLongopts(cfg) && WNeedsLongopts(bare) && !IsW(cfg, next) && !IsW(bare, next)
    requires Index(cfg.optstring, next[0]) == Index(bare.optstring, next[0])
    ensures DecodeShort(cfg, next, following) != DecodeShort(bare, next, following) <==>
            Missing(cfg) != Missing(bare) && |next| == 1 && following == [] && NeedsArgument(bare, next[0])
    ensures DecodeShort(cfg, next, following).event == DecodeShort(bare, next, following).event ==>
              DecodeShort(cfg, next, following) == DecodeShort(bare, next, following)
  {
    hide Index, DecodeW, Missing;
  }

  // By a character other than the mark
  lemma ShortDiffers(cfg: Config, next: string, following: seq<string>)
    requires next != "" && WNeedsLongopts(cfg) && Marked(cfg) && next[0] != cfg.optstring[0]
    ensures DecodeShort(cfg, next, following) != DecodeShort(WithoutMark(cfg), next, following) <==>
            Form(WithoutMark(cfg).optstring) > 0 && Lacks(WithoutMark(cfg), next, following)
    ensures DecodeShort(cfg, next, following).event == DecodeShort(WithoutMark(cfg), next, following).event ==>
              DecodeShort(cfg, next, following) == DecodeShort(WithoutMark(cfg), next, following)
  {
    hide DecodeShort, DecodeW, NameTakes, Index, NeedsArgument;
    var bare := WithoutMark(cfg);
    OtherIndex(cfg, next[0]);
    OtherIndex(cfg, 'W');
    MissingAfterMark(cfg);
    if IsW(cfg, next) {
      WIsRead(cfg, next, following);
      WIsRead(bare, next, following);
      WDiffers(cfg, next, following);
    } else {
      CharacterDiffers(cfg, bare, next, following);
    }
  }

  lemma NameTakesSame(cfg: Config, text: string)
    requires cfg.longopts.Some?
    ensures NameTakes(cfg, text) == NameTakes(WithoutMark(cfg), text)
  {
  }

  // By the mark, where both readers take it for a short option
  lemma MarkDiffers(cfg: Config, next: string, following: seq<string>)
    requires next != "" && WNeedsLongopts(cfg) && Marked(cfg) && next[0] == cfg.optstring[0]
    ensures var bare, mark := WithoutMark(cfg), cfg.optstring[0];
            var form := Form(bare.optstring);
            DecodeShort(cfg, next, following) != DecodeShort(bare, next, following) <==>
            if mark !in bare.optstring then |next| > 1 || following != [] || form != 1
            else if |next| > 1 then (form == 0) != (Form(After(bare, mark)) == 0)
            else (form == 1) != (Form(After(bare, mark)) == 1) || (form == 1 && following == [])
    ensures DecodeShort(cfg, next, following).event == DecodeShort(WithoutMark(cfg), next, following).event ==>
              DecodeShort(cfg, next, following) == DecodeShort(WithoutMark(cfg), next, following)
  {
    hide DecodeW;
    var mark, bare := cfg.optstring[0], WithoutMark(cfg);
    assert cfg.optstring == [mark] + bare.optstring;
    IndexBehind(mark, bare.optstring, mark);
    hide Index;
    MissingAfterMark(cfg);
  }

  // By the mark, where the other reader looks for a name
  lemma MarkIsName(cfg: Config, elem: string, next: string, following: seq<string>)
    requires IsTail(elem, next) && WNeedsLongopts(cfg) && Marked(cfg) && next[0] == cfg.optstring[0]
    requires !ReadsLong(cfg, elem, next) && LooksLong(WithoutMark(cfg), elem)
    requires cfg.optstring[0] !in WithoutMark(cfg).optstring
    ensures DecodeLong(WithoutMark(cfg), elem, next, following).Some?
    ensures DecodeShort(cfg, next, following).event != DecodeLong(WithoutMark(cfg), elem, next, following).value.event
  {
  }

  // Where the mark is listed again, both look up the same
  lemma ListedAgain(cfg: Config, elem: string, next: string, following: seq<string>)
    requires IsTail(elem, next) && WNeedsLongopts(cfg) && Marked(cfg) && next[0] == cfg.optstring[0]
    requires cfg.optstring[0] in WithoutMark(cfg).optstring || !LooksLong(WithoutMark(cfg), elem)
    ensures LooksLong(WithoutMark(cfg), elem) == LooksLong(cfg, elem)
    ensures ReadsLong(WithoutMark(cfg), elem, next) == ReadsLong(cfg, elem, next)
  {
    assert cfg.optstring == [cfg.optstring[0]] + WithoutMark(cfg).optstring;
  }

  // The calls that the mark changes are exactly those
  lemma MarkMattersExactly(cfg: Config, elem: string, next: string, following: seq<string>)
    requires IsTail(elem, next) && WNeedsLongopts(cfg)
    ensures Decode(cfg, elem, next, following) != Decode(WithoutMark(cfg), elem, next, following) <==>
            MarkMatters(cfg, elem, next, following)
    ensures Decode(cfg, elem, next, following).event == Decode(WithoutMark(cfg), elem, next, following).event ==>
              Decode(cfg, elem, next, following) == Decode(WithoutMark(cfg), elem, next, following)
  {
    if Marked(cfg) {
      if ReadsLong(cfg, elem, next) {
        LongDiffers(cfg, elem, next, following);
      } else {
        ShortMatters(cfg, elem, next, following);
      }
    }
  }

  lemma ShortMatters(cfg: Config, elem: string, next: string, following: seq<string>)
    requires IsTail(elem, next) && WNeedsLongopts(cfg) && Marked(cfg) && !ReadsLong(cfg, elem, next)
    ensures Decode(cfg, elem, next, following) != Decode(WithoutMark(cfg), elem, next, following) <==>
            MarkMatters(cfg, elem, next, following)
    ensures Decode(cfg, elem, next, following).event == Decode(WithoutMark(cfg), elem, next, following).event ==>
              Decode(cfg, elem, next, following) == Decode(WithoutMark(cfg), elem, next, following)
  {
    hide DecodeShort, Form, Lacks, After;
    if next[0] != cfg.optstring[0] {
      BareReads(cfg, elem, next);
      ShortDiffers(cfg, next, following);
    } else {
      MarkDiffers(cfg, next, following);
      if cfg.optstring[0] in WithoutMark(cfg).optstring || !LooksLong(WithoutMark(cfg), elem) {
        ListedAgain(cfg, elem, next, following);
      } else {
        MarkIsName(cfg, elem, next, following);
      }
    }
  }

  // ---------------------------------------------------------------
  // Scans in which the mark does not matter

  predicate TailOk(rest: seq<string>, next: string) {
    next != "" ==> rest != [] && IsTail(rest[0], next)
  }

  // What the next call reads of an option element
  function Reading(cfg: Config, elem: string, next: string): (at: string)
    requires if next != "" then IsTail(elem, next) else !IsNonOption(elem) && elem != "--"
    ensures IsTail(elem, at)
  {
    if next != "" then next else Lead(cfg.longopts.Some?, elem)
  }

  lemma CallLeaves(cfg: Config, rest: seq<string>, next: string)
    requires WNeedsLongopts(cfg) && rest != [] && IsTail(rest[0], next)
    ensures var d := Decode(cfg, rest[0], next, rest[1..]);
            d.taken <= |rest| ==> TailOk(rest[d.taken..], d.left)
  {
    CallTakes(cfg, rest[0], next, rest[1..]);
    var d := Decode(cfg, rest[0], next, rest[1..]);
    if d.left != "" {
      assert rest[0][|rest[0]| - |d.left|..] == rest[0][|rest[0]| - |next|..][1..];
    }
  }

  // From here on no call of the scan is changed by the mark
  predicate Silent(o: Ordering, cfg: Config, rest: seq<string>, next: string)
    requires WNeedsLongopts(cfg) && TailOk(rest, next)
    decreases |rest|, Left(rest, next)
  {
    if next == "" && (rest == [] || rest[0] == "--") then true
    else if next == "" && IsNonOption(rest[0]) then o == RequireOrder || Silent(o, cfg, rest[1..], "")
    else
      var at := Reading(cfg, rest[0], next);
      CallLeaves(WithoutMark(cfg), rest, at);
      var d := Decode(WithoutMark(cfg), rest[0], at, rest[1..]);
      && !MarkMatters(cfg, rest[0], at, rest[1..])
      && (d.taken > |rest| || Silent(o, cfg, rest[d.taken..], d.left))
  }

  lemma EmitPrefixes(o: Ordering, rd: Reader, rest: seq<string>, next: string, d: Decoded)
    requires MidElement(rest, next) && Shrinks(rd) && Next(o, rd, rest, next) == EmitDecoded(d, rest)
    ensures if d.taken > |rest| then Scan(o, rd, rest, next) == None
            else
              && MidElement(rest[d.taken..], d.left)
              && Scan(o, rd, rest, next)
                 == Prefixed([d.event], rest[..d.taken], [], Scan(o, rd, rest[d.taken..], d.left))
  {
  }

  lemma ReadingIsNext(o: Ordering, cfg: Config, c: Config, rd: Reader, rest: seq<string>, next: string)
    requires Realizes(c, rd) && rest != [] && c.longopts == cfg.longopts && TailOk(rest, next)
    requires next == "" ==> !IsNonOption(rest[0]) && rest[0] != "--"
    ensures MidElement(rest, next)
    ensures Next(o, rd, rest, next) == EmitDecoded(Decode(c, rest[0], Reading(cfg, rest[0], next), rest[1..]), rest)
  {
    hide Decode;
    if next == "" {
      NextHere(o, rd, rest);
    }
    assert rd.decode(rest[0], Reading(cfg, rest[0], next), rest[1..])
           == Decode(c, rest[0], Reading(cfg, rest[0], next), rest[1..]);
  }

  lemma PrefixedTells(events: seq<Event>, opts: seq<string>, nons: seq<string>, r: Option<Outcome>, r': Option<Outcome>)
    ensures Prefixed(events, opts, nons, r) == Prefixed(events, opts, nons, r') <==> r == r'
  {
    if r.Some? && r'.Some? && Prefixed(events, opts, nons, r) == Prefixed(events, opts, nons, r') {
      var a, b := Prefixed(events, opts, nons, r).value, Prefixed(events, opts, nons, r').value;
      assert a.events[|events|..] == r.value.events && b.events[|events|..] == r'.value.events;
      assert a.opts[|opts|..] == r.value.opts && b.opts[|opts|..] == r'.value.opts;
      assert a.nons[|nons|..] == r.value.nons && b.nons[|nons|..] == r'.value.nons;
    }
  }

  lemma FirstEventTells(e: Event, e': Event, opts: seq<string>, opts': seq<string>, r: Option<Outcome>,
                        r': Option<Outcome>)
    requires e != e' && r.Some?
    ensures Prefixed([e], opts, [], r) != Prefixed([e'], opts', [], r')
  {
    if r'.Some? {
      assert ([e] + r.value.events)[0] == e && ([e'] + r'.value.events)[0] == e';
    }
  }

  // One call of both readers, and the scans behind it
  lemma CallsAgree(o: Ordering, cfg: Config, rd: Reader, bare: Reader, rest: seq<string>, next: string)
    requires Realizes(cfg, rd) && Realizes(WithoutMark(cfg), bare) && rest != [] && TailOk(rest, next)
    requires next == "" ==> !IsNonOption(rest[0]) && rest[0] != "--"
    requires MidElement(rest, next) && Scan(o, bare, rest, next).Some?
    ensures var d := Decode(WithoutMark(cfg), rest[0], Reading(cfg, rest[0], next), rest[1..]);
            && d.taken <= |rest| && TailOk(rest[d.taken..], d.left) && MidElement(rest[d.taken..], d.left)
            && Scan(o, bare, rest[d.taken..], d.left).Some?
            && (Scan(o, rd, rest, next) == Scan(o, bare, rest, next) <==>
                  && !MarkMatters(cfg, rest[0], Reading(cfg, rest[0], next), rest[1..])
                  && Scan(o, rd, rest[d.taken..], d.left) == Scan(o, bare, rest[d.taken..], d.left))
  {
    hide Scan, Decode, MarkMatters, IsTail, Prefixed;
    var at, following := Reading(cfg, rest[0], next), rest[1..];
    var d, d' := Decode(WithoutMark(cfg), rest[0], at, following), Decode(cfg, rest[0], at, following);
    ReadingIsNext(o, cfg, WithoutMark(cfg), bare, rest, next);
    ReadingIsNext(o, cfg, cfg, rd, rest, next);
    EmitPrefixes(o, bare, rest, next, d);
    EmitPrefixes(o, rd, rest, next, d');
    CallLeaves(WithoutMark(cfg), rest, at);
    MarkMattersExactly(cfg, rest[0], at, following);
    PrefixedSome([d.event], rest[..d.taken], [], Scan(o, bare, rest[d.taken..], d.left));
    if MarkMatters(cfg, rest[0], at, following) {
      if d'.taken <= |rest| {
        FirstEventTells(d.event, d'.event, rest[..d.taken], rest[..d'.taken], Scan(o, bare, rest[d.taken..], d.left),
                        Scan(o, rd, rest[d'.taken..], d'.left));
      }
    } else {
      PrefixedTells([d.event], rest[..d.taken], [], Scan(o, rd, rest[d.taken..], d.left),
                    Scan(o, bare, rest[d.taken..], d.left));
    }
  }

  lemma PrefixedSome(events: seq<Event>, opts: seq<string>, nons: seq<string>, r: Option<Outcome>)
    ensures Prefixed(events, opts, nons, r).Some? <==> r.Some?
  {
  }

  lemma ScanSkips(rd: Reader, rest: seq<string>)
    requires Shrinks(rd) && rest != [] && IsNonOption(rest[0])
    ensures Scan(Permute, rd, rest, "") == Prefixed([], [], [rest[0]], Scan(Permute, rd, rest[1..], ""))
  {
    assert rest == [rest[0]] + rest[1..];
    ScanOperand(rd, rest[0], rest[1..]);
  }

  lemma ScanReturns(rd: Reader, rest: seq<string>)
    requires Shrinks(rd) && rest != [] && IsNonOption(rest[0])
    ensures Scan(ReturnInOrder, rd, rest, "")
            == Prefixed([Plain(1, Some(rest[0]))], [rest[0]], [], Scan(ReturnInOrder, rd, rest[1..], ""))
  {
    ScanAfter(ReturnInOrder, rd, rest, "", [rest[0]], Plain(1, Some(rest[0])), rest[1..], "");
  }

  lemma ScanStopsHere(o: Ordering, rd: Reader, bare: Reader, rest: seq<string>)
    requires Shrinks(rd) && Shrinks(bare)
    requires rest == [] || rest[0] == "--" || (IsNonOption(rest[0]) && o == RequireOrder)
    ensures Scan(o, rd, rest, "") == Scan(o, bare, rest, "")
  {
    NextHere(o, rd, rest);
    NextHere(o, bare, rest);
  }

  // Scans with and without the mark are the same exactly if it changes no call
  lemma {:induction false} SilentExactly(o: Ordering, cfg: Config, rd: Reader, bare: Reader, rest: seq<string>,
                                         next: string)
    requires Realizes(cfg, rd) && Realizes(WithoutMark(cfg), bare) && TailOk(rest, next)
    requires MidElement(rest, next) && Scan(o, bare, rest, next).Some?
    ensures Scan(o, rd, rest, next) == Scan(o, bare, rest, next) <==> Silent(o, cfg, rest, next)
    decreases |rest|, Left(rest, next)
  {
    hide Scan, Decode, MarkMatters, Prefixed, WithoutMark;
    if next == "" && (rest == [] || rest[0] == "--" || (IsNonOption(rest[0]) && o == RequireOrder)) {
      ScanStopsHere(o, rd, bare, rest);
    } else if next == "" && IsNonOption(rest[0]) {
      var nons: seq<string>, opts: seq<string>, events: seq<Event> := [], [], [];
      if o == Permute {
        ScanSkips(rd, rest);
        ScanSkips(bare, rest);
        nons := [rest[0]];
      } else {
        ScanReturns(rd, rest);
        ScanReturns(bare, rest);
        opts, events := [rest[0]], [Plain(1, Some(rest[0]))];
      }
      PrefixedSome(events, opts, nons, Scan(o, bare, rest[1..], ""));
      PrefixedTells(events, opts, nons, Scan(o, rd, rest[1..], ""), Scan(o, bare, rest[1..], ""));
      SilentExactly(o, cfg, rd, bare, rest[1..], "");
    } else {
      CallsAgree(o, cfg, rd, bare, rest, next);
      var d := Decode(WithoutMark(cfg), rest[0], Reading(cfg, rest[0], next), rest[1..]);
      SilentExactly(o, cfg, rd, bare, rest[d.taken..], d.left);
    }
  }

  // The call that starts a scan leaves the mark out anyway
  predicate SilentLater(o: Ordering, cfg: Config, args: seq<string>)
    requires WNeedsLongopts(cfg)
    decreases |args|
  {
    if args == [] || args[0] == "--" then true
    else if IsNonOption(args[0]) then
      match o
      case RequireOrder => true
      case Permute => SilentLater(o, cfg, args[1..])
      case ReturnInOrder => Silent(o, cfg, args[1..], "")
    else
      var at := Reading(cfg, args[0], "");
      CallLeaves(WithoutMark(cfg), args, at);
      var d := Decode(WithoutMark(cfg), args[0], at, args[1..]);
      d.taken > |args| || Silent(o, cfg, args[d.taken..], d.left)
  }

  lemma {:induction false} LaterIsNext(o: Ordering, cfg: Config, bare: Reader, args: seq<string>)
    requires Realizes(WithoutMark(cfg), bare)
    ensures var s := Next(o, bare, args, "");
            s.Emit? ==> TailOk(s.rest, s.next) && (SilentLater(o, cfg, args) <==> Silent(o, cfg, s.rest, s.next))
    ensures Next(o, bare, args, "").Stop? ==> SilentLater(o, cfg, args)
    decreases |args|
  {
    hide Silent, Decode, IsTail;
    NextHere(o, bare, args);
    if args != [] && args[0] != "--" {
      if !IsNonOption(args[0]) {
        ReadingIsNext(o, cfg, WithoutMark(cfg), bare, args, "");
        CallLeaves(WithoutMark(cfg), args, Reading(cfg, args[0], ""));
      } else if o == Permute {
        LaterIsNext(o, cfg, bare, args[1..]);
      }
    }
  }

  // A whole scan is that of the option string without its mark exactly if the mark
  // changes no call but the first
  lemma MarkIsSilentExactly(o: Ordering, cfg: Config, rd: Reader, bare: Reader, args: seq<string>)
    requires Realizes(cfg, rd) && Realizes(WithoutMark(cfg), bare) && Scan(o, bare, args, "").Some?
    ensures ScanFrom(o, bare, rd, args) == Scan(o, bare, args, "") <==> SilentLater(o, cfg, args)
  {
    hide Silent, SilentLater, Next;
    LaterIsNext(o, cfg, bare, args);
    var s := Next(o, bare, args, "");
    if s.Emit? {
      SilentExactly(o, cfg, rd, bare, s.rest, s.next);
      PrefixedTells([s.event], s.opts, s.nons, Scan(o, rd, s.rest, s.next), Scan(o, bare, s.rest, s.next));
    }
  }

  // It changes none if no colon follows it and no option element has it
  predicate Unseen(cfg: Config, args: seq<string>) {
    Marked(cfg) ==>
      && !(|cfg.optstring| > 1 && cfg.optstring[1] == ':')
      && forall i :: 0 <= i < |args| ==>
           IsNonOption(args[i]) || args[i] == "--" || cfg.optstring[0] !in Lead(cfg.longopts.Some?, args[i])
  }

  lemma UnseenTail(cfg: Config, args: seq<string>, k: nat)
    requires Unseen(cfg, args) && k <= |args|
    ensures Unseen(cfg, args[k..])
  {
    forall i | 0 <= i < |args[k..]|
      ensures args[k..][i] == args[k + i]
    {
    }
  }

  lemma {:induction false} UnseenIsSilent(o: Ordering, cfg: Config, rest: seq<string>, next: string)
    requires WNeedsLongopts(cfg) && TailOk(rest, next) && Unseen(cfg, rest)
    requires Marked(cfg) ==> cfg.optstring[0] !in next
    ensures Silent(o, cfg, rest, next)
    decreases |rest|, Left(rest, next)
  {
    hide Unseen, Decode, ReadsLong, Lacks, NameTakes, LooksLong;
    if next == "" && (rest == [] || rest[0] == "--" || (IsNonOption(rest[0]) && o == RequireOrder)) {
    } else if next == "" && IsNonOption(rest[0]) {
      UnseenTail(cfg, rest, 1);
      UnseenIsSilent(o, cfg, rest[1..], "");
    } else {
      var at := Reading(cfg, rest[0], next);
      UnseenReading(cfg, rest, next);
      CallTakes(WithoutMark(cfg), rest[0], at, rest[1..]);
      CallLeaves(WithoutMark(cfg), rest, at);
      var d := Decode(WithoutMark(cfg), rest[0], at, rest[1..]);
      if d.taken <= |rest| {
        UnseenTail(cfg, rest, d.taken);
        UnseenIsSilent(o, cfg, rest[d.taken..], d.left);
      }
    }
  }

  lemma UnseenReading(cfg: Config, rest: seq<string>, next: string)
    requires WNeedsLongopts(cfg) && TailOk(rest, next) && Unseen(cfg, rest) && rest != []
    requires next == "" ==> !IsNonOption(rest[0]) && rest[0] != "--"
    requires Marked(cfg) ==> cfg.optstring[0] !in next
    ensures var at := Reading(cfg, rest[0], next);
            && (Marked(cfg) ==> cfg.optstring[0] !in at)
            && !MarkMatters(cfg, rest[0], at, rest[1..])
  {
    hide ReadsLong, Lacks, NameTakes, LooksLong;
    var at := Reading(cfg, rest[0], next);
    assert at[0] in at;
  }

  // What is read after the first call is: -a- with the option string "-a"
  lemma MarkIsTaken()
    ensures var cfg, bare := Config("-a", None, false), Config("a", None, false);
            && WithoutMark(cfg) == bare
            && Decode(bare, "-a-", "a-", []) == Decode(cfg, "-a-", "a-", []) == Decoded(Plain('a' as int, None), "-", 0)
            && Decode(bare, "-a-", "-", []) == Decoded(Bad(QUESTION, None, '-' as int), "", 1)
            && Decode(cfg, "-a-", "-", []) == Decoded(Plain('-' as int, None), "", 1)
  {
    assert "-a"[1..] == "a" && "a-"[1..] == "-" && "-"[1..] == "" && "a"[1..] == "";
  }

  // So the whole scan finds an option where there is none
  lemma MarkIsFound(rd: Reader, bare: Reader)
    requires Realizes(Config("-a", None, false), rd) && Realizes(Config("a", None, false), bare)
    ensures Scan(ReturnInOrder, bare, ["-a-"], "").Some?
    ensures !SilentLater(ReturnInOrder, Config("-a", None, false), ["-a-"])
    ensures ScanFrom(ReturnInOrder, bare, rd, ["-a-"]) != Scan(ReturnInOrder, bare, ["-a-"], "")
  {
    hide Decode;
    var cfg, args := Config("-a", None, false), ["-a-"];
    MarkIsTaken();
    NoWNoOverrun(ReturnInOrder, WithoutMark(cfg), bare, args, "");
    assert Lead(false, "-a-") == "a-" && args[1..] == [] && args[0..] == args;
    MarkIsSilentExactly(ReturnInOrder, cfg, rd, bare, args);
    MarkMattersExactly(cfg, "-a-", "-", []);
  }
}
