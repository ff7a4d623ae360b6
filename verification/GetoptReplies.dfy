// What getopt tells its caller of options that it refuses, of -W, and of elements that
// are no options (lib/getopt.c).
module GetoptReplies {
  import opened Words
  import opened GetoptScan
  import opened GetoptRoundTrip

  // The reply to a missing argument is a colon if the option string asks for it
  function ColonOrQuestion(cfg: Config): int {
    if ":" <= cfg.optstring then ':' as int else '?' as int
  }

  // An element that one call is done with, at the end of the list or before more
  lemma LastOne(rd: Reader, elem: string, event: Event)
    requires Shrinks(rd) && !IsNonOption(elem) && elem != "--"
    requires rd.decode(elem, Lead(rd.longs, elem), []) == Decoded(event, "", 1)
    ensures Scan(Permute, rd, [elem], "") == Some(Outcome([event], [elem], [], []))
  {
    assert [elem] + [] == [elem];
    ScanOne(rd, elem, "", [], event);
    assert Scan(Permute, rd, [], "") == Some(Outcome([], [], [], []));
    var none: seq<string> := [];
    assert [event] + [] == [event] && none + none == none;
  }

  // ---------------------------------------------------------------
  // Long options

  // --name=value for an option that takes no argument
  lemma ValueIsRefused(cfg: Config, rd: Reader, name: string, i: nat, arg: string, tail: seq<string>)
    requires Realizes(cfg, rd) && Selects(cfg, name, i) && cfg.longopts.value[i].hasArg == NoArgument
    ensures var elem := "--" + (name + ("=" + arg));
            Scan(Permute, rd, [elem] + tail, "")
            == Prefixed([Event('?' as int, None, Some(cfg.longopts.value[i].val), None, None)], [elem], [],
                        Scan(Permute, rd, tail, ""))
  {
    hide Decode, LongMatch;
    var value := "=" + arg;
    DecodesLong(cfg, name, i, value, tail);
    LeadOfLong(name, value);
    ScanOne(rd, "--" + (name + value), "", tail,
            Event('?' as int, None, Some(cfg.longopts.value[i].val), None, None));
  }

  // --name at the end of the list, for an option that needs an argument
  lemma LongArgumentIsMissing(cfg: Config, rd: Reader, name: string, i: nat)
    requires Realizes(cfg, rd) && Selects(cfg, name, i) && cfg.longopts.value[i].hasArg == RequiredArgument
    ensures Scan(Permute, rd, ["--" + name], "")
            == Some(Outcome([Event(ColonOrQuestion(cfg), None, Some(cfg.longopts.value[i].val), None, None)],
                            ["--" + name], [], []))
  {
    hide Decode, LongMatch;
    assert name + "" == name;
    DecodesLong(cfg, name, i, "", []);
    LeadOfLong(name, "");
    LastOne(rd, "--" + name, Event(ColonOrQuestion(cfg), None, Some(cfg.longopts.value[i].val), None, None));
  }

  // A name that begins none, or begins several and is none
  ghost predicate SelectsNone(opts: seq<LongOption>, name: string) {
    || (forall i :: 0 <= i < |opts| ==> !(name <= opts[i].name))
    || ((forall i :: 0 <= i < |opts| ==> opts[i].name != name)
        && exists i, j :: 0 <= i < j < |opts| && name <= opts[i].name && name <= opts[j].name)
  }

  lemma NoneIsFound(opts: seq<LongOption>, name: string)
    requires SelectsNone(opts, name)
    ensures !LongMatch(opts, name).Found?
  {
    hide LongMatch;
    LongMatchIsMatch(opts, name);
  }

  lemma NameIsRefused(cfg: Config, rd: Reader, name: string, value: string, tail: seq<string>)
    requires Realizes(cfg, rd) && cfg.longopts.Some? && SelectsNone(cfg.longopts.value, name)
    requires name != "" && '=' !in name && (value == "" || value[0] == '=')
    ensures var elem := "--" + (name + value);
            Scan(Permute, rd, [elem] + tail, "")
            == Prefixed([Event('?' as int, None, Some(0), None, None)], [elem], [], Scan(Permute, rd, tail, ""))
  {
    hide LongMatch, SelectsNone;
    NoneIsFound(cfg.longopts.value, name);
    UpToEqStops(name, value);
    LeadOfLong(name, value);
    var elem := "--" + (name + value);
    assert Decode(cfg, elem, name + value, tail) == Decoded(Event('?' as int, None, Some(0), None, None), "", 1);
    ScanOne(rd, elem, "", tail, Event('?' as int, None, Some(0), None, None));
  }

  // ---------------------------------------------------------------
  // Letters

  // A letter that is not listed, or the colon.  What is left of the element is read on.
  lemma LetterIsRefused(cfg: Config, rd: Reader, elem: string, next: string, tail: seq<string>)
    requires Realizes(cfg, rd) && |elem| >= 2 && next != "" && |next| < |elem| && !ReadsLong(cfg, elem, next)
    requires next[0] !in cfg.optstring || next[0] == ':'
    ensures Scan(Permute, rd, [elem] + tail, next)
            == Prefixed([Event('?' as int, None, Some(next[0] as int), None, None)],
                        if |next| == 1 then [elem] else [], [],
                        if |next| == 1 then Scan(Permute, rd, tail, "")
                        else Scan(Permute, rd, [elem] + tail, next[1..]))
  {
    var rest := [elem] + tail;
    assert rest[1..] == tail && rest[..1] == [elem] && rest[..0] == [] && rest[0..] == rest;
    assert Decode(cfg, elem, next, tail) == DecodeShort(cfg, next, tail);
    assert |next| == 1 ==> next[1..] == "";
  }

  // A letter at the end of the list, for an option that needs an argument
  lemma LetterArgumentIsMissing(cfg: Config, rd: Reader, c: char)
    requires Realizes(cfg, rd) && c != '-' && NeedsArgument(cfg, c) && !ReadsLong(cfg, "-" + [c], [c])
    ensures Scan(Permute, rd, ["-" + [c]], "")
            == Some(Outcome([Event(ColonOrQuestion(cfg), None, Some(c as int), None, None)], ["-" + [c]], [], []))
  {
    var elem := "-" + [c];
    assert elem[1..] == [c] && [c][1..] == "";
    assert Decode(cfg, elem, [c], []) == DecodeShort(cfg, [c], []);
    LastOne(rd, elem, Event(ColonOrQuestion(cfg), None, Some(c as int), None, None));
  }

  // ---------------------------------------------------------------
  // -W, where the option string lists it with a semicolon

  lemma DecodesW(cfg: Config, text: string, following: seq<string>)
    requires WNeedsLongopts(cfg) && Lists(cfg.optstring, 'W', ';')
    ensures text != "" ==> DecodeShort(cfg, "W" + text, following) == DecodeNamed(cfg, text, following, 1)
    ensures DecodeShort(cfg, "W", [text] + following) == DecodeNamed(cfg, text, following, 2)
    ensures DecodeShort(cfg, "W", []) == Decoded(Event(ColonOrQuestion(cfg), None, Some('W' as int), None, None), "", 1)
  {
    assert ("W" + text)[1..] == text && "W"[1..] == "";
    assert ([text] + following)[1..] == following;
    var temp := Index(cfg.optstring, 'W');
    assert temp != "" && temp[1] == ';';
  }

  // -Wname and -W name give the event of --name, except that optarg is the name where
  // there is no other argument
  lemma NamedByW(cfg: Config, name: string, i: nat, arg: Option<string>, following: seq<string>, done: nat)
    requires WNeedsLongopts(cfg) && Selects(cfg, name, i)
    ensures var o := cfg.longopts.value[i];
            var text := name + if arg.None? then "" else "=" + arg.value;
            DecodeNamed(cfg, text, following, done)
            == if arg.Some? && o.hasArg == NoArgument then
                 Decoded(Event('?' as int, Some(text), None, None, None), "", done)
               else if arg.None? && o.hasArg == RequiredArgument then
                 if following == [] then Decoded(Event(ColonOrQuestion(cfg), Some(text), None, None, None), "", done)
                 else Decoded(LongEvent(o, i, Some(following[0])), "", done + 1)
               else Decoded(LongEvent(o, i, Some(arg.GetOr(text))), "", done)
  {
    var value := if arg.None? then "" else "=" + arg.value;
    UpToEqStops(name, value);
    assert (name + value)[|name|..] == value;
    assert arg.Some? ==> value[1..] == arg.value;
  }

  // An unknown name is left to the caller
  lemma UnknownByW(cfg: Config, name: string, value: string, following: seq<string>, done: nat)
    requires WNeedsLongopts(cfg) && cfg.longopts.Some? && '=' !in name && (value == "" || value[0] == '=')
    requires forall i :: 0 <= i < |cfg.longopts.value| ==> !(name <= cfg.longopts.value[i].name)
    ensures DecodeNamed(cfg, name + value, following, done)
            == Decoded(Event('W' as int, Some(name + value), None, None, None), "", done)
  {
    hide LongMatch;
    LongMatchIsMatch(cfg.longopts.value, name);
    UpToEqStops(name, value);
  }

  // ---------------------------------------------------------------
  // Elements that are no options, and the end of the options

  lemma OperandReplies(rd: Reader, text: string, tail: seq<string>)
    requires Shrinks(rd) && IsNonOption(text)
    ensures Scan(ReturnInOrder, rd, [text] + tail, "")
            == Prefixed([Event(1, Some(text), None, None, None)], [text], [], Scan(ReturnInOrder, rd, tail, ""))
    ensures Scan(RequireOrder, rd, [text] + tail, "") == Some(Outcome([], [], [], [text] + tail))
    ensures Scan(Permute, rd, [text] + tail, "") == Prefixed([], [], [text], Scan(Permute, rd, tail, ""))
  {
    ScanOperand(rd, text, tail);
    assert ([text] + tail)[1..] == tail;
  }

  lemma EndReplies(o: Ordering, rd: Reader, tail: seq<string>)
    requires Shrinks(rd)
    ensures Scan(o, rd, ["--"] + tail, "")
            == Some(if o == Permute then Outcome([], ["--"], tail, []) else Outcome([], ["--"], [], tail))
    ensures Scan(o, rd, [], "") == Some(Outcome([], [], [], []))
  {
    assert (["--"] + tail)[1..] == tail;
  }

  // What an element is
  lemma KindsOfElements(c: char, text: string)
    ensures IsNonOption("") && IsNonOption("-") && IsNonOption([c] + text) == (c != '-' || text == "")
  {
  }

  // The start of the option string, and the environment, choose what becomes of them
  lemma StartChooses(s: string, posixlyCorrect: bool, cfg: Config)
    ensures OrderingOf("-" + s, posixlyCorrect) == ReturnInOrder
    ensures OrderingOf("+" + s, posixlyCorrect) == RequireOrder
    ensures !("-" <= s) && !("+" <= s) ==>
              OrderingOf(s, posixlyCorrect) == if posixlyCorrect then RequireOrder else Permute
    ensures WithoutMark(cfg.(optstring := "-" + s)) == cfg.(optstring := s)
    ensures WithoutMark(cfg.(optstring := "+" + s)) == cfg.(optstring := s)
    ensures !("-" <= s) && !("+" <= s) ==> WithoutMark(cfg.(optstring := s)) == cfg.(optstring := s)
  {
    assert ("-" + s)[1..] == s && ("+" + s)[1..] == s;
  }

  // One dash may introduce a long option where the caller allows it
  lemma OneDashIsEnough(cfg: Config, rd: Reader, name: string, i: nat, arg: Option<string>, tail: seq<string>)
    requires Realizes(cfg, rd) && Selects(cfg, name, i) && cfg.longOnly && name[0] != '-'
    requires |name| > 1 || arg.Some? || name[0] !in cfg.optstring
    requires cfg.longopts.value[i].hasArg != if arg.None? then RequiredArgument else NoArgument
    ensures var elem := "-" + (name + if arg.None? then "" else "=" + arg.value);
            Scan(Permute, rd, [elem] + tail, "")
            == Prefixed([LongEvent(cfg.longopts.value[i], i, arg)], [elem], [], Scan(Permute, rd, tail, ""))
  {
    hide Decode, DecodeFound, LongEvent, Scan, LongMatch;
    var value := if arg.None? then "" else "=" + arg.value;
    var elem, next := "-" + (name + value), name + value;
    assert elem[1..] == next && elem[1] == name[0];
    DecodesOneDash(cfg, name, i, value, tail);
    FoundIsSeen(cfg, cfg.longopts.value[i], i, arg, tail);
    ScanOne(rd, elem, "", tail, LongEvent(cfg.longopts.value[i], i, arg));
  }

  lemma DecodesOneDash(cfg: Config, name: string, i: nat, value: string, following: seq<string>)
    requires WNeedsLongopts(cfg) && Selects(cfg, name, i) && cfg.longOnly && (value == "" || value[0] == '=')
    requires |name + value| > 1 || name[0] !in cfg.optstring
    ensures Decode(cfg, "-" + (name + value), name + value, following)
            == DecodeFound(cfg, cfg.longopts.value[i], i, None, value, following, 1, Some(cfg.longopts.value[i].val))
  {
    hide LongMatch, DecodeFound;
    UpToEqStops(name, value);
    assert (name + value)[|name|..] == value;
  }

  // Where an element is read as letters: without long options, behind one dash, or, if
  // one dash may be enough, as a single listed letter or where no name fits
  lemma ReadAsLetters(cfg: Config, elem: string, next: string)
    requires |elem| >= 2 && next != "" && elem[0] == '-' && elem[1] != '-'
    ensures cfg.longopts.None? || !cfg.longOnly || (|elem| == 2 && elem[1] in cfg.optstring) ==>
              !ReadsLong(cfg, elem, next)
    ensures cfg.longopts.Some? && next[0] in cfg.optstring
            && (forall i :: 0 <= i < |cfg.longopts.value| ==> !(UpToEq(next) <= cfg.longopts.value[i].name)) ==>
              !ReadsLong(cfg, elem, next)
  {
    hide LongMatch;
    if cfg.longopts.Some? {
      LongMatchIsMatch(cfg.longopts.value, UpToEq(next));
    }
  }

  // Behind two dashes it is read as a name
  lemma ReadAsName(cfg: Config, elem: string, next: string)
    requires |elem| >= 2 && next != "" && elem[..2] == "--"
    ensures ReadsLong(cfg, elem, next) <==> cfg.longopts.Some?
  {
    hide LongMatch;
    assert elem[1] == elem[..2][1];
  }

  // An option without an argument or a flag, as sitecopy has them
  lemma UpdateIsSeen(cfg: Config, rd: Reader, i: nat)
    requires Realizes(cfg, rd) && cfg.longopts.Some? && i < |cfg.longopts.value|
    requires cfg.longopts.value[i] == LongOption("update", NoArgument, false, 'u' as int)
    requires forall j :: 0 <= j < |cfg.longopts.value| && j != i ==> cfg.longopts.value[j].name != "update"
    ensures Scan(Permute, rd, ["--update"], "")
            == Some(Outcome([Event('u' as int, None, None, Some(i), None)], ["--update"], [], []))
  {
    hide LongMatch, DecodeFound, Decode;
    LongMatchIsMatch(cfg.longopts.value, "update");
    assert "--update" == "--" + ("update" + "");
    DecodesLong(cfg, "update", i, "", []);
    LeadOfLong("update", "");
    FoundIsSeen(cfg, cfg.longopts.value[i], i, None, []);
    LastOne(rd, "--update", Event('u' as int, None, None, Some(i), None));
  }
}
