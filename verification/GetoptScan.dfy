// What getopt finds in an argument list (lib/getopt.c), as a scanner that reads the
// list from front to back and moves nothing.
module GetoptScan {
  import opened Words

  datatype HasArg = NoArgument | RequiredArgument | OptionalArgument

  datatype LongOption = LongOption(name: string, hasArg: HasArg, flag: bool, val: int)

  datatype Config = Config(optstring: string, longopts: Option<seq<LongOption>>, longOnly: bool)

  // What a call returns: its value, optarg, the value stored in optopt if any, the
  // index of the long option, and the value stored through its flag
  datatype Event = Event(ret: int, optarg: Option<string>, optopt: Option<int>, longind: Option<nat>,
                         stored: Option<int>)

  const QUESTION: int := '?' as int
  const COLON: int := ':' as int

  function Plain(ret: int, optarg: Option<string>): Event {
    Event(ret, optarg, None, None, None)
  }

  function Bad(ret: int, optarg: Option<string>, optopt: int): Event {
    Event(ret, optarg, Some(optopt), None, None)
  }

  function Recognized(o: LongOption, i: nat, optarg: Option<string>): Event {
    if o.flag then Event(0, optarg, None, Some(i), Some(o.val)) else Event(o.val, optarg, None, Some(i), None)
  }

  // The answer to a missing argument
  function Missing(cfg: Config): int {
    if cfg.optstring != "" && cfg.optstring[0] == ':' then COLON else QUESTION
  }

  // my_index: the rest of the string from a character on
  function Index(s: string, c: char): (r: string)
    ensures r == "" || r[0] == c
    ensures r == "" <==> c !in s
  {
    if s == "" then "" else if s[0] == c then s else Index(s[1..], c)
  }

  function UpToEq(s: string): (r: string)
    ensures r <= s && '=' !in r
    ensures r == s || s[|r|] == '='
  {
    if s == "" || s[0] == '=' then "" else [s[0]] + UpToEq(s[1..])
  }

  // ---------------------------------------------------------------
  // Long options

  datatype Match = NoMatch | Ambiguous | Found(i: nat)

  // The indices whose names start with 'name', in order
  function Candidates(opts: seq<LongOption>, name: string): (r: seq<nat>)
    ensures forall i :: i in r <==> 0 <= i < |opts| && name <= opts[i].name
  {
    if opts == [] then []
    else
      var n := |opts| - 1;
      Candidates(opts[..n], name) + if name <= opts[n].name then [n] else []
  }

  // The first index with exactly this name
  function Exact(opts: seq<LongOption>, name: string): (r: Option<nat>)
    ensures r.Some? ==> r.value < |opts| && opts[r.value].name == name
    ensures r.Some? ==> forall i :: 0 <= i < r.value ==> opts[i].name != name
    ensures r.None? ==> forall i :: 0 <= i < |opts| ==> opts[i].name != name
  {
    if opts == [] then None
    else
      var n := |opts| - 1;
      var before := Exact(opts[..n], name);
      if before.Some? then before else if opts[n].name == name then Some(n) else None
  }

  // An exact name wins; otherwise the abbreviation must be unique
  function LongMatch(opts: seq<LongOption>, name: string): (m: Match)
    ensures m.Found? ==> m.i < |opts| && name <= opts[m.i].name
  {
    match Exact(opts, name)
    case Some(i) => Found(i)
    case None =>
      var c := Candidates(opts, name);
      if |c| == 0 then NoMatch
      else if |c| == 1 then
        assert c[0] in c;
        Found(c[0])
      else Ambiguous
  }

  // What the match has to be: the first exact name, or else the only abbreviated one
  ghost predicate IsMatch(opts: seq<LongOption>, name: string, m: Match) {
    var exact := exists i :: 0 <= i < |opts| && opts[i].name == name;
    match m
    case NoMatch => forall i :: 0 <= i < |opts| ==> !(name <= opts[i].name)
    case Ambiguous => !exact && exists i, j :: 0 <= i < j < |opts| && name <= opts[i].name && name <= opts[j].name
    case Found(k) =>
      && k < |opts| && name <= opts[k].name
      && if exact then opts[k].name == name && forall i :: 0 <= i < k ==> opts[i].name != name
         else forall i :: 0 <= i < |opts| && i != k ==> !(name <= opts[i].name)
  }

  ghost predicate Ascends(c: seq<nat>) {
    forall i, j :: 0 <= i < j < |c| ==> c[i] < c[j]
  }

  lemma {:induction false} CandidatesAscend(opts: seq<LongOption>, name: string)
    ensures Ascends(Candidates(opts, name))
  {
    if opts != [] {
      var n := |opts| - 1;
      CandidatesAscend(opts[..n], name);
      var before := Candidates(opts[..n], name);
      forall i | 0 <= i < |before|
        ensures before[i] < n
      {
        assert before[i] in before;
      }
      assert Ascends(before + [n]);
    }
  }

  lemma MatchIsUnique(opts: seq<LongOption>, name: string, m: Match, m': Match)
    requires IsMatch(opts, name, m) && IsMatch(opts, name, m')
    ensures m == m'
  {
    if m.Found? && m'.Found? {
      assert m.i == m'.i;
    }
  }

  lemma LongMatchIsMatch(opts: seq<LongOption>, name: string)
    ensures IsMatch(opts, name, LongMatch(opts, name))
  {
    hide Exact, Candidates;
    var c := Candidates(opts, name);
    CandidatesAscend(opts, name);
    if |c| > 0 {
      assert c[0] in c;
    }
    if |c| > 1 {
      assert c[1] in c && c[0] < c[1];
    } else {
      assert forall i :: i in c ==> i == c[0];
    }
  }

  lemma LongMatchIsRight(opts: seq<LongOption>, name: string, m: Match)
    ensures m == LongMatch(opts, name) <==> IsMatch(opts, name, m)
  {
    hide LongMatch, IsMatch;
    LongMatchIsMatch(opts, name);
    if IsMatch(opts, name, m) {
      MatchIsUnique(opts, name, m, LongMatch(opts, name));
    }
  }

  // What one call decodes: the event, what is left of the element, and the number of
  // elements done with
  datatype Decoded = Decoded(event: Event, left: string, taken: nat)

  // An option matched by name, with '=value' or the elements that follow; 'done'
  // elements are behind, 'bad' is stored in optopt on error
  function DecodeFound(cfg: Config, o: LongOption, i: nat, optarg: Option<string>, value: string,
                       following: seq<string>, done: nat, bad: Option<int>): Decoded
  {
    if value != "" then
      if o.hasArg != NoArgument then Decoded(Recognized(o, i, Some(value[1..])), "", done)
      else Decoded(Event(QUESTION, optarg, bad, None, None), "", done)
    else if o.hasArg == RequiredArgument then
      if following == [] then Decoded(Event(Missing(cfg), optarg, bad, None, None), "", done)
      else Decoded(Recognized(o, i, Some(following[0])), "", done + 1)
    else Decoded(Recognized(o, i, optarg), "", done)
  }

  // Whether an element is looked up among the long options
  predicate LooksLong(cfg: Config, elem: string)
    requires |elem| >= 2
  {
    cfg.longopts.Some? && (elem[1] == '-' || (cfg.longOnly && (|elem| > 2 || elem[1] !in cfg.optstring)))
  }

  // The rest of an element as a long option; None if it is to be read as short ones
  function DecodeLong(cfg: Config, elem: string, next: string, following: seq<string>): Option<Decoded>
    requires |elem| >= 2 && LooksLong(cfg, elem) && next != ""
  {
    var name := UpToEq(next);
    match LongMatch(cfg.longopts.value, name)
    case Ambiguous => Some(Decoded(Bad(QUESTION, None, 0), "", 1))
    case Found(i) =>
      var o := cfg.longopts.value[i];
      Some(DecodeFound(cfg, o, i, None, next[|name|..], following, 1, Some(o.val)))
    case NoMatch =>
      if !cfg.longOnly || elem[1] == '-' || next[0] !in cfg.optstring then Some(Decoded(Bad(QUESTION, None, 0), "", 1))
      else None
  }

  // The argument of -W, read as the name of a long option.  An ambiguous name skips
  // one element more than it uses.
  function DecodeNamed(cfg: Config, optarg: string, following: seq<string>, done: nat): Decoded
    requires cfg.longopts.Some?
  {
    var name := UpToEq(optarg);
    match LongMatch(cfg.longopts.value, name)
    case Ambiguous => Decoded(Plain(QUESTION, Some(optarg)), "", done + 1)
    case Found(i) => DecodeFound(cfg, cfg.longopts.value[i], i, Some(optarg), optarg[|name|..], following, done, None)
    case NoMatch => Decoded(Plain('W' as int, Some(optarg)), "", done)
  }

  // An option of the form -W foo, read as --foo
  function DecodeW(cfg: Config, rest: string, following: seq<string>): Decoded
    requires cfg.longopts.Some?
  {
    if rest != "" then DecodeNamed(cfg, rest, following, 1)
    else if following == [] then Decoded(Bad(Missing(cfg), None, 'W' as int), "", 1)
    else DecodeNamed(cfg, following[0], following[1..], 2)
  }

  // The next option character
  function DecodeShort(cfg: Config, next: string, following: seq<string>): (d: Decoded)
    requires next != "" && WNeedsLongopts(cfg)
    ensures |d.left| < |next| && (d.left == "" <==> d.taken > 0)
  {
    var c, rest := next[0], next[1..];
    var done := if rest == "" then 1 else 0;
    var temp := Index(cfg.optstring, c);
    if temp == "" || c == ':' then Decoded(Bad(QUESTION, None, c as int), rest, done)
    else if c == 'W' && |temp| > 1 && temp[1] == ';' then DecodeW(cfg, rest, following)
    else if |temp| > 1 && temp[1] == ':' then
      if rest != "" then Decoded(Plain(c as int, Some(rest)), "", 1)
      else if |temp| > 2 && temp[2] == ':' then Decoded(Plain(c as int, None), "", 1)
      else if following == [] then Decoded(Bad(Missing(cfg), None, c as int), "", 1)
      else Decoded(Plain(c as int, Some(following[0])), "", 2)
    else Decoded(Plain(c as int, None), rest, done)
  }

  // What the option string says of a character
  function After(cfg: Config, c: char): string {
    var temp := Index(cfg.optstring, c);
    if temp == "" then "" else temp[1..]
  }

  predicate IsOptionChar(cfg: Config, c: char) {
    c in cfg.optstring && c != ':'
  }

  predicate TakesNone(cfg: Config, c: char) {
    IsOptionChar(cfg, c) && !(":" <= After(cfg, c)) && !(c == 'W' && ";" <= After(cfg, c))
  }

  predicate TakesArgument(cfg: Config, c: char) {
    IsOptionChar(cfg, c) && ":" <= After(cfg, c)
  }

  predicate NeedsArgument(cfg: Config, c: char) {
    TakesArgument(cfg, c) && !("::" <= After(cfg, c))
  }

  // The caller gives long options if it lists 'W;'
  predicate WNeedsLongopts(cfg: Config) {
    cfg.longopts.Some? || !Lists(cfg.optstring, 'W', ';')
  }

  predicate Lists(optstring: string, c: char, mark: char) {
    var temp := Index(optstring, c);
    |temp| > 1 && temp[1] == mark
  }

  predicate IsW(cfg: Config, next: string) {
    next != "" && next[0] == 'W' && Lists(cfg.optstring, 'W', ';')
  }

  // The name after -W, if there is one
  function NameAfterW(next: string, following: seq<string>): Option<string>
    requires next != ""
  {
    if |next| > 1 then Some(next[1..]) else if following != [] then Some(following[0]) else None
  }

  // A -W with an argument that abbreviates several names
  predicate AmbiguousW(cfg: Config, next: string, following: seq<string>)
    requires next != "" && WNeedsLongopts(cfg)
  {
    && IsW(cfg, next)
    && var name := NameAfterW(next, following);
       name.Some? && LongMatch(cfg.longopts.value, UpToEq(name.value)) == Ambiguous
  }

  // Whether what is left of an element is read as a long option
  predicate ReadsLong(cfg: Config, elem: string, next: string)
    requires |elem| >= 2 && next != ""
  {
    && LooksLong(cfg, elem)
    && (LongMatch(cfg.longopts.value, UpToEq(next)) != NoMatch || !cfg.longOnly || elem[1] == '-'
        || next[0] !in cfg.optstring)
  }

  function Decode(cfg: Config, elem: string, next: string, following: seq<string>): (d: Decoded)
    requires |elem| >= 2 && next != "" && WNeedsLongopts(cfg)
    ensures |d.left| < |next| && (d.left == "" <==> d.taken > 0)
  {
    if LooksLong(cfg, elem) then DecodeLong(cfg, elem, next, following).GetOr(DecodeShort(cfg, next, following))
    else DecodeShort(cfg, next, following)
  }

  // ---------------------------------------------------------------
  // Scanning, with any decoder of single options

  // Whether '--' is punctuation, and what one call makes of an option element, of what
  // is left of it, and of the elements that follow
  datatype Reader = Reader(longs: bool, decode: (string, string, seq<string>) -> Decoded)

  // Each call uses up part of the element, and is done with it when nothing is left
  ghost predicate Shrinks(rd: Reader) {
    forall elem, next, following ::
      |elem| >= 2 && next != "" ==>
        var d := rd.decode(elem, next, following);
        |d.left| < |next| && (d.left == "" <==> d.taken > 0)
  }

  // The reader is that of getopt
  ghost predicate Realizes(cfg: Config, rd: Reader) {
    && Shrinks(rd) && WNeedsLongopts(cfg) && rd.longs == cfg.longopts.Some?
    && forall elem, next, following {:trigger Decode(cfg, elem, next, following)} ::
         |elem| >= 2 && next != "" ==> rd.decode(elem, next, following) == Decode(cfg, elem, next, following)
  }

  ghost function ReaderOf(cfg: Config): (rd: Reader)
    requires WNeedsLongopts(cfg)
    ensures Realizes(cfg, rd)
  {
    Reader(cfg.longopts.Some?,
           (elem, next, following) => if |elem| >= 2 && next != "" then Decode(cfg, elem, next, following)
                                      else Decoded(Plain(0, None), "", 1))
  }

  datatype Ordering = RequireOrder | Permute | ReturnInOrder

  // How _getopt_initialize reads the start of the option string
  function OrderingOf(optstring: string, posixlyCorrect: bool): Ordering {
    if optstring != "" && optstring[0] == '-' then ReturnInOrder
    else if optstring != "" && optstring[0] == '+' then RequireOrder
    else if posixlyCorrect then RequireOrder
    else Permute
  }

  // The option string without that start.  Only the call that initializes uses it.
  function WithoutMark(cfg: Config): (r: Config)
    ensures WNeedsLongopts(r) == WNeedsLongopts(cfg)
  {
    if cfg.optstring != "" && cfg.optstring[0] in "-+" then cfg.(optstring := cfg.optstring[1..]) else cfg
  }

  predicate IsNonOption(elem: string) {
    elem == "" || elem[0] != '-' || |elem| == 1
  }

  // An option element without its punctuation
  function Lead(longs: bool, elem: string): (next: string)
    requires !IsNonOption(elem)
    ensures |next| < |elem| && (elem != "--" ==> next != "")
  {
    if longs && elem[1] == '-' then elem[2..] else elem[1..]
  }

  // The outcome of one call that starts with 'rest' still to be scanned.  'opts' and
  // 'nons' are the elements passed, options with their arguments and others.
  datatype Step =
    | Stop(opts: seq<string>, nons: seq<string>, rest: seq<string>)
    | Emit(event: Event, opts: seq<string>, nons: seq<string>, rest: seq<string>, next: string)
    | Overrun(event: Event, nons: seq<string>)

  // 'next' is what is left of the first element if it is being read
  predicate MidElement(rest: seq<string>, next: string) {
    next != "" ==> rest != [] && |next| < |rest[0]| && |rest[0]| >= 2
  }

  function EmitDecoded(d: Decoded, rest: seq<string>): Step {
    if d.taken <= |rest| then Emit(d.event, rest[..d.taken], [], rest[d.taken..], d.left) else Overrun(d.event, [])
  }

  function WithNon(elem: string, s: Step): Step {
    match s
    case Stop(opts, nons, rest) => Stop(opts, [elem] + nons, rest)
    case Emit(event, opts, nons, rest, next) => Emit(event, opts, [elem] + nons, rest, next)
    case Overrun(event, nons) => Overrun(event, [elem] + nons)
  }

  ghost function Next(o: Ordering, rd: Reader, rest: seq<string>, next: string): (s: Step)
    requires MidElement(rest, next) && Shrinks(rd)
    ensures s.Emit? ==> MidElement(s.rest, s.next) && |s.rest| <= |rest|
    ensures s.Emit? && |s.rest| == |rest| ==> Left(s.rest, s.next) < Left(rest, next)
    decreases |rest|
  {
    if next != "" then EmitDecoded(rd.decode(rest[0], next, rest[1..]), rest)
    else if rest == [] then Stop([], [], [])
    else if rest[0] == "--" then if o == Permute then Stop(["--"], rest[1..], []) else Stop(["--"], [], rest[1..])
    else if IsNonOption(rest[0]) then
      match o
      case Permute => WithNon(rest[0], Next(o, rd, rest[1..], ""))
      case RequireOrder => Stop([], [], rest)
      case ReturnInOrder => Emit(Plain(1, Some(rest[0])), [rest[0]], [], rest[1..], "")
    else EmitDecoded(rd.decode(rest[0], Lead(rd.longs, rest[0]), rest[1..]), rest)
  }

  function WithNons(nons: seq<string>, s: Step): Step {
    match s
    case Stop(opts, more, rest) => Stop(opts, nons + more, rest)
    case Emit(event, opts, more, rest, next) => Emit(event, opts, nons + more, rest, next)
    case Overrun(event, more) => Overrun(event, nons + more)
  }

  lemma WithNonsNone(s: Step)
    ensures WithNons([], s) == s
  {
  }

  // A call that starts at 'rest' first passes 'nons' and then goes on at rest'
  ghost predicate Skips(rd: Reader, rest: seq<string>, nons: seq<string>, rest': seq<string>) {
    Shrinks(rd) && Next(Permute, rd, rest, "") == WithNons(nons, Next(Permute, rd, rest', ""))
  }

  lemma SkipsNone(rd: Reader, rest: seq<string>)
    requires Shrinks(rd)
    ensures Skips(rd, rest, [], rest)
  {
    WithNonsNone(Next(Permute, rd, rest, ""));
  }

  lemma SkipsMore(rd: Reader, rest: seq<string>, nons: seq<string>, rest': seq<string>)
    requires Skips(rd, rest, nons, rest') && rest' != [] && IsNonOption(rest'[0])
    ensures Skips(rd, rest, nons + [rest'[0]], rest'[1..])
  {
    var s := Next(Permute, rd, rest'[1..], "");
    assert WithNons(nons, WithNon(rest'[0], s)) == WithNons(nons + [rest'[0]], s);
  }

  // Next by the kind of the first element, where no element is to be passed
  lemma NextHere(o: Ordering, rd: Reader, rest: seq<string>)
    requires Shrinks(rd)
    ensures var s := Next(o, rd, rest, "");
            if rest == [] then s == Stop([], [], [])
            else if rest[0] == "--" then s == if o == Permute then Stop(["--"], rest[1..], [])
                else Stop(["--"], [], rest[1..])
            else if IsNonOption(rest[0]) then
              && (o == RequireOrder ==> s == Stop([], [], rest))
              && (o == ReturnInOrder ==> s == Emit(Plain(1, Some(rest[0])), [rest[0]], [], rest[1..], ""))
            else s == EmitDecoded(rd.decode(rest[0], Lead(rd.longs, rest[0]), rest[1..]), rest)
  {
  }

  function Left(rest: seq<string>, next: string): nat {
    if next != "" then |next| else if rest == [] then 0 else |rest[0]|
  }

  // All calls: the events, the options in order, the other elements in order
  datatype Outcome = Outcome(events: seq<Event>, opts: seq<string>, nons: seq<string>, rest: seq<string>)

  // None if a call leaves optind past the end of the list
  ghost function Scan(o: Ordering, rd: Reader, rest: seq<string>, next: string): Option<Outcome>
    requires MidElement(rest, next) && Shrinks(rd)
    decreases |rest|, Left(rest, next)
  {
    match Next(o, rd, rest, next)
    case Stop(opts, nons, rest') => Some(Outcome([], opts, nons, rest'))
    case Overrun(_, _) => None
    case Emit(event, opts, nons, rest', next') =>
      match Scan(o, rd, rest', next')
      case None => None
      case Some(r) => Some(Outcome([event] + r.events, opts + r.opts, nons + r.nons, r.rest))
  }

  // The outcome of more elements behind some that have been passed
  function Prefixed(events: seq<Event>, opts: seq<string>, nons: seq<string>, r: Option<Outcome>): Option<Outcome> {
    match r
    case None => None
    case Some(r) => Some(Outcome(events + r.events, opts + r.opts, nons + r.nons, r.rest))
  }

  lemma PrefixedTwice(a: seq<Event>, b: seq<Event>, opts: seq<string>, r: Option<Outcome>)
    ensures Prefixed(a, [], [], Prefixed(b, opts, [], r)) == Prefixed(a + b, opts, [], r)
  {
    if r.Some? {
      assert a + (b + r.value.events) == (a + b) + r.value.events;
      assert [] + (opts + r.value.opts) == opts + r.value.opts;
      assert [] + ([] + r.value.nons) == [] + r.value.nons;
    }
  }

  lemma ScanOperand(rd: Reader, text: string, tail: seq<string>)
    requires Shrinks(rd) && IsNonOption(text)
    ensures Scan(Permute, rd, [text] + tail, "") == Prefixed([], [], [text], Scan(Permute, rd, tail, ""))
  {
    var rest := [text] + tail;
    assert rest[1..] == tail;
    var s := Next(Permute, rd, tail, "");
    assert Next(Permute, rd, rest, "") == WithNon(text, s);
    if s.Emit? {
      var r := Scan(Permute, rd, s.rest, s.next);
      if r.Some? {
        assert ([text] + s.nons) + r.value.nons == [text] + (s.nons + r.value.nons);
        assert [] + (s.opts + r.value.opts) == s.opts + r.value.opts;
        assert [] + ([s.event] + r.value.events) == [s.event] + r.value.events;
      }
    } else if s.Stop? {
      assert [] + s.opts == s.opts;
      var none: seq<Event> := [];
      assert none + none == none;
    }
  }

  // All calls, where the first reads its option in one way and the others in another
  ghost function ScanFrom(o: Ordering, first: Reader, later: Reader, rest: seq<string>): Option<Outcome>
    requires Shrinks(first) && Shrinks(later)
  {
    match Next(o, first, rest, "")
    case Stop(opts, nons, rest') => Some(Outcome([], opts, nons, rest'))
    case Overrun(_, _) => None
    case Emit(event, opts, nons, rest', next') => Prefixed([event], opts, nons, Scan(o, later, rest', next'))
  }
}
