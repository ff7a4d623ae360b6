// The parser of format strings: PRINTF_PARSE of intl/printf-parse.c.
module PrintfParse {
  import opened Words
  import opened Sequences
  import opened Numerals
  import opened XSize
  import opened PrintfGrammar
  import opened PrintfArgs

  // A parsed directive.  The spans of the width and of the precision are given by
  // their text; the span of the directive by its place in the format.
  datatype Entry = Entry(start: nat, end: nat, flags: set<char>, width: string, widthArg: Option<nat>,
                         precision: string,
                         precisionArg: Option<nat>, conversion: char, arg: Option<nat>)

  function FlagSet(flags: string): set<char> {
    set c | c in flags
  }

  // The text that is copied: a width given by an argument is just '*'
  function ShortText(a: Amount): string {
    match a
    case Absent => ""
    case Number(digits) => digits
    case Star(_) => "*"
  }

  function ShortPrecision(a: Amount): string {
    if a.Absent? then "" else "." + ShortText(a)
  }

  // What the parser has found so far; 'dirs' are the directives as the grammar has them
  datatype State = State(entries: seq<Entry>, dirs: seq<Dir>, args: Args, posn: Size, dirRoom: Size, maxWidth: nat,
                         maxPrecision: nat)

  function Start(): State {
    State([], [], Args([], 0), 0, 1, 0, 0)
  }

  predicate RoomOk(st: State) {
    |st.args.types| <= st.args.room && |st.entries| < st.dirRoom
  }

  // The room for directives after one more
  function GrowDirs(count: nat, dirRoom: Size): Option<Size> {
    if count < dirRoom then Some(dirRoom)
    else if Xtimes(Xtimes(dirRoom, 2), SIZEOF_DIRECTIVE) == SIZE_MAX then None
    else Some(Xtimes(dirRoom, 2))
  }

  // The arguments of a width and of a precision
  datatype Both = Both(widthArg: Option<nat>, precisionArg: Option<nat>, args: Args, posn: Size)

  function TakeBoth(width: Amount, precision: Amount, args: Args, posn: Size): Option<Both>
    requires AmountOk(width) && AmountOk(precision) && |args.types| <= args.room
  {
    match TakeStar(width, args, posn)
    case None => None
    case Some(w) =>
      match TakeStar(precision, w.args, w.posn)
      case None => None
      case Some(p) => Some(Both(w.arg, p.arg, p.args, p.posn))
  }

  // One more directive, from 'start' to 'end'
  function AddDir(st: State, start: nat, end: nat, d: Dir): (r: Option<State>)
    requires RoomOk(st) && DirOk(d)
    ensures r.Some? ==> RoomOk(r.value)
  {
    match TakeBoth(d.width, d.precision, st.args, st.posn)
    case None => None
    case Some(b) =>
      match TakeMain(d.posn, TypeOf(ModifierBits(d.modifiers), d.conv), b.args, b.posn)
      case None => None
      case Some(m) =>
        match GrowDirs(|st.entries| + 1, st.dirRoom)
        case None => None
        case Some(room) =>
          var width, precision := ShortText(d.width), ShortPrecision(d.precision);
          var e := Entry(start, end, FlagSet(d.flags), width, b.widthArg, precision, b.precisionArg,
                         Conversion(d.conv), m.arg);
          Some(State(st.entries + [e], st.dirs + [d], m.args, m.posn, room, Max(st.maxWidth, |width|),
                     Max(st.maxPrecision, |precision|)))
  }

  // The parse of a directive after its '%', which stands at 'start'
  function Step(st: State, s: string, start: nat): (r: Option<(State, string)>)
    requires RoomOk(st)
    ensures r.Some? ==> RoomOk(r.value.0) && |r.value.1| < |s|
  {
    ReadDirIsSound(s);
    match ReadDir(s)
    case Bad => None
    case Good(d, rest) =>
      match AddDir(st, start, start + 1 + (|s| - |rest|), d)
      case None => None
      case Some(st') => Some((st', rest))
  }

  // The rest 's' of a format, which starts at 'at'
  function ParseFrom(s: string, at: nat, st: State): (r: Option<State>)
    requires RoomOk(st)
    ensures r.Some? ==> RoomOk(r.value)
    decreases |s|
  {
    if s == "" then Some(st)
    else if s[0] != '%' then ParseFrom(s[1..], at + 1, st)
    else
      match Step(st, s[1..], at)
      case None => None
      case Some((st', rest)) => ParseFrom(rest, at + (|s| - |rest|), st')
  }

  function Parse(format: string): Option<State> {
    ParseFrom(format, 0, Start())
  }

  // ---------------------------------------------------------------
  // What a successful parse has found

  // The format up to 'at' is directives, in order, and literal text between them
  ghost predicate Decomposes(format: string, at: nat, entries: seq<Entry>, dirs: seq<Dir>)
    decreases |entries|
  {
    && at <= |format| && |entries| == |dirs|
    && if entries == [] then '%' !in format[..at]
       else
         var e, d := entries[|entries| - 1], dirs[|dirs| - 1];
         && e.start < e.end <= at && '%' !in format[e.end..at]
         && DirOk(d) && format[e.start..e.end] == "%" + Text(d)
         && Decomposes(format, e.start, entries[..|entries| - 1], dirs[..|dirs| - 1])
  }

  // An entry agrees with its directive, and refers to arguments of the right types
  ghost predicate Agrees(types: seq<ArgType>, e: Entry, d: Dir) {
    && e.flags == FlagSet(d.flags) && e.width == ShortText(d.width) && e.precision == ShortPrecision(d.precision)
    && e.conversion == Conversion(d.conv)
    && (e.widthArg.Some? <==> d.width.Star?) && (e.widthArg.Some? ==> Refers(types, e.widthArg.value, TInt))
    && (e.precisionArg.Some? <==> d.precision.Star?)
    && (e.precisionArg.Some? ==> Refers(types, e.precisionArg.value, TInt))
    && var t := TypeOf(ModifierBits(d.modifiers), d.conv);
       (e.arg.Some? <==> t != TNone) && (e.arg.Some? ==> Refers(types, e.arg.value, t))
  }

  ghost predicate AllAgree(types: seq<ArgType>, entries: seq<Entry>, dirs: seq<Dir>) {
    |entries| == |dirs| && forall i :: 0 <= i < |entries| ==> Agrees(types, entries[i], dirs[i])
  }

  ghost predicate Covers(st: State) {
    forall i :: 0 <= i < |st.entries| ==>
      |st.entries[i].width| <= st.maxWidth && |st.entries[i].precision| <= st.maxPrecision
  }

  ghost predicate Sound(format: string, at: nat, st: State) {
    && RoomOk(st) && Decomposes(format, at, st.entries, st.dirs)
    && AllAgree(st.args.types, st.entries, st.dirs) && Covers(st)
    && st.maxWidth <= at && st.maxPrecision <= at
  }

  lemma ExtendsTwice(a: seq<ArgType>, b: seq<ArgType>, c: seq<ArgType>)
    requires Extends(a, b) && Extends(b, c)
    ensures Extends(a, c)
  {
  }

  lemma TakeArgKeeps(given: Option<string>, args: Args, posn: Size, t: ArgType)
    requires given.Some? ==> All(IsDigit, given.value)
    requires |args.types| <= args.room && t != TNone && TakeArg(given, args, posn, t).Some?
    ensures var r := TakeArg(given, args, posn, t).value;
            Extends(args.types, r.args.types) && r.arg.Some? && Refers(r.args.types, r.arg.value, t)
  {
    RegisterKeeps(args, if given.Some? then IndexOf(given.value) else posn, t);
  }

  lemma TakeStarKeeps(a: Amount, args: Args, posn: Size)
    requires AmountOk(a) && |args.types| <= args.room && TakeStar(a, args, posn).Some?
    ensures var r := TakeStar(a, args, posn).value;
            && Extends(args.types, r.args.types) && |r.args.types| <= r.args.room
            && (r.arg.Some? <==> a.Star?) && (r.arg.Some? ==> Refers(r.args.types, r.arg.value, TInt))
  {
    if a.Star? {
      TakeArgKeeps(a.posn, args, posn, TInt);
    }
  }

  lemma TakeMainKeeps(given: Option<string>, t: ArgType, args: Args, posn: Size)
    requires PosnOk(given) && |args.types| <= args.room && TakeMain(given, t, args, posn).Some?
    ensures var r := TakeMain(given, t, args, posn).value;
            && Extends(args.types, r.args.types)
            && (r.arg.Some? <==> t != TNone) && (r.arg.Some? ==> Refers(r.args.types, r.arg.value, t))
  {
    if t != TNone {
      TakeArgKeeps(given, args, posn, t);
    }
  }

  lemma AgreesStays(types: seq<ArgType>, types': seq<ArgType>, entries: seq<Entry>, dirs: seq<Dir>)
    requires AllAgree(types, entries, dirs) && Extends(types, types')
    ensures AllAgree(types', entries, dirs)
  {
  }

  // st' is st with one more directive
  ghost predicate Adds(st: State, start: nat, end: nat, d: Dir, st': State) {
    && RoomOk(st') && Extends(st.args.types, st'.args.types)
    && |st'.entries| == |st.entries| + 1 && st'.entries[..|st.entries|] == st.entries
    && st'.dirs == st.dirs + [d]
    && st'.entries[|st.entries|].start == start && st'.entries[|st.entries|].end == end
    && Agrees(st'.args.types, st'.entries[|st.entries|], d)
    && (Covers(st) ==> Covers(st'))
    && st'.maxWidth == Max(st.maxWidth, |ShortText(d.width)|)
    && st'.maxPrecision == Max(st.maxPrecision, |ShortPrecision(d.precision)|)
  }

  lemma AddDirAdds(st: State, start: nat, end: nat, d: Dir)
    requires RoomOk(st) && DirOk(d) && AddDir(st, start, end, d).Some?
    ensures Adds(st, start, end, d, AddDir(st, start, end, d).value)
  {
    hide TakeStar, TakeMain, TypeOf, ModifierBits, ShortText, ShortPrecision, FlagSet, Conversion;
    TakeStarKeeps(d.width, st.args, st.posn);
    var w := TakeStar(d.width, st.args, st.posn).value;
    TakeStarKeeps(d.precision, w.args, w.posn);
    var p := TakeStar(d.precision, w.args, w.posn).value;
    var t := TypeOf(ModifierBits(d.modifiers), d.conv);
    TakeMainKeeps(d.posn, t, p.args, p.posn);
    var m := TakeMain(d.posn, t, p.args, p.posn).value;
    ExtendsTwice(st.args.types, w.args.types, p.args.types);
    ExtendsTwice(st.args.types, p.args.types, m.args.types);
    ExtendsTwice(w.args.types, p.args.types, m.args.types);
  }

  lemma ShortTextFits(d: Dir)
    ensures |ShortText(d.width)| <= |Text(d)| && |ShortPrecision(d.precision)| <= |Text(d)|
  {
  }

  lemma AddDirKeeps(format: string, at: nat, st: State, end: nat, d: Dir, st': State)
    requires Sound(format, at, st) && DirOk(d) && Adds(st, at, end, d, st')
    requires at < end <= |format| && format[at..end] == "%" + Text(d)
    ensures Sound(format, end, st')
  {
    hide Text, Agrees, Covers, ShortText, ShortPrecision;
    ShortTextFits(d);
    assert |"%" + Text(d)| == end - at;
    AgreesStays(st.args.types, st'.args.types, st.entries, st.dirs);
    assert st'.dirs[..|st.dirs|] == st.dirs;
  }

  lemma NoneLonger(format: string, from: nat, at: nat)
    requires from <= at < |format| && format[at] != '%' && '%' !in format[from..at]
    ensures '%' !in format[from..at + 1]
  {
    assert format[from..at + 1] == format[from..at] + [format[at]];
  }

  lemma LiteralKeeps(format: string, at: nat, st: State)
    requires Sound(format, at, st) && at < |format| && format[at] != '%'
    ensures Sound(format, at + 1, st)
  {
    if st.entries == [] {
      assert format[..at] == format[0..at] && format[..at + 1] == format[0..at + 1];
      NoneLonger(format, 0, at);
    } else {
      NoneLonger(format, st.entries[|st.entries| - 1].end, at);
    }
  }

  // The parser's step over a directive
  lemma ParseStep(s: string, at: nat, st: State) returns (d: Dir, rest: string, st': State)
    requires RoomOk(st) && s != "" && s[0] == '%' && ParseFrom(s, at, st).Some?
    ensures DirOk(d) && s == ("%" + Text(d)) + rest && RoomOk(st')
    ensures AddDir(st, at, at + |"%" + Text(d)|, d) == Some(st')
    ensures ParseFrom(s, at, st) == ParseFrom(rest, at + |"%" + Text(d)|, st')
  {
    hide AddDir, ReadDir, Text, DirOk;
    ReadDirIsSound(s[1..]);
    d, rest := ReadDir(s[1..]).value, ReadDir(s[1..]).rest;
    st' := AddDir(st, at, at + (|s| - |rest|), d).value;
    Head(s);
    Associate("%", Text(d), rest);
  }

  lemma ParseStepAdds(s: string, at: nat, st: State) returns (d: Dir, rest: string, st': State)
    requires RoomOk(st) && s != "" && s[0] == '%' && ParseFrom(s, at, st).Some?
    ensures DirOk(d) && s == ("%" + Text(d)) + rest && RoomOk(st')
    ensures Adds(st, at, at + |"%" + Text(d)|, d, st')
    ensures ParseFrom(s, at, st) == ParseFrom(rest, at + |"%" + Text(d)|, st')
  {
    hide AddDir, ReadDir, Text, ParseFrom, DirOk, Adds;
    d, rest, st' := ParseStep(s, at, st);
    AddDirAdds(st, at, at + |"%" + Text(d)|, d);
  }

  lemma SplitAt(format: string, at: nat, text: string, rest: string)
    requires at <= |format| && format[at..] == text + rest
    ensures at + |text| <= |format| && format[at..at + |text|] == text && format[at + |text|..] == rest
  {
    assert format[at..at + |text|] == format[at..][..|text|];
    assert format[at + |text|..] == format[at..][|text|..];
  }

  lemma {:induction false} ParseFromIsSound(format: string, at: nat, st: State)
    requires at <= |format| && RoomOk(st) && Sound(format, at, st) && ParseFrom(format[at..], at, st).Some?
    ensures Sound(format, |format|, ParseFrom(format[at..], at, st).value)
    decreases |format| - at
  {
    hide Sound, AddDir, ReadDir, Text, DirOk, Adds;
    var s := format[at..];
    if s == "" {
    } else if s[0] != '%' {
      assert s[1..] == format[at + 1..];
      LiteralKeeps(format, at, st);
      ParseFromIsSound(format, at + 1, st);
    } else {
      var d, rest, st' := ParseStepAdds(s, at, st);
      SplitAt(format, at, "%" + Text(d), rest);
      AddDirKeeps(format, at, st, at + |"%" + Text(d)|, d, st');
      ParseFromIsSound(format, at + |"%" + Text(d)|, st');
    }
  }

  // A successful parse has cut the format into its directives, agreed on the type of
  // each argument, and bounded the widths and the precisions
  lemma ParseIsSound(format: string)
    requires Parse(format).Some?
    ensures Sound(format, |format|, Parse(format).value)
  {
    assert format[0..] == format;
    ParseFromIsSound(format, 0, Start());
  }

  // ---------------------------------------------------------------
  // Which formats are accepted

  datatype Piece = Literal(text: string) | Directive(d: Dir)

  function PieceText(p: Piece): string {
    match p
    case Literal(text) => text
    case Directive(d) => "%" + Text(d)
  }

  function Written(pieces: seq<Piece>): string {
    if pieces == [] then "" else PieceText(pieces[0]) + Written(pieces[1..])
  }

  ghost predicate PieceOk(p: Piece) {
    match p
    case Literal(text) => '%' !in text
    case Directive(d) => DirOk(d)
  }

  ghost predicate PiecesOk(pieces: seq<Piece>) {
    pieces == [] || (PieceOk(pieces[0]) && PiecesOk(pieces[1..]))
  }

  // Numbering the arguments of the directives, one after the other
  ghost function NumberAll(pieces: seq<Piece>, at: nat, st: State): Option<State>
    requires PiecesOk(pieces) && RoomOk(st)
  {
    if pieces == [] then Some(st)
    else
      var end := at + |PieceText(pieces[0])|;
      match pieces[0]
      case Literal(_) => NumberAll(pieces[1..], end, st)
      case Directive(d) =>
        match AddDir(st, at, end, d)
        case None => None
        case Some(st') => NumberAll(pieces[1..], end, st')
  }

  lemma {:induction false} ParseLiteral(text: string, rest: string, at: nat, st: State)
    requires '%' !in text && RoomOk(st)
    ensures ParseFrom(text + rest, at, st) == ParseFrom(rest, at + |text|, st)
    decreases |text|
  {
    if text == "" {
      assert text + rest == rest;
    } else {
      assert (text + rest)[1..] == text[1..] + rest;
      ParseLiteral(text[1..], rest, at + 1, st);
    }
  }

  // The step over the text of a directive, the other way round
  lemma ParseDirective(d: Dir, rest: string, at: nat, st: State)
    requires DirOk(d) && RoomOk(st)
    ensures var s, r := ("%" + Text(d)) + rest, AddDir(st, at, at + |"%" + Text(d)|, d);
            ParseFrom(s, at, st) == if r.None? then None else ParseFrom(rest, at + |"%" + Text(d)|, r.value)
  {
    hide AddDir, ReadDir, Text, DirOk;
    var s := ("%" + Text(d)) + rest;
    assert s[1..] == Text(d) + rest;
    ReadDirIsComplete(d, rest);
  }

  // Literal text and directives of the grammar, in any order, are parsed as what they
  // are: such a format is refused only for its arguments
  lemma {:induction false} ParseIsComplete(pieces: seq<Piece>, at: nat, st: State)
    requires PiecesOk(pieces) && RoomOk(st)
    ensures ParseFrom(Written(pieces), at, st) == NumberAll(pieces, at, st)
  {
    hide AddDir, ReadDir, Text, DirOk;
    if pieces != [] {
      var rest := Written(pieces[1..]);
      match pieces[0]
      case Literal(text) =>
        ParseLiteral(text, rest, at, st);
        ParseIsComplete(pieces[1..], at + |text|, st);
      case Directive(d) =>
        ParseDirective(d, rest, at, st);
        var end := at + |"%" + Text(d)|;
        if AddDir(st, at, end, d).Some? {
          ParseIsComplete(pieces[1..], end, AddDir(st, at, end, d).value);
        }
    }
  }

  // A format with anything else is refused: whatever is accepted is of that kind
  lemma {:induction false} AcceptedIsWritten(s: string, at: nat, st: State) returns (pieces: seq<Piece>)
    requires RoomOk(st) && ParseFrom(s, at, st).Some?
    ensures PiecesOk(pieces) && Written(pieces) == s
    decreases |s|
  {
    hide AddDir, ReadDir, Text, DirOk, Adds;
    if s == "" {
      pieces := [];
    } else if s[0] != '%' {
      var more := AcceptedIsWritten(s[1..], at + 1, st);
      pieces := [Literal([s[0]])] + more;
      assert pieces[1..] == more;
    } else {
      var d, rest, st' := ParseStepAdds(s, at, st);
      var more := AcceptedIsWritten(rest, at + |"%" + Text(d)|, st');
      pieces := [Directive(d)] + more;
      assert pieces[1..] == more;
    }
  }
}
