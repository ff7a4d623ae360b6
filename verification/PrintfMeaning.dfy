// What the formatter produces, read off the pieces of the format.
module PrintfMeaning {
  import opened Words
  import opened Sequences
  import opened PrintfGrammar
  import opened PrintfArgs
  import opened PrintfParse
  import opened Vasnprintf

  // Each piece in turn: its own text, or the text of the next directive
  ghost function Spoken(r: Renderer, pieces: seq<Piece>, entries: seq<Entry>, types: seq<ArgType>, k: nat): string {
    if pieces == [] then ""
    else
      match pieces[0]
      case Literal(text) => text + Spoken(r, pieces[1..], entries, types, k)
      case Directive(_) =>
        (if k < |entries| then DirText(r, types, entries[k]) else "") + Spoken(r, pieces[1..], entries, types, k + 1)
  }

  // The output from a place in the format on, before directive k
  function OutputFrom(r: Renderer, format: string, entries: seq<Entry>, types: seq<ArgType>, at: nat, k: nat): string
    requires k <= |entries|
    decreases |entries| - k
  {
    Between(format, at, StartOf(format, entries, k))
    + if k == |entries| then ""
      else DirText(r, types, entries[k]) + OutputFrom(r, format, entries, types, entries[k].end, k + 1)
  }

  lemma {:induction false} OutputSplits(r: Renderer, format: string, entries: seq<Entry>, types: seq<ArgType>, k: nat)
    requires k <= |entries|
    ensures Output(r, format, entries, types)
            == Produced(r, format, entries, types, k) + OutputFrom(r, format, entries, types, EndOf(entries, k), k)
    decreases |entries| - k
  {
    hide DirText, Between, StartOf;
    var before, literal := Produced(r, format, entries, types, k), LiteralAt(format, entries, k);
    if k < |entries| {
      OutputSplits(r, format, entries, types, k + 1);
      var text := DirText(r, types, entries[k]);
      var more := OutputFrom(r, format, entries, types, entries[k].end, k + 1);
      assert (before + literal + text) + more == before + (literal + (text + more));
    } else {
      assert before + (literal + "") == before + literal;
    }
  }

  // The directives still to be numbered start at or after 'at'
  lemma {:induction false} NumberedBehind(pieces: seq<Piece>, at: nat, st: State)
    requires PiecesOk(pieces) && RoomOk(st) && NumberAll(pieces, at, st).Some?
    ensures var st' := NumberAll(pieces, at, st).value;
            && |st.entries| <= |st'.entries| && st'.entries[..|st.entries|] == st.entries
            && (|st.entries| < |st'.entries| ==> st'.entries[|st.entries|].start >= at)
  {
    hide AddDir, DirOk, PieceText;
    if pieces != [] {
      var end := at + |PieceText(pieces[0])|;
      match pieces[0]
      case Literal(_) =>
        NumberedBehind(pieces[1..], end, st);
      case Directive(d) =>
        AddDirAdds(st, at, end, d);
        var st1 := AddDir(st, at, end, d).value;
        NumberedBehind(pieces[1..], end, st1);
        var st' := NumberAll(pieces, at, st).value;
        assert st'.entries[..|st1.entries|][..|st.entries|] == st'.entries[..|st.entries|];
        assert st'.entries[|st.entries|] == st'.entries[..|st1.entries|][|st.entries|];
    }
  }

  lemma BetweenSplits(s: string, from: nat, mid: nat, to: nat)
    requires from <= mid <= to <= |s|
    ensures Between(s, from, to) == Between(s, from, mid) + Between(s, mid, to)
  {
  }

  // Reading off from 'at', where the rest of the format is the text of 'pieces'
  ghost predicate Reads(format: string, pieces: seq<Piece>, at: nat, st: State, final: State) {
    && PiecesOk(pieces) && RoomOk(st) && at <= |format| && format[at..] == Written(pieces)
    && NumberAll(pieces, at, st) == Some(final) && StartsInside(format, final.entries)
  }

  // Directives lie inside the format
  ghost predicate StartsInside(format: string, entries: seq<Entry>) {
    forall i :: 0 <= i < |entries| ==> entries[i].start <= |format|
  }

  lemma ReadsOn(format: string, pieces: seq<Piece>, at: nat, st: State, final: State)
    requires Reads(format, pieces, at, st, final) && pieces != []
    ensures var text := PieceText(pieces[0]);
            && at + |text| <= |format| && format[at..at + |text|] == text
            && (pieces[0].Literal? ==> Reads(format, pieces[1..], at + |text|, st, final))
            && (pieces[0].Directive? ==>
                  var d := pieces[0].d;
                  DirOk(d) && AddDir(st, at, at + |text|, d).Some?
                  && Reads(format, pieces[1..], at + |text|, AddDir(st, at, at + |text|, d).value, final))
  {
    hide AddDir, DirOk, PieceText;
    SplitAt(format, at, PieceText(pieces[0]), Written(pieces[1..]));
  }

  // Passing literal text
  lemma OutputLiteral(r: Renderer, format: string, entries: seq<Entry>, types: seq<ArgType>, at: nat, mid: nat, k: nat)
    requires k <= |entries| && at <= mid <= StartOf(format, entries, k) <= |format|
    ensures OutputFrom(r, format, entries, types, at, k) == format[at..mid]
        + OutputFrom(r, format, entries, types, mid, k)
  {
    hide DirText, StartOf;
    BetweenSplits(format, at, mid, StartOf(format, entries, k));
    var more := if k == |entries| then ""
                else DirText(r, types, entries[k]) + OutputFrom(r, format, entries, types, entries[k].end, k + 1);
    Associate(Between(format, at, mid), Between(format, mid, StartOf(format, entries, k)), more);
  }

  // Passing a directive
  lemma OutputDirective(r: Renderer, format: string, entries: seq<Entry>, types: seq<ArgType>, k: nat)
    requires k < |entries|
    ensures OutputFrom(r, format, entries, types, entries[k].start, k)
            == DirText(r, types, entries[k]) + OutputFrom(r, format, entries, types, entries[k].end, k + 1)
  {
    hide DirText;
  }

  lemma {:induction false} SpokenIsOutput(r: Renderer, format: string, pieces: seq<Piece>, at: nat, st: State,
                                          final: State)
    requires Reads(format, pieces, at, st, final)
    ensures |st.entries| <= |final.entries|
    ensures OutputFrom(r, format, final.entries, final.args.types, at, |st.entries|)
            == Spoken(r, pieces, final.entries, final.args.types, |st.entries|)
    decreases |pieces|
  {
    hide AddDir, DirOk, DirText, PieceText;
    NextStarts(format, pieces, at, st, final);
    var entries, types, k := final.entries, final.args.types, |st.entries|;
    if pieces == [] {
      assert OutputFrom(r, format, entries, types, at, k) == "";
    } else {
      hide OutputFrom, NumberAll, Written, StartsInside, RoomOk, Reads;
      ReadsOn(format, pieces, at, st, final);
      var end := at + |PieceText(pieces[0])|;
      match pieces[0]
      case Literal(t) =>
        LiteralText(t);
        SpokenIsOutput(r, format, pieces[1..], end, st, final);
        NextStarts(format, pieces[1..], end, st, final);
        OutputLiteral(r, format, entries, types, at, end, k);
      case Directive(d) =>
        var st1 := AddDir(st, at, end, d).value;
        SpokenIsOutput(r, format, pieces[1..], end, st1, final);
        NextEntry(format, pieces, at, st, final);
        OutputDirective(r, format, entries, types, k);
    }
  }

  lemma NextStarts(format: string, pieces: seq<Piece>, at: nat, st: State, final: State)
    requires Reads(format, pieces, at, st, final)
    ensures |st.entries| <= |final.entries| && at <= StartOf(format, final.entries, |st.entries|) <= |format|
  {
    hide AddDir, DirOk, PieceText, NumberAll, Written;
    NumberedBehind(pieces, at, st);
  }

  lemma NextEntry(format: string, pieces: seq<Piece>, at: nat, st: State, final: State)
    requires Reads(format, pieces, at, st, final) && pieces != [] && pieces[0].Directive?
    ensures var end, k := at + |PieceText(pieces[0])|, |st.entries|;
            && AddDir(st, at, end, pieces[0].d).Some? && |AddDir(st, at, end, pieces[0].d).value.entries| == k + 1
            && k < |final.entries| && final.entries[k].start == at && final.entries[k].end == end
            && final.entries[k].conversion == Conversion(pieces[0].d.conv)
  {
    hide AddDir, DirOk, PieceText, Written, Covers, Extends, Refers, FlagSet, ShortText, ShortPrecision;
    var d, end := pieces[0].d, at + |PieceText(pieces[0])|;
    AddDirAdds(st, at, end, d);
    var st1 := AddDir(st, at, end, d).value;
    NumberedBehind(pieces[1..], end, st1);
    assert final.entries[|st.entries|] == final.entries[..|st1.entries|][|st.entries|] == st1.entries[|st.entries|];
  }

  lemma LiteralText(t: string)
    ensures PieceText(Literal(t)) == t
  {
  }

  lemma {:induction false} NumberedInside(format: string, pieces: seq<Piece>, at: nat, st: State)
    requires PiecesOk(pieces) && RoomOk(st) && at + |Written(pieces)| <= |format| && NumberAll(pieces, at, st).Some?
    requires StartsInside(format, st.entries)
    ensures StartsInside(format, NumberAll(pieces, at, st).value.entries)
    decreases |pieces|
  {
    hide AddDir, DirOk, PieceText, Agrees, Extends, Covers;
    if pieces != [] {
      var end := at + |PieceText(pieces[0])|;
      match pieces[0]
      case Literal(_) =>
        NumberedInside(format, pieces[1..], end, st);
      case Directive(d) =>
        AddDirAdds(st, at, end, d);
        var st1 := AddDir(st, at, end, d).value;
        forall i | 0 <= i < |st1.entries|
          ensures st1.entries[i].start <= |format|
        {
          assert i < |st.entries| ==> st1.entries[i] == st1.entries[..|st.entries|][i];
        }
        NumberedInside(format, pieces[1..], end, st1);
    }
  }

  // The output of a format is its literal text and the texts of its directives, one
  // piece after the other
  lemma OutputIsSpoken(r: Renderer, pieces: seq<Piece>)
    requires PiecesOk(pieces) && Parse(Written(pieces)).Some?
    ensures var st := Parse(Written(pieces)).value;
            Output(r, Written(pieces), st.entries, st.args.types) == Spoken(r, pieces, st.entries, st.args.types, 0)
  {
    hide ParseFrom, NumberAll;
    var format := Written(pieces);
    ParseIsComplete(pieces, 0, Start());
    assert NumberAll(pieces, 0, Start()) == Parse(format);
    NumberedInside(format, pieces, 0, Start());
    assert format[0..] == format;
    var st := Parse(format).value;
    SpokenIsOutput(r, format, pieces, 0, Start(), st);
    OutputSplits(r, format, st.entries, st.args.types, 0);
    assert "" + OutputFrom(r, format, st.entries, st.args.types, 0, 0)
        == OutputFrom(r, format, st.entries, st.args.types, 0, 0);
  }

  // A percent sign stands for itself, and %n for nothing
  lemma TextsOfSpecials(r: Renderer, types: seq<ArgType>, e: Entry)
    ensures e.conversion == '%' ==> DirText(r, types, e) == "%" && HasText(r, types, e)
    ensures e.conversion == 'n' ==> DirText(r, types, e) == "" && HasText(r, types, e)
  {
  }

  // ---------------------------------------------------------------
  // What %n stores: the length of all that is spoken before it

  function SpokenCounts(r: Renderer, pieces: seq<Piece>, entries: seq<Entry>, types: seq<ArgType>, k: nat, before: nat)
    : seq<(nat, nat)>
  {
    if pieces == [] then []
    else
      match pieces[0]
      case Literal(text) => SpokenCounts(r, pieces[1..], entries, types, k, before + |text|)
      case Directive(d) =>
        var text := if k < |entries| then DirText(r, types, entries[k]) else "";
        var arg := if k < |entries| then entries[k].arg.GetOr(0) else 0;
        (if d.conv == 'n' then [(arg, before)] else [])
        + SpokenCounts(r, pieces[1..], entries, types, k + 1, before + |text|)
  }

  // The counts from a place in the format on
  function CountsFrom(r: Renderer, format: string, entries: seq<Entry>, types: seq<ArgType>, at: nat, k: nat,
                      before: nat): seq<(nat, nat)>
    requires k <= |entries|
    decreases |entries| - k
  {
    if k == |entries| then []
    else
      var here := before + |Between(format, at, entries[k].start)|;
      (if entries[k].conversion == 'n' then [(entries[k].arg.GetOr(0), here)] else [])
      + CountsFrom(r, format, entries, types, entries[k].end, k + 1, here + |DirText(r, types, entries[k])|)
  }

  lemma {:induction false} CountsSplit(r: Renderer, format: string, entries: seq<Entry>, types: seq<ArgType>, k: nat)
    requires k <= |entries|
    ensures Counts(r, format, entries, types, |entries|)
            == Counts(r, format, entries, types, k)
               + CountsFrom(r, format, entries, types, EndOf(entries, k), k, |Produced(r, format, entries, types, k)|)
    decreases |entries| - k
  {
    hide DirText, Between;
    if k < |entries| {
      CountsSplit(r, format, entries, types, k + 1);
      var done := Counts(r, format, entries, types, k);
      var length: nat := |Produced(r, format, entries, types, k) + LiteralAt(format, entries, k)|;
      var here: seq<(nat, nat)> := if entries[k].conversion != 'n' then [] else [(entries[k].arg.GetOr(0), length)];
      assert Counts(r, format, entries, types, k + 1) == done + here;
      var more := CountsFrom(r, format, entries, types, entries[k].end, k + 1,
                             |Produced(r, format, entries, types, k + 1)|);
      assert (done + here) + more == done + (here + more);
    } else {
      assert Counts(r, format, entries, types, k) + [] == Counts(r, format, entries, types, k);
    }
  }

  lemma CountsLiteral(r: Renderer, format: string, entries: seq<Entry>, types: seq<ArgType>, at: nat, mid: nat, k: nat,
                      before: nat)
    requires k <= |entries| && at <= mid <= StartOf(format, entries, k) <= |format|
    ensures CountsFrom(r, format, entries, types, at, k, before)
            == CountsFrom(r, format, entries, types, mid, k, before + (mid - at))
  {
    hide DirText;
    if k < |entries| {
      BetweenSplits(format, at, mid, entries[k].start);
    }
  }

  lemma CountsDirective(r: Renderer, format: string, entries: seq<Entry>, types: seq<ArgType>, k: nat, before: nat)
    requires k < |entries|
    ensures CountsFrom(r, format, entries, types, entries[k].start, k, before)
            == (if entries[k].conversion == 'n' then [(entries[k].arg.GetOr(0), before)] else [])
               + CountsFrom(r, format, entries, types, entries[k].end, k + 1, before + |DirText(r, types, entries[k])|)
  {
    hide DirText;
  }

  lemma {:induction false} SpokenIsCounted(r: Renderer, format: string, pieces: seq<Piece>, at: nat, st: State,
                                           final: State, before: nat)
    requires Reads(format, pieces, at, st, final)
    ensures |st.entries| <= |final.entries|
    ensures CountsFrom(r, format, final.entries, final.args.types, at, |st.entries|, before)
            == SpokenCounts(r, pieces, final.entries, final.args.types, |st.entries|, before)
    decreases |pieces|
  {
    hide AddDir, DirOk, DirText, PieceText;
    NextStarts(format, pieces, at, st, final);
    var entries, types, k := final.entries, final.args.types, |st.entries|;
    if pieces != [] {
      hide CountsFrom, NumberAll, Written, StartsInside, RoomOk, Reads;
      ReadsOn(format, pieces, at, st, final);
      var end := at + |PieceText(pieces[0])|;
      match pieces[0]
      case Literal(t) =>
        LiteralText(t);
        SpokenIsCounted(r, format, pieces[1..], end, st, final, before + |t|);
        NextStarts(format, pieces[1..], end, st, final);
        CountsLiteral(r, format, entries, types, at, end, k, before);
      case Directive(d) =>
        var st1 := AddDir(st, at, end, d).value;
        NextEntry(format, pieces, at, st, final);
        assert entries[k].conversion == 'n' <==> d.conv == 'n';
        SpokenIsCounted(r, format, pieces[1..], end, st1, final, before + |DirText(r, types, entries[k])|);
        CountsDirective(r, format, entries, types, k, before);
    }
  }

  // Each %n stores the length of what is spoken before it
  lemma CountsAreSpoken(r: Renderer, pieces: seq<Piece>)
    requires PiecesOk(pieces) && Parse(Written(pieces)).Some?
    ensures var st := Parse(Written(pieces)).value;
            Counts(r, Written(pieces), st.entries, st.args.types, |st.entries|)
            == SpokenCounts(r, pieces, st.entries, st.args.types, 0, 0)
  {
    hide ParseFrom, NumberAll;
    var format := Written(pieces);
    ParseIsComplete(pieces, 0, Start());
    assert NumberAll(pieces, 0, Start()) == Parse(format);
    NumberedInside(format, pieces, 0, Start());
    assert format[0..] == format;
    var st := Parse(format).value;
    SpokenIsCounted(r, format, pieces, 0, Start(), st, 0);
    CountsSplit(r, format, st.entries, st.args.types, 0);
  }
}
