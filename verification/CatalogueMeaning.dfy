// What a loaded catalogue answers, read off its entries (intl/loadmsgcat.c,
// intl/dcigettext.c).
module CatalogueMeaning {
  import opened Words
  import opened CStrings
  import opened Catalogue
  import opened SysdepStrings
  import opened LoadedDomain

  // The first entry that is the message, or holds it in front of a NUL, gives the
  // translation; entries of other messages give none
  lemma FirstEntryAnswers(f: File, values: Values, m: string, i: nat)
    requires |f.statics| == |f.translations| && PairsInFile(f.data, f.pairs)
    requires i < |f.statics| + |SysdepOrigs(f, values)| && '\0' !in m
    requires var entry := (f.statics + SysdepOrigs(f, values))[i]; entry == m || m + "\0" <= entry
    requires forall j :: 0 <= j < i ==>
               var entry := (f.statics + SysdepOrigs(f, values))[j]; entry != m && !(m + "\0" <= entry)
    ensures Meaning(f, values, m)
            == Some(if i < |f.statics| then f.translations[i] + "\0"
                    else SysdepTrans(f, values)[i - |f.statics|])
  {
    hide SysdepOrigs, SysdepTrans, CString, Search;
    var entries := f.statics + SysdepOrigs(f, values);
    var keys := Keys(entries);
    HoldsFirst(entries[i], m);
    forall j | 0 <= j < i
      ensures keys[j] != m
    {
      HoldsFirst(entries[j], m);
    }
    SearchFinds(keys, m, i);
    PickTranslation(f.translations, SysdepTrans(f, values), i);
  }

  lemma NoEntryNoAnswer(f: File, values: Values, m: string)
    requires |f.statics| == |f.translations| && PairsInFile(f.data, f.pairs)
    requires forall entry :: entry in f.statics + SysdepOrigs(f, values) ==> entry != m && !(m + "\0" <= entry)
    ensures Meaning(f, values, m) == None
  {
    hide SysdepOrigs, SysdepTrans, CString, Search;
    var entries := f.statics + SysdepOrigs(f, values);
    forall j | 0 <= j < |entries|
      ensures Keys(entries)[j] != m
    {
      assert entries[j] in entries;
      HoldsFirst(entries[j], m);
    }
  }

  // ---------------------------------------------------------------
  // Strings with system dependent parts

  // A text and the system dependent segment behind it
  datatype Part = Part(text: string, ref: nat)

  // The static parts as they lie in the file
  function Statics(parts: seq<Part>, last: string): string {
    if parts == [] then last else parts[0].text + Statics(parts[1..], last)
  }

  function Segments(parts: seq<Part>, last: string): (segs: seq<Segment>)
    ensures segs != []
  {
    if parts == [] then [Segment(|last|, SEGMENTS_END)]
    else [Segment(|parts[0].text|, parts[0].ref)] + Segments(parts[1..], last)
  }

  ghost predicate Known(parts: seq<Part>, values: Values) {
    forall p :: p in parts ==> p.ref < |values| && p.ref != SEGMENTS_END && values[p.ref].Some?
  }

  // Each text and the value behind it, in order
  function Spelled(parts: seq<Part>, last: string, values: Values): string
    requires Known(parts, values)
  {
    if parts == [] then last
    else parts[0].text + (values[parts[0].ref].value + Spelled(parts[1..], last, values))
  }

  lemma FirstOfTwo(data: string, at: nat, a: string, b: string)
    requires at + |a + b| <= |data| && data[at..at + |a + b|] == a + b
    ensures data[at..at + |a|] == a && data[at + |a|..at + |a| + |b|] == b
  {
    assert data[at..at + |a|] == data[at..at + |a + b|][..|a|];
    assert data[at + |a|..at + |a| + |b|] == data[at..at + |a + b|][|a|..];
  }

  lemma OnlyEnd(n: nat)
    ensures EndsOnce([Segment(n, SEGMENTS_END)])
  {
  }

  lemma OneBefore(segs: seq<Segment>)
    requires |segs| > 1 && EndsOnce(segs[1..]) && segs[0].sysdepref != SEGMENTS_END
    ensures EndsOnce(segs)
  {
    forall i | 0 <= i < |segs|
      ensures segs[i].sysdepref == SEGMENTS_END <==> i == |segs| - 1
    {
      assert i > 0 ==> segs[i] == segs[1..][i - 1];
    }
  }

  lemma {:induction false} SegmentsEnd(parts: seq<Part>, last: string, values: Values)
    requires Known(parts, values)
    ensures EndsOnce(Segments(parts, last)) && StaticSize(Segments(parts, last)) == |Statics(parts, last)|
    ensures SegmentsSize(Segments(parts, last), values) == Bytes(|Spelled(parts, last, values)|)
    decreases |parts|
  {
    hide EndsOnce;
    var segs := Segments(parts, last);
    if parts == [] {
      OnlyEnd(|last|);
      assert segs[1..] == [];
    } else {
      SegmentsEnd(parts[1..], last, values);
      assert segs[1..] == Segments(parts[1..], last);
      assert parts[0] in parts;
      OneBefore(segs);
    }
  }

  // A string written so is expanded to its texts and values
  lemma {:induction false} ExpandIsSpelled(data: string, at: nat, parts: seq<Part>, last: string, values: Values)
    requires Known(parts, values)
    requires at + |Statics(parts, last)| <= |data| && data[at..at + |Statics(parts, last)|] == Statics(parts, last)
    ensures var segs := Segments(parts, last);
            && EndsOnce(segs) && StaticSize(segs) == |Statics(parts, last)|
            && SegmentsSize(segs, values).Bytes?
            && Expand(data, at, segs, values) == Spelled(parts, last, values)
    decreases |parts|
  {
    hide EndsOnce, StaticSize, SegmentsSize;
    SegmentsEnd(parts, last, values);
    if parts != [] {
      FirstOfTwo(data, at, parts[0].text, Statics(parts[1..], last));
      ExpandIsSpelled(data, at + |parts[0].text|, parts[1..], last, values);
      assert Segments(parts, last)[1..] == Segments(parts[1..], last);
      assert parts[0] in parts;
      ExpandStep(data, at, Segments(parts, last), values);
    }
  }

  // ---------------------------------------------------------------
  // The hash function

  // A character is one byte behind the value shifted by four places.  The four bits
  // that leave a word of 28 are put in again at the fifth place.
  lemma HashIsShifted(hval: bv32, c: char)
    ensures HashStep(hval, c) == Folded(hval * 16 + (c as int % 256) as bv32)
  {
    ShiftIsProduct(hval);
  }

  lemma ShiftIsProduct(h: bv32)
    ensures h << 4 == h * 16
  {
  }

  lemma HashIsFolded(h: bv32)
    ensures Folded(h) == (h & 0x0fff_ffff) ^ ((h >> 28) << 4)
    ensures Folded(h) <= 0x0fff_ffff
  {
  }

  // ---------------------------------------------------------------
  // Which pairs are loaded

  // A reference outside the table makes the file invalid; a value that the system lacks
  // drops the pair, unless an invalid reference comes first
  lemma {:induction false} SegmentsFail(parts: seq<Part>, bad: Part, rest: seq<Segment>, values: Values)
    requires Known(parts, values) && bad.ref != SEGMENTS_END
    requires bad.ref < |values| ==> values[bad.ref].None?
    ensures SegmentsSize(Leading(parts) + ([Segment(|bad.text|, bad.ref)] + rest), values)
            == if bad.ref >= |values| then Invalid else Undefined
  {
    var last := [Segment(|bad.text|, bad.ref)] + rest;
    var segs := Leading(parts) + last;
    if parts == [] {
      assert segs == last;
    } else {
      assert segs[1..] == Leading(parts[1..]) + last;
      assert parts[0] in parts;
      SegmentsFail(parts[1..], bad, rest, values);
    }
  }

  function Leading(parts: seq<Part>): seq<Segment> {
    seq(|parts|, i requires 0 <= i < |parts| => Segment(|parts[i].text|, parts[i].ref))
  }

  // A minor revision has system dependent pairs, and of these the ones count whose
  // strings have a size each
  lemma PairsThatCount(f: File, values: Values, pairs: seq<Pair>, p: Pair)
    ensures f.minor == 0 ==> Live(f, values) == []
    ensures f.minor > 0 ==> Live(f, values) == Usable(f.pairs, values)
    ensures Usable(pairs + [p], values)
            == Usable(pairs, values)
               + if SegmentsSize(p.orig.segments, values).Bytes? && SegmentsSize(p.trans.segments, values).Bytes?
                 then [p] else []
  {
    assert (pairs + [p])[..|pairs|] == pairs;
  }
}
