// The strings of a message catalogue that depend on the system: sizing them first
// and building them afterwards (intl/loadmsgcat.c).
module SysdepStrings {
  import opened Words
  import opened XSize

  const SEGMENTS_END: nat := 0xFFFF_FFFF

  datatype Segment = Segment(segsize: nat, sysdepref: nat)

  // A static part, cut into segments, each but the last followed by the value of a
  // system dependent segment
  datatype SysdepString = SysdepString(offset: nat, segments: seq<Segment>)

  datatype Pair = Pair(orig: SysdepString, trans: SysdepString)

  // get_sysdep_segment_value of every segment name; None where the system has none
  type Values = seq<Option<string>>

  function StaticSize(segs: seq<Segment>): nat {
    if segs == [] then 0 else segs[0].segsize + StaticSize(segs[1..])
  }

  // The segment list ends with the marker, and only there
  ghost predicate EndsOnce(segs: seq<Segment>) {
    && segs != []
    && forall i :: 0 <= i < |segs| ==> (segs[i].sysdepref == SEGMENTS_END <==> i == |segs| - 1)
  }

  // What the file format promises of a string
  ghost predicate InFile(data: string, s: SysdepString) {
    EndsOnce(s.segments) && s.offset + StaticSize(s.segments) <= |data|
  }

  ghost predicate PairsInFile(data: string, pairs: seq<Pair>) {
    forall i :: 0 <= i < |pairs| ==> InFile(data, pairs[i].orig) && InFile(data, pairs[i].trans)
  }

  // The outcome of looking through the segments of a string: a reference outside the
  // table, a value the system lacks, or the size of the whole
  datatype Size = Invalid | Undefined | Bytes(n: nat)

  function SegmentsSize(segs: seq<Segment>, values: Values): Size {
    if segs == [] then Bytes(0)
    else if segs[0].sysdepref == SEGMENTS_END then Bytes(segs[0].segsize)
    else if segs[0].sysdepref >= |values| then Invalid
    else
      match values[segs[0].sysdepref]
      case None => Undefined
      case Some(v) =>
        match SegmentsSize(segs[1..], values)
        case Bytes(n) => Bytes(segs[0].segsize + |v| + n)
        case other => other
  }

  // The string itself: the static segments from position 'at' on, with the values
  function Expand(data: string, at: nat, segs: seq<Segment>, values: Values): (r: string)
    requires EndsOnce(segs) && at + StaticSize(segs) <= |data| && SegmentsSize(segs, values).Bytes?
    ensures Bytes(|r|) == SegmentsSize(segs, values)
    decreases |segs|
  {
    var here := data[at..at + segs[0].segsize];
    if segs[0].sysdepref == SEGMENTS_END then here
    else
      assert EndsOnce(segs[1..]);
      here + values[segs[0].sysdepref].value + Expand(data, at + segs[0].segsize, segs[1..], values)
  }

  // A string of one static segment is not copied
  predicate IsStatic(s: SysdepString) {
    s.segments != [] && s.segments[0].sysdepref == SEGMENTS_END
  }

  function CopySize(s: SysdepString, values: Values): Size {
    if IsStatic(s) then Bytes(0) else SegmentsSize(s.segments, values)
  }

  function PairSize(p: Pair, values: Values): Size {
    match (CopySize(p.orig, values), CopySize(p.trans, values))
    case (Bytes(a), Bytes(b)) => Bytes(a + b)
    case (Bytes(_), other) => other
    case (other, _) => other
  }

  // The pairs that the system can build, in order
  function Usable(pairs: seq<Pair>, values: Values): (r: seq<Pair>)
    ensures |r| <= |pairs|
  {
    if pairs == [] then []
    else
      var last := pairs[|pairs| - 1];
      Usable(pairs[..|pairs| - 1], values) + if PairSize(last, values).Bytes? then [last] else []
  }

  function TotalSize(pairs: seq<Pair>, values: Values): nat {
    if pairs == [] then 0
    else
      TotalSize(pairs[..|pairs| - 1], values)
      + match PairSize(pairs[|pairs| - 1], values) case Bytes(n) => n case _ => 0
  }

  ghost predicate AllValid(pairs: seq<Pair>, values: Values) {
    forall i :: 0 <= i < |pairs| ==> PairSize(pairs[i], values) != Invalid
  }

  // ---------------------------------------------------------------
  // The sizing pass, whose sums are sizes

  const SIZE_MODULUS: nat := SIZE_MAX + 1

  function Wrapped(n: nat): nat {
    n % SIZE_MODULUS
  }

  lemma WrappedTwice(a: nat, b: nat)
    ensures Wrapped(Wrapped(a) + b) == Wrapped(a + b)
  {
  }

  function WrappedSize(size: Size): Size {
    match size
    case Bytes(n) => Bytes(Wrapped(n))
    case other => other
  }

  method MeasureSegments(segs: seq<Segment>, values: Values) returns (size: Size)
    requires EndsOnce(segs)
    ensures size == if segs[0].sysdepref == SEGMENTS_END then Bytes(0) else WrappedSize(SegmentsSize(segs, values))
  {
    hide Wrapped;
    var need: nat := 0;
    if segs[0].sysdepref == SEGMENTS_END {
      return Bytes(need);
    }
    ghost var goal, total: nat := SegmentsSize(segs, values), 0;
    var p: nat := 0;
    assert segs[0..] == segs;
    WrappedZero();
    while true
      invariant p < |segs| && EndsOnce(segs[p..]) && need == Wrapped(total)
      invariant goal == match SegmentsSize(segs[p..], values) case Bytes(n) => Bytes(total + n) case other => other
      decreases |segs| - p
    {
      assert segs[p..][1..] == segs[p + 1..];
      WrappedTwice(total, segs[p].segsize);
      need, total := Wrapped(need + segs[p].segsize), total + segs[p].segsize;
      var sysdepref := segs[p].sysdepref;
      if sysdepref == SEGMENTS_END {
        return Bytes(need);
      }
      if sysdepref >= |values| {
        return Invalid;
      }
      if values[sysdepref] == None {
        return Undefined;
      }
      var n := |values[sysdepref].value|;
      WrappedTwice(total, n);
      need, total := Wrapped(need + n), total + n;
      p := p + 1;
    }
  }

  lemma WrappedZero()
    ensures Wrapped(0) == 0
  {
  }

  const DESC_SIZE: nat := 8

  // All the memory that the loaded strings, their tables and the hash table take
  function Needed(pairs: seq<Pair>, values: Values, hashBytes: nat): nat {
    hashBytes + TotalSize(pairs, values) + 2 * |Usable(pairs, values)| * DESC_SIZE
  }

  // The two sizes of one pair; the second is not asked for if the first rules it out
  method MeasurePair(p: Pair, values: Values) returns (size: Size)
    requires EndsOnce(p.orig.segments) && EndsOnce(p.trans.segments)
    ensures size == WrappedSize(PairSize(p, values))
  {
    hide Wrapped, SegmentsSize;
    WrappedZero();
    size := MeasureSegments(p.orig.segments, values);
    if size.Bytes? {
      var needs := MeasureSegments(p.trans.segments, values);
      if needs.Bytes? {
        WrappedBoth(CopySize(p.orig, values).n, CopySize(p.trans, values).n);
        size := Bytes(Wrapped(size.n + needs.n));
      } else {
        size := needs;
      }
    }
  }

  // The sizing pass over all pairs; None when the file is invalid
  method Measure(data: string, pairs: seq<Pair>, values: Values, hashBytes: nat) returns (r: Option<(nat, nat)>)
    requires PairsInFile(data, pairs)
    ensures r.Some? <==> AllValid(pairs, values)
    ensures r.Some? ==> r.value == (|Usable(pairs, values)|, Wrapped(Needed(pairs, values, hashBytes)))
  {
    hide Wrapped, PairSize;
    var n, memneed := 0, Wrapped(hashBytes);
    for i := 0 to |pairs|
      invariant AllValid(pairs[..i], values)
      invariant n == |Usable(pairs[..i], values)| && memneed == Wrapped(hashBytes + TotalSize(pairs[..i], values))
    {
      assert pairs[..i + 1][..i] == pairs[..i];
      var size := MeasurePair(pairs[i], values);
      if size == Invalid {
        assert PairSize(pairs[i], values) == Invalid;
        return None;
      }
      if size.Bytes? {
        n := n + 1;
        WrappedBoth(hashBytes + TotalSize(pairs[..i], values), PairSize(pairs[i], values).n);
        memneed := Wrapped(memneed + size.n);
      }
    }
    assert pairs[..|pairs|] == pairs;
    WrappedTwice(hashBytes + TotalSize(pairs, values), 2 * n * DESC_SIZE);
    return Some((n, Wrapped(memneed + 2 * n * DESC_SIZE)));
  }

  lemma WrappedBoth(a: nat, b: nat)
    ensures Wrapped(Wrapped(a) + Wrapped(b)) == Wrapped(a + b)
  {
  }

  // The memory measured is enough exactly if the sum is a size
  lemma MeasuredIsEnough(needed: nat)
    ensures needed <= Wrapped(needed) <==> needed < SIZE_MODULUS
  {
  }

  // It need not be: a pair with a translation of 64 KB, as often as makes up the modulus
  const LONG_PAIR: Pair :=
    Pair(SysdepString(0, [Segment(1, SEGMENTS_END)]), SysdepString(0, [Segment(0xFFFF, 0), Segment(1, SEGMENTS_END)]))

  function Copies(p: Pair, n: nat): (r: seq<Pair>)
    ensures |r| == n && forall i :: 0 <= i < n ==> r[i] == p
  {
    if n == 0 then [] else Copies(p, n - 1) + [p]
  }

  lemma {:induction false} CopiesSize(p: Pair, values: Values, n: nat)
    requires PairSize(p, values) == Bytes(0x1_0000)
    ensures TotalSize(Copies(p, n), values) == 0x1_0000 * n && |Usable(Copies(p, n), values)| == n
  {
    hide PairSize;
    if n > 0 {
      CopiesSize(p, values, n - 1);
      assert Copies(p, n)[..n - 1] == Copies(p, n - 1);
    }
  }

  lemma SizesWrap(data: string, hashBytes: nat)
    requires |data| == 0x1_0000
    ensures var pairs, values := Copies(LONG_PAIR, 0x1_0000), [Some("")];
            && PairsInFile(data, pairs) && AllValid(pairs, values)
            && TotalSize(pairs, values) == SIZE_MODULUS
            && Wrapped(Needed(pairs, values, hashBytes)) == Wrapped(hashBytes + 0x10_0000)
  {
    var values: Values := [Some("")];
    LongPairIsRight(data, values);
    hide PairSize, InFile;
    CopiesSize(LONG_PAIR, values, 0x1_0000);
  }

  lemma LongPairIsRight(data: string, values: Values)
    requires |data| == 0x1_0000 && values == [Some("")]
    ensures InFile(data, LONG_PAIR.orig) && InFile(data, LONG_PAIR.trans)
    ensures PairSize(LONG_PAIR, values) == Bytes(0x1_0000)
  {
    var segs := LONG_PAIR.trans.segments;
    assert segs[1..] == [Segment(1, SEGMENTS_END)] && segs[1..][1..] == [] && LONG_PAIR.orig.segments[1..] == [];
    assert StaticSize(segs[1..]) == 1;
    assert SegmentsSize(segs[1..], values) == Bytes(1);
  }

  // ---------------------------------------------------------------
  // The filling pass

  // The allocated memory, of which everything below 'mem' is used up
  class Arena {
    const block: array<char>
    var mem: nat
    ghost const base: nat
    ghost var Written: string

    ghost predicate Valid()
      reads this, block
    {
      base + |Written| == mem <= block.Length && Written == block[base..mem]
    }

    // malloc, with the first 'tables' bytes set aside for the tables
    constructor (memneed: nat, tables: nat)
      requires tables <= memneed
      ensures Valid() && fresh(block) && block.Length == memneed
      ensures mem == base == tables && Written == ""
    {
      block := new char[memneed](_ => '\0');
      mem := tables;
      base := tables;
      Written := "";
    }

    // memcpy to mem, and mem += |bytes|.  Where that would leave the block there is
    // nothing more to say, and 'ok' is false.
    method Append(bytes: string) returns (ok: bool)
      requires Valid()
      modifies this`mem, this`Written, block
      ensures Valid() && (ok <==> old(mem) + |bytes| <= block.Length)
      ensures Written == if ok then old(Written) + bytes else old(Written)
    {
      if mem + |bytes| > block.Length {
        return false;
      }
      for i := 0 to |bytes|
        invariant mem == old(mem) && Written == old(Written)
        invariant block[base..mem] == Written && block[mem..mem + i] == bytes[..i]
      {
        block[mem + i] := bytes[i];
        assert block[mem..mem + (i + 1)] == block[mem..mem + i] + [bytes[i]];
      }
      mem := mem + |bytes|;
      Written := Written + bytes;
      assert block[base..mem] == block[base..old(mem)] + block[old(mem)..mem];
      return true;
    }
  }

  lemma ExpandStep(data: string, at: nat, segs: seq<Segment>, values: Values)
    requires EndsOnce(segs) && at + StaticSize(segs) <= |data| && SegmentsSize(segs, values).Bytes?
    requires segs[0].sysdepref != SEGMENTS_END
    ensures EndsOnce(segs[1..]) && at + segs[0].segsize + StaticSize(segs[1..]) <= |data|
    ensures segs[0].sysdepref < |values| && values[segs[0].sysdepref].Some? && SegmentsSize(segs[1..], values).Bytes?
    ensures Expand(data, at, segs, values)
            == data[at..at + segs[0].segsize] + values[segs[0].sysdepref].value
               + Expand(data, at + segs[0].segsize, segs[1..], values)
  {
    assert segs[1..][|segs| - 2] == segs[|segs| - 1];
  }

  // What one segment contributes
  function Piece(data: string, seg: Segment, values: Values, statics: nat): string
    requires statics + seg.segsize <= |data|
    requires seg.sysdepref != SEGMENTS_END ==> seg.sysdepref < |values| && values[seg.sysdepref].Some?
  {
    data[statics..statics + seg.segsize] + if seg.sysdepref == SEGMENTS_END then "" else values[seg.sysdepref].value
  }

  // 'done' and the expansion of the segments 'segs', whose static parts start at
  // 'statics', make up the whole string
  ghost predicate Left(data: string, segs: seq<Segment>, values: Values, statics: nat, done: string, whole: string) {
    && EndsOnce(segs) && statics + StaticSize(segs) <= |data| && SegmentsSize(segs, values).Bytes?
    && whole == done + Expand(data, statics, segs, values)
  }

  lemma LeftStep(data: string, segs: seq<Segment>, values: Values, statics: nat, done: string, whole: string)
    requires Left(data, segs, values, statics, done, whole)
    ensures segs != [] && statics + segs[0].segsize <= |data|
    ensures segs[0].sysdepref != SEGMENTS_END ==> segs[0].sysdepref < |values| && values[segs[0].sysdepref].Some?
    ensures var piece := Piece(data, segs[0], values, statics);
            && |done| + |piece| <= |whole|
            && if segs[0].sysdepref == SEGMENTS_END then whole == done + piece
               else Left(data, segs[1..], values, statics + segs[0].segsize, done + piece, whole)
  {
    if segs[0].sysdepref != SEGMENTS_END {
      ExpandStep(data, statics, segs, values);
    }
  }

  // One round of the concatenating loop
  method PutSegment(data: string, seg: Segment, values: Values, statics: nat, arena: Arena) returns (ok: bool)
    requires statics + seg.segsize <= |data|
    requires seg.sysdepref != SEGMENTS_END ==> seg.sysdepref < |values| && values[seg.sysdepref].Some?
    requires arena.Valid()
    modifies arena`mem, arena`Written, arena.block
    ensures arena.Valid() && old(arena.Written) <= arena.Written
    ensures ok <==> old(arena.mem) + |Piece(data, seg, values, statics)| <= arena.block.Length
    ensures ok ==> arena.Written == old(arena.Written) + Piece(data, seg, values, statics)
  {
    ok := true;
    if seg.segsize > 0 {
      ok := arena.Append(data[statics..statics + seg.segsize]);
    }
    if ok && seg.sysdepref != SEGMENTS_END {
      ok := arena.Append(values[seg.sysdepref].value);
    }
  }

  // The concatenating loop for one string
  method Concatenate(data: string, s: SysdepString, values: Values, arena: Arena, ghost whole: string)
    returns (ok: bool)
    requires Left(data, s.segments, values, s.offset, "", whole) && arena.Valid()
    modifies arena`mem, arena`Written, arena.block
    ensures arena.Valid() && old(arena.Written) <= arena.Written
    ensures ok <==> old(arena.mem) + |whole| <= arena.block.Length
    ensures ok ==> arena.Written == old(arena.Written) + whole
  {
    hide Left, Piece, EndsOnce;
    var p, statics: nat := s.segments, s.offset;
    ghost var done := "";
    while true
      invariant Left(data, p, values, statics, done, whole)
      invariant arena.Valid() && arena.Written == old(arena.Written) + done
      decreases |p|
    {
      LeftStep(data, p, values, statics, done, whole);
      var seg := p[0];
      ok := PutSegment(data, seg, values, statics, arena);
      if !ok || seg.sysdepref == SEGMENTS_END {
        return;
      }
      done := done + Piece(data, seg, values, statics);
      statics := statics + seg.segsize;
      p := p[1..];
    }
  }

  // ---------------------------------------------------------------
  // The filling pass over all pairs

  // An entry of the in-memory tables: a length and a pointer, into the file or into
  // the allocated memory
  datatype Desc = Desc(length: nat, heap: bool, start: nat)

  // The text that a string stands for on this system
  function TextOf(data: string, s: SysdepString, values: Values): string
    requires InFile(data, s) && SegmentsSize(s.segments, values).Bytes?
  {
    Expand(data, s.offset, s.segments, values)
  }

  // The entry addresses the text; 'written' is the memory from 'base' on
  ghost predicate Addresses(d: Desc, data: string, base: nat, written: string, text: string) {
    if d.heap then
      && base <= d.start && d.start - base + d.length <= |written|
      && written[d.start - base..d.start - base + d.length] == text
    else
      d.start + d.length <= |data| && data[d.start..d.start + d.length] == text
  }

  ghost predicate Buildable(data: string, p: Pair, values: Values) {
    && InFile(data, p.orig) && InFile(data, p.trans)
    && SegmentsSize(p.orig.segments, values).Bytes? && SegmentsSize(p.trans.segments, values).Bytes?
  }

  // The entries of one pair
  ghost predicate Built(data: string, p: Pair, values: Values, orig: Desc, trans: Desc, base: nat, written: string) {
    && Buildable(data, p, values)
    && Addresses(orig, data, base, written, TextOf(data, p.orig, values))
    && Addresses(trans, data, base, written, TextOf(data, p.trans, values))
  }

  lemma BuiltStays(data: string, p: Pair, values: Values, orig: Desc, trans: Desc, base: nat, written: string,
                   more: string)
    requires Built(data, p, values, orig, trans, base, written)
    ensures Built(data, p, values, orig, trans, base, written + more)
  {
  }

  // The check that the filling pass repeats.  It no longer tests the references
  // against the size of the table: the sizing pass did.
  method IsUsable(segs: seq<Segment>, values: Values) returns (valid: bool)
    requires EndsOnce(segs) && SegmentsSize(segs, values) != Invalid
    ensures valid <==> SegmentsSize(segs, values).Bytes?
  {
    if segs[0].sysdepref == SEGMENTS_END {
      return true;
    }
    var p: nat := 0;
    assert segs[0..] == segs;
    while true
      invariant p < |segs| && EndsOnce(segs[p..])
      invariant SegmentsSize(segs[p..], values) != Invalid
      invariant SegmentsSize(segs[p..], values).Bytes? <==> SegmentsSize(segs, values).Bytes?
      decreases |segs| - p
    {
      assert segs[p..][1..] == segs[p + 1..];
      var sysdepref := segs[p].sysdepref;
      if sysdepref == SEGMENTS_END {
        return true;
      }
      if values[sysdepref] == None {
        return false;
      }
      p := p + 1;
    }
  }

  lemma StaticOrNot(s: SysdepString, values: Values)
    requires EndsOnce(s.segments)
    ensures CopySize(s, values).Bytes? <==> SegmentsSize(s.segments, values).Bytes?
    ensures CopySize(s, values) == Invalid <==> SegmentsSize(s.segments, values) == Invalid
  {
  }

  // Build one string, or address it where it already is
  method FillString(data: string, s: SysdepString, values: Values, arena: Arena) returns (ok: bool, d: Desc)
    requires InFile(data, s) && SegmentsSize(s.segments, values).Bytes? && arena.Valid()
    modifies arena`mem, arena`Written, arena.block
    ensures arena.Valid() && old(arena.Written) <= arena.Written
    ensures ok <==> old(arena.mem) + CopySize(s, values).n <= arena.block.Length
    ensures ok ==> arena.mem == old(arena.mem) + CopySize(s, values).n
    ensures ok ==> Addresses(d, data, arena.base, arena.Written, TextOf(data, s, values))
  {
    if s.segments[0].sysdepref == SEGMENTS_END {
      ok, d := true, Desc(s.segments[0].segsize, false, s.offset);
    } else {
      var start := arena.mem;
      ghost var whole := TextOf(data, s, values);
      ok := Concatenate(data, s, values, arena, whole);
      d := Desc(arena.mem - start, true, start);
    }
  }

  // Both strings of a usable pair
  method FillPair(data: string, p: Pair, values: Values, arena: Arena) returns (ok: bool, orig: Desc, trans: Desc)
    requires Buildable(data, p, values) && PairSize(p, values).Bytes? && arena.Valid()
    modifies arena`mem, arena`Written, arena.block
    ensures arena.Valid() && old(arena.Written) <= arena.Written
    ensures ok <==> old(arena.mem) + PairSize(p, values).n <= arena.block.Length
    ensures ok ==> arena.mem == old(arena.mem) + PairSize(p, values).n
    ensures ok ==> Built(data, p, values, orig, trans, arena.base, arena.Written)
  {
    ok, orig := FillString(data, p.orig, values, arena);
    trans := orig;
    if ok {
      ghost var first := arena.Written;
      ok, trans := FillString(data, p.trans, values, arena);
      assert arena.Written == first + arena.Written[|first|..];
    }
  }

  lemma UsableStep(pairs: seq<Pair>, values: Values, i: nat)
    requires i < |pairs|
    ensures Usable(pairs[..i + 1], values)
            == Usable(pairs[..i], values) + if PairSize(pairs[i], values).Bytes? then [pairs[i]] else []
    ensures TotalSize(pairs[..i + 1], values)
            == TotalSize(pairs[..i], values) + match PairSize(pairs[i], values) case Bytes(n) => n case _ => 0
  {
    assert pairs[..i + 1][..i] == pairs[..i];
  }

  lemma {:induction false} TotalsGrow(pairs: seq<Pair>, values: Values, i: nat)
    requires i <= |pairs|
    ensures TotalSize(pairs[..i], values) <= TotalSize(pairs, values)
    ensures |Usable(pairs[..i], values)| <= |Usable(pairs, values)|
    decreases |pairs| - i
  {
    if i < |pairs| {
      UsableStep(pairs, values, i);
      TotalsGrow(pairs, values, i + 1);
    } else {
      assert pairs[..i] == pairs;
    }
  }

  ghost predicate AllBuilt(data: string, usable: seq<Pair>, values: Values, orig: seq<Desc>, trans: seq<Desc>,
                           base: nat, written: string)
  {
    && |orig| == |trans| == |usable|
    && forall k :: 0 <= k < |usable| ==> Built(data, usable[k], values, orig[k], trans[k], base, written)
  }

  lemma AllBuiltExtends(data: string, usable: seq<Pair>, values: Values, orig: seq<Desc>, trans: seq<Desc>,
                        base: nat, written: string, written': string, p: Pair, o: Desc, t: Desc)
    requires AllBuilt(data, usable, values, orig, trans, base, written) && written <= written'
    requires Built(data, p, values, o, t, base, written')
    ensures AllBuilt(data, usable + [p], values, orig + [o], trans + [t], base, written')
  {
    forall k | 0 <= k < |usable|
      ensures Built(data, usable[k], values, orig[k], trans[k], base, written')
    {
      assert written' == written + written'[|written|..];
      BuiltStays(data, usable[k], values, orig[k], trans[k], base, written, written'[|written|..]);
    }
  }

  // The test of the filling pass on one pair
  method IsUsablePair(data: string, p: Pair, values: Values) returns (valid: bool)
    requires InFile(data, p.orig) && InFile(data, p.trans) && PairSize(p, values) != Invalid
    ensures valid <==> PairSize(p, values).Bytes?
    ensures valid ==> Buildable(data, p, values)
  {
    StaticOrNot(p.orig, values);
    StaticOrNot(p.trans, values);
    valid := IsUsable(p.orig.segments, values);
    if valid {
      valid := IsUsable(p.trans.segments, values);
    }
  }

  // Both entries of one more pair; 'built' lists the pairs before it
  method FillNext(data: string, p: Pair, values: Values, arena: Arena, orig: array<Desc>, trans: array<Desc>, k: nat,
                  ghost built: seq<Pair>)
    returns (ok: bool)
    requires Buildable(data, p, values) && PairSize(p, values).Bytes? && arena.Valid()
    requires k < orig.Length == trans.Length && orig != trans
    requires AllBuilt(data, built, values, orig[..k], trans[..k], arena.base, arena.Written)
    modifies arena`mem, arena`Written, arena.block, orig, trans
    ensures arena.Valid() && (ok <==> old(arena.mem) + PairSize(p, values).n <= arena.block.Length)
    ensures ok ==> arena.mem == old(arena.mem) + PairSize(p, values).n
    ensures ok ==>
              AllBuilt(data, built + [p], values, orig[..k + 1], trans[..k + 1], arena.base, arena.Written)
  {
    ghost var before := arena.Written;
    var o, t;
    ok, o, t := FillPair(data, p, values, arena);
    if !ok {
      return;
    }
    AllBuiltExtends(data, built, values, orig[..k], trans[..k], arena.base, before, arena.Written, p, o, t);
    orig[k], trans[k] := o, t;
    assert orig[..k + 1] == orig[..k] + [o] && trans[..k + 1] == trans[..k] + [t];
  }

  // The loop of the filling pass
  method FillAll(data: string, pairs: seq<Pair>, values: Values, arena: Arena, orig: array<Desc>, trans: array<Desc>)
    returns (ok: bool)
    requires PairsInFile(data, pairs) && AllValid(pairs, values) && arena.Valid() && arena.Written == ""
    requires orig.Length == trans.Length == |Usable(pairs, values)| && orig != trans
    modifies arena`mem, arena`Written, arena.block, orig, trans
    ensures arena.Valid() && (ok <==> old(arena.mem) + TotalSize(pairs, values) <= arena.block.Length)
    ensures ok ==> arena.mem == old(arena.mem) + TotalSize(pairs, values)
    ensures ok ==> AllBuilt(data, Usable(pairs, values), values, orig[..], trans[..], arena.base, arena.Written)
  {
    hide PairSize, InFile, Buildable;
    var k: nat := 0;
    ghost var built, used: nat := [], 0;
    for i := 0 to |pairs|
      invariant built == Usable(pairs[..i], values) && used == TotalSize(pairs[..i], values)
      invariant k == |built| && arena.Valid() && arena.mem == old(arena.mem) + used
      invariant k <= orig.Length && AllBuilt(data, built, values, orig[..k], trans[..k], arena.base, arena.Written)
    {
      UsableStep(pairs, values, i);
      TotalsGrow(pairs, values, i + 1);
      var p := pairs[i];
      var valid := IsUsablePair(data, p, values);
      if valid {
        ok := FillNext(data, p, values, arena, orig, trans, k, built);
        if !ok {
          return;
        }
        built := built + [p];
        used := used + PairSize(p, values).n;
        k := k + 1;
      }
    }
    assert pairs[..|pairs|] == pairs;
    assert orig[..k] == orig[..] && trans[..k] == trans[..];
    ok := true;
  }

  // The filling pass.  It drops the pairs that the sizing pass dropped, uses up the
  // memory exactly, and leaves an entry for each string of each other pair.  It stays
  // inside the memory measured exactly if the sum of the sizes is a size.
  method Fill(data: string, pairs: seq<Pair>, values: Values, n: nat, memneed: nat, hashBytes: nat)
    returns (ok: bool, arena: Arena, orig: array<Desc>, trans: array<Desc>)
    requires PairsInFile(data, pairs) && AllValid(pairs, values)
    requires n == |Usable(pairs, values)| && memneed == Wrapped(Needed(pairs, values, hashBytes))
    ensures fresh(arena) && arena.Valid() && arena.block.Length == memneed
    ensures ok <==> Needed(pairs, values, hashBytes) < SIZE_MODULUS
    ensures ok ==> arena.mem == memneed
    ensures ok ==> AllBuilt(data, Usable(pairs, values), values, orig[..], trans[..], arena.base, arena.Written)
  {
    hide Wrapped;
    MeasuredIsEnough(Needed(pairs, values, hashBytes));
    orig := new Desc[n](_ => Desc(0, false, 0));
    trans := new Desc[n](_ => Desc(0, false, 0));
    var tables := 2 * n * DESC_SIZE + hashBytes;
    if tables > memneed {
      arena := new Arena(memneed, 0);
      return false, arena, orig, trans;
    }
    arena := new Arena(memneed, tables);
    ok := FillAll(data, pairs, values, arena, orig, trans);
    WrappedIsLess(Needed(pairs, values, hashBytes));
  }

  lemma WrappedIsLess(n: nat)
    ensures Wrapped(n) <= n
  {
  }
}
