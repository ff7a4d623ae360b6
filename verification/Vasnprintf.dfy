// The formatter that allocates its result: VASNPRINTF of intl/vasnprintf.c.
module Vasnprintf {
  import opened Words
  import opened Sequences
  import opened Numerals
  import opened CStrings
  import opened XSize
  import opened PrintfGrammar
  import opened PrintfArgs
  import opened PrintfParse
  import opened PrintfParser

  const INT_MAX: nat := 0x7FFF_FFFF

  // snprintf and the arguments it is given.  'render' is what a format of a single
  // directive gives for its '*' arguments and its main one, if anything.  A library
  // that knows no %n may write and return anything for a format that has one, and one
  // that tells no length returns -1 for a text that does not fit.
  datatype Renderer = Renderer(render: (string, seq<int>, nat) -> Option<string>, knowsN: bool, tellsLength: bool,
                               garbled: string -> (string, int),
                               intArg: nat -> int)

  // The text of a directive, which cannot be longer than an int can tell
  function Rendered(r: Renderer, fmt: string, prefixes: seq<int>, arg: nat): (text: Option<string>)
    ensures text.Some? ==> |text.value| <= INT_MAX
  {
    var text := r.render(fmt, prefixes, arg);
    if text.Some? && |text.value| > INT_MAX then None else text
  }

  // ---------------------------------------------------------------
  // The format rebuilt for snprintf

  function FlagText(flags: set<char>, c: char): string {
    if c in flags then [c] else ""
  }

  function FlagsText(flags: set<char>): string {
    FlagText(flags, '\'') + FlagText(flags, '-') + FlagText(flags, '+') + FlagText(flags, ' ') + FlagText(flags, '#')
    + FlagText(flags, '0')
  }

  function ModifierText(t: ArgType): string {
    match t
    case TLongLong => "ll"
    case TULongLong => "ll"
    case TLong => "l"
    case TULong => "l"
    case TWideChar => "l"
    case TWideString => "l"
    case TLongDouble => "L"
    case _ => ""
  }

  function Rebuilt(e: Entry, t: ArgType): string {
    "%" + FlagsText(e.flags) + e.width + e.precision + ModifierText(t) + [e.conversion]
  }

  // It fits with "%n" and the NUL, whatever the directive
  lemma RebuiltFits(e: Entry, t: ArgType, maxWidth: nat, maxPrecision: nat)
    requires |e.width| <= maxWidth && |e.precision| <= maxPrecision
    ensures |Rebuilt(e, t)| + 3 <= 7 + maxWidth + maxPrecision + 6
  {
  }

  // All of it is needed: six flags and two modifiers fill it up
  lemma ScratchIsUsedUp(e: Entry)
    requires e.flags == {'\'', '-', '+', ' ', '#', '0'}
    ensures |Rebuilt(e, TLongLong)| + 3 == 7 + |e.width| + |e.precision| + 6
  {
  }

  // memcpy to p, and p += |text|
  method Store(buf: array<char>, p: nat, text: string) returns (q: nat)
    requires p + |text| <= buf.Length
    modifies buf
    ensures q == p + |text| && buf[..q] == old(buf[..p]) + text
  {
    for i := 0 to |text|
      invariant buf[..p + i] == old(buf[..p]) + text[..i]
    {
      buf[p + i] := text[i];
      assert buf[..p + (i + 1)] == buf[..p + i] + [text[i]];
      assert text[..i + 1] == text[..i] + [text[i]];
    }
    assert text[..|text|] == text;
    q := p + |text|;
  }

  method StoreFlag(buf: array<char>, p: nat, flags: set<char>, c: char) returns (q: nat)
    requires p < buf.Length
    modifies buf
    ensures q == p + |FlagText(flags, c)| && buf[..q] == old(buf[..p]) + FlagText(flags, c)
  {
    q := p;
    if c in flags {
      q := Store(buf, p, [c]);
    }
  }

  method StoreFlags(buf: array<char>, p: nat, flags: set<char>) returns (q: nat)
    requires p + 6 <= buf.Length
    modifies buf
    ensures q == p + |FlagsText(flags)| && buf[..q] == old(buf[..p]) + FlagsText(flags)
  {
    hide FlagText;
    ghost var before := buf[..p];
    AssociateSeven(before, FlagText(flags, '\''), FlagText(flags, '-'), FlagText(flags, '+'), FlagText(flags, ' '),
                   FlagText(flags, '#'), FlagText(flags, '0'));
    FlagIsShort(flags, '\'');
    FlagIsShort(flags, '-');
    FlagIsShort(flags, '+');
    FlagIsShort(flags, ' ');
    FlagIsShort(flags, '#');
    q := StoreFlag(buf, p, flags, '\'');
    q := StoreFlag(buf, q, flags, '-');
    q := StoreFlag(buf, q, flags, '+');
    q := StoreFlag(buf, q, flags, ' ');
    q := StoreFlag(buf, q, flags, '#');
    q := StoreFlag(buf, q, flags, '0');
  }

  lemma FlagIsShort(flags: set<char>, c: char)
    ensures |FlagText(flags, c)| <= 1
  {
  }

  // The format of a directive, with "%n" behind it; p is where the conversion stands
  method BuildFormat(buf: array<char>, e: Entry, t: ArgType) returns (p: nat)
    requires |Rebuilt(e, t)| + 3 <= buf.Length && buf.Length >= 7
    modifies buf
    ensures p + 1 == |Rebuilt(e, t)|
    ensures buf[..p + 4] == Rebuilt(e, t) + "%n\0"
  {
    hide FlagsText, ModifierText;
    p := Store(buf, 0, "%");
    p := StoreFlags(buf, p, e.flags);
    p := Store(buf, p, e.width);
    p := Store(buf, p, e.precision);
    p := Store(buf, p, ModifierText(t));
    var q := Store(buf, p, [e.conversion]);
    q := Store(buf, q, "%n\0");
  }

  // ---------------------------------------------------------------
  // The result

  // The size after ENSURE_ALLOCATION
  function Room(room: Size, needed: Size): Size {
    if needed <= room then room else Xmax(if room > 0 then Xtimes(room, 2) else 12, needed)
  }

  // Half the address space is not enough, with what the loop may add
  predicate TooBig(n: nat) {
    2 * n + 10 >= SIZE_MAX
  }

  // ---------------------------------------------------------------
  // snprintf

  predicate EndsInN(fmt: string) {
    |fmt| >= 2 && fmt[|fmt| - 2] == '%' && fmt[|fmt| - 1] == 'n'
  }

  // The return value for a text
  function Returned(r: Renderer, text: Option<string>, maxlen: nat): int {
    if text.None? || (!r.tellsLength && |text.value| >= maxlen) then -1 else |text.value|
  }

  // What a call writes, its return value, and what it stores through %n or -1
  function Told(r: Renderer, fmt: string, prefixes: seq<int>, arg: nat, maxlen: nat): (string, int, int) {
    if !EndsInN(fmt) then
      var text := Rendered(r, fmt, prefixes, arg);
      (text.GetOr(r.garbled(fmt).0), Returned(r, text, maxlen), -1)
    else if r.knowsN then
      var text := Rendered(r, fmt[..|fmt| - 2], prefixes, arg);
      (text.GetOr(r.garbled(fmt).0), Returned(r, text, maxlen), if text.Some? then |text.value| else -1)
    else (r.garbled(fmt).0, r.garbled(fmt).1, -1)
  }

  // The characters that fit, and a NUL
  method Snprintf(r: Renderer, result: array<char>, at: nat, maxlen: nat, fmt: string, prefixes: seq<int>, arg: nat)
    returns (retcount: int, count: int)
    requires maxlen > 0 && at + maxlen <= result.Length
    modifies result
    ensures result[..at] == old(result[..at])
    ensures var told := Told(r, fmt, prefixes, arg, maxlen);
            && (retcount, count) == (told.1, told.2)
            && (|told.0| < maxlen ==> result[at..at + |told.0|] == told.0 && result[at + |told.0|] == '\0')
  {
    var told := Told(r, fmt, prefixes, arg, maxlen);
    var shown := if |told.0| < maxlen then told.0 else told.0[..maxlen - 1];
    ghost var before := result[..at];
    var q := Store(result, at, shown);
    result[q] := '\0';
    assert result[..q] == before + shown;
    assert result[..at] == result[..q][..at] && result[at..q] == result[..q][at..];
    return told.1, told.2;
  }

  // A format of one directive other than %n, as a C string
  ghost predicate IsFormat(fmt: string) {
    fmt != "" && '\0' !in fmt && fmt[|fmt| - 1] != 'n'
  }

  lemma FormatTold(r: Renderer, fmt: string, prefixes: seq<int>, arg: nat, maxlen: nat)
    requires IsFormat(fmt)
    ensures var text := Rendered(r, fmt, prefixes, arg);
            var bare, withN := Told(r, fmt, prefixes, arg, maxlen), Told(r, fmt + "%n", prefixes, arg, maxlen);
            && bare.1 == Returned(r, text, maxlen) && bare.2 == -1 && (text.Some? ==> bare.0 == text.value)
            && if r.knowsN && text.Some? then
                 withN.0 == text.value && withN.1 == Returned(r, text, maxlen) && withN.2 == |text.value|
               else withN.2 == -1
  {
    assert (fmt + "%n")[..|fmt|] == fmt;
  }

  lemma StringIn(s: string, text: string)
    requires '\0' !in text && |text| < |s| && s[..|text|] == text && s[|text|] == '\0'
    ensures CString(s) == text
  {
    if text != "" {
      assert s[0] == s[..|text|][0] == text[0];
      assert s[1..][..|text| - 1] == s[..|text|][1..] == text[1..];
      assert '\0' !in text[1..];
      StringIn(s[1..], text[1..]);
      assert text == [text[0]] + text[1..];
    }
  }

  // How often the loop has to enlarge a result of this size
  function Growths(room: nat, total: nat): nat {
    if total < room then 0 else if total < 2 * room then 1 else 2
  }

  // The same where snprintf does not tell how much it needs
  function Doublings(room: nat, total: nat): nat
    decreases total - room
  {
    if total < room then 0 else 1 + Doublings(2 * room + 12, total)
  }

  function Rounds(r: Renderer, room: nat, total: nat): nat {
    if r.knowsN || r.tellsLength then Growths(room, total) else Doublings(room, total)
  }

  lemma FitsAtOnce(r: Renderer, room: nat, total: nat)
    requires total < room
    ensures Rounds(r, room, total) == 0
  {
  }

  // The C string in the scratch buffer
  lemma BufferString(s: string, fmt: string)
    requires IsFormat(fmt) && |fmt| + 3 <= |s| && s[..|fmt|] == fmt
    ensures s[|fmt|] == '\0' ==> CString(s) == fmt
    ensures s[|fmt|] == '%' && s[|fmt| + 1] == 'n' && s[|fmt| + 2] == '\0' ==> CString(s) == fmt + "%n"
  {
    if s[|fmt|] == '\0' {
      StringIn(s, fmt);
    } else if s[|fmt|] == '%' && s[|fmt| + 1] == 'n' && s[|fmt| + 2] == '\0' {
      assert s[..|fmt| + 2] == s[..|fmt|] + "%n";
      StringIn(s, fmt + "%n");
    }
  }

  // Enlarging to the total alone leaves no room for the NUL, so it may take two rounds
  lemma GrowthsEnd(room: Size, total: nat)
    requires room > 0 && total >= room
    ensures var after := Room(room, Xmax(Clip(total), Xtimes(room, 2)));
            && (after == SIZE_MAX ==> TooBig(total))
            && (after < SIZE_MAX ==> Growths(after, total) == Growths(room, total) - 1)
  {
  }

  // The rounds still to come, 'withN' while the format has its "%n"
  function RoundsLeft(r: Renderer, room: nat, total: nat, withN: bool): nat {
    Rounds(r, room, total) + if r.knowsN || !withN then 0 else 1
  }

  // The scratch buffer, with "%n" behind the format or without
  ghost predicate Holds(buf: array<char>, p: nat, fmt: string)
    reads buf
  {
    && p + 1 == |fmt| && p + 4 <= buf.Length && buf[..p + 1] == fmt
    && (buf[p + 1] == '\0' || (buf[p + 1] == '%' && buf[p + 2] == 'n' && buf[p + 3] == '\0'))
  }

  lemma BufferParts(buf: array<char>, p: nat, fmt: string)
    requires p + 1 == |fmt| && p + 4 <= buf.Length && buf[..p + 4] == fmt + "%n\0"
    ensures Holds(buf, p, fmt) && buf[p + 1] != '\0'
  {
    assert buf[..p + 1] == buf[..p + 4][..p + 1];
    assert forall k :: p < k < p + 4 ==> buf[k] == buf[..p + 4][k];
  }

  lemma DoublingsEnd(room: nat, total: nat)
    ensures total >= room ==> Doublings(2 * room + 12, total) == Doublings(room, total) - 1
  {
  }

  class Accumulator {
    var result: array<char>
    var length: nat

    ghost predicate Valid()
      reads this
    {
      length <= result.Length < SIZE_MAX
    }

    ghost function Contents(): string
      reads this, result
      requires Valid()
    {
      result[..length]
    }

    constructor (resultbuf: array<char>)
      requires resultbuf.Length < SIZE_MAX
      ensures Valid() && result == resultbuf && length == 0
    {
      result := resultbuf;
      length := 0;
    }

    // ENSURE_ALLOCATION: what is written is kept
    method EnsureAllocation(needed: Size) returns (ok: bool)
      requires Valid() && needed > 0
      modifies this`result
      ensures Valid() && Contents() == old(Contents()) && (result == old(result) || fresh(result))
      ensures ok <==> Room(old(result.Length), needed) < SIZE_MAX
      ensures ok ==> result.Length == Room(old(result.Length), needed)
    {
      if needed > result.Length {
        var room := Xmax(if result.Length > 0 then Xtimes(result.Length, 2) else 12, needed);
        if Xtimes(room, 1) == SIZE_MAX {
          return false;
        }
        result := Moved(result, length, room, '\0');
      }
      return true;
    }

    // Literal text
    method Put(text: string) returns (ok: bool)
      requires Valid() && text != ""
      modifies this, result
      ensures Valid() && (result == old(result) || fresh(result))
      ensures ok ==> Contents() == old(Contents()) + text
      ensures !ok ==> TooBig(old(length) + |text|)
    {
      var augmented := Xsum(length, Clip(|text|));
      ok := EnsureAllocation(augmented);
      if ok {
        var q := Store(result, length, text);
        length := q;
      }
    }

    // Room for a NUL, and the NUL
    method Terminate() returns (ok: bool)
      requires Valid()
      modifies this`result, result
      ensures Valid() && Contents() == old(Contents()) && (result == old(result) || fresh(result))
      ensures ok ==> length < result.Length == Room(old(result.Length), Xsum(length, 1)) && result[length] == '\0'
      ensures !ok ==> TooBig(length + 1)
    {
      ok := EnsureAllocation(Xsum(length, 1));
      if ok {
        result[length] := '\0';
      }
    }

    // More room for a text of 'count' characters
    method Enlarge(ghost r: Renderer, count: nat) returns (ok: bool)
      requires Valid() && 0 < result.Length <= length + count && (r.knowsN || r.tellsLength)
      modifies this`result
      ensures Valid() && Contents() == old(Contents()) && (result == old(result) || fresh(result))
      ensures ok ==> length < result.Length && old(result.Length) < result.Length
      ensures ok ==> Rounds(r, result.Length, length + count) == old(Rounds(r, result.Length, length + count)) - 1
      ensures !ok ==> TooBig(length + count)
    {
      GrowthsEnd(result.Length, length + count);
      ok := EnsureAllocation(Xmax(Xsum(length, Clip(count)), Xtimes(result.Length, 2)));
    }

    // More room for a text of unknown length
    method EnlargeAnyhow(ghost r: Renderer, ghost total: nat) returns (ok: bool)
      requires Valid() && 0 < result.Length
      modifies this`result
      ensures Valid() && Contents() == old(Contents()) && (result == old(result) || fresh(result))
      ensures ok ==> old(result.Length) < result.Length
      ensures ok && !r.knowsN && !r.tellsLength && total >= old(result.Length) ==>
                Rounds(r, result.Length, total) == old(Rounds(r, result.Length, total)) - 1
      ensures !ok && total >= old(result.Length) ==> TooBig(total + 1)
    {
      DoublingsEnd(result.Length, total);
      ok := EnsureAllocation(Xsum(Xtimes(result.Length, 2), 12));
    }

    // One call of snprintf, and what its results mean: the length of the text, or -1
    // when it is not known.  When nothing comes back through the "%n", it is cut off.
    method Attempt(r: Renderer, buf: array<char>, p: nat, ghost fmt: string, prefixes: seq<int>, arg: nat)
        returns (count: int, cut: bool)
      requires Valid() && length < result.Length && buf != result && IsFormat(fmt) && Holds(buf, p, fmt)
      modifies result, buf
      ensures Contents() == old(Contents()) && buf[..p + 1] == fmt
      ensures var text := Rendered(r, fmt, prefixes, arg);
              && (cut <==> old(buf[p + 1]) != '\0' && !(r.knowsN && text.Some?))
              && (if cut then buf[p + 1] == '\0' else buf[..] == old(buf[..]))
              && (!cut ==> count == if old(buf[p + 1]) != '\0' then |text.value|
                                    else Returned(r, text, result.Length - length))
              && (!cut && count >= 0 && length + count < result.Length ==>
                    result[length..length + count] == text.value)
    {
      hide IsFormat, EndsInN, CString, Told;
      var maxlen := result.Length - length;
      FormatTold(r, fmt, prefixes, arg, maxlen);
      BufferString(buf[..], fmt);
      var retcount;
      retcount, count := Snprintf(r, result, length, maxlen, CString(buf[..]), prefixes, arg);
      cut := false;
      if count >= 0 {
        if count < maxlen && result[length + count] != '\0' {
          assert false;
        }
        if retcount > count {
          count := retcount;
        }
      } else if buf[p + 1] != '\0' {
        buf[p + 1] := '\0';
        cut := true;
      } else {
        count := retcount;
      }
    }

    // length += count
    method Advance(count: nat)
      requires Valid() && length + count <= result.Length
      modifies this`length
      ensures Valid() && Contents() == old(Contents()) + old(result[length..length + count])
    {
      assert result[..length + count] == result[..length] + result[length..length + count];
      length := length + count;
    }

    // One round of the loop: the text is there, or there is more room for it, or "%n"
    // has been cut off
    method Round(r: Renderer, buf: array<char>, p: nat, ghost fmt: string, prefixes: seq<int>, arg: nat)
      returns (ok: bool, again: bool)
      requires Valid() && length < result.Length && buf != result && IsFormat(fmt) && Holds(buf, p, fmt)
      requires r.knowsN && Rendered(r, fmt, prefixes, arg).Some? ==> buf[p + 1] != '\0'
      modifies this, result, buf
      ensures Valid() && (result == old(result) || fresh(result))
      ensures var text := Rendered(r, fmt, prefixes, arg);
              var total := old(length) + |text.GetOr("")|;
              && (!ok ==> text.None? || TooBig(total + 1))
              && (ok && !again ==>
                    && text.Some? && Contents() == old(Contents()) + text.value
                    && old(RoundsLeft(r, result.Length, total, buf[p + 1] != '\0')) == 0)
              && (ok && again ==>
                    && Contents() == old(Contents()) && length == old(length) < result.Length
                    && Holds(buf, p, fmt) && (r.knowsN && text.Some? ==> buf[p + 1] != '\0')
                    && (old(result.Length) < result.Length
                        || (old(result.Length) == result.Length && old(buf[p + 1]) != '\0' && buf[p + 1] == '\0'))
                    && (text.Some? ==>
                          RoundsLeft(r, result.Length, total, buf[p + 1] != '\0')
                          == old(RoundsLeft(r, result.Length, total, buf[p + 1] != '\0')) - 1))
    {
      hide Rounds, IsFormat, Room, Rendered;
      ok := true;
      var count, cut := Attempt(r, buf, p, fmt, prefixes, arg);
      if cut {
        again := true;
      } else if count < 0 {
        ok := EnlargeAnyhow(r, length + |Rendered(r, fmt, prefixes, arg).GetOr("")|);
        again := true;
      } else if count >= result.Length - length {
        ok := Enlarge(r, count);
        again := true;
      } else {
        FitsAtOnce(r, result.Length, length + count);
        Advance(count);
        again := false;
      }
    }

    // The text of a directive: call snprintf until the buffer is large enough.  'fmt'
    // is the format in buf, which at first has "%n" behind it.  A directive without a
    // text has the buffer grow until memory ends.
    method PutRendered(r: Renderer, buf: array<char>, p: nat, ghost fmt: string, prefixes: seq<int>, arg: nat)
      returns (ok: bool, ghost retries: nat)
      requires Valid() && buf != result && IsFormat(fmt)
      requires p + 1 == |fmt| && p + 4 <= buf.Length && buf[..p + 4] == fmt + "%n\0"
      modifies this, result, buf
      ensures Valid() && (result == old(result) || fresh(result))
      ensures var text := Rendered(r, fmt, prefixes, arg);
              && (ok ==> text.Some? && Contents() == old(Contents()) + text.value)
              && (!ok ==> text.None? || TooBig(old(length) + |text.value| + 1))
              && (ok ==> retries == Rounds(r, Room(old(result.Length), Xsum(old(length), 1)),
                                           old(length) + |text.value|) + if r.knowsN then 0 else 1)
    {
      hide Rounds, IsFormat, Room, Rendered;
      ghost var text := Rendered(r, fmt, prefixes, arg);
      ghost var total := length + |text.GetOr("")|;
      retries := 0;
      ok := Terminate();
      if !ok {
        return;
      }
      BufferParts(buf, p, fmt);
      ghost var need := RoundsLeft(r, result.Length, total, true);
      var again := true;
      while again
        invariant Valid() && (result == old(result) || fresh(result)) && buf != result
        invariant again ==> length == old(length) < result.Length && Contents() == old(Contents())
        invariant again ==> Holds(buf, p, fmt) && (text.Some? && r.knowsN ==> buf[p + 1] != '\0')
        invariant again && text.Some? ==> retries + RoundsLeft(r, result.Length, total, buf[p + 1] != '\0') == need
        invariant !again ==> text.Some? && Contents() == old(Contents()) + text.value && retries == need
        decreases again, SIZE_MAX - result.Length, if buf[p + 1] != '\0' then 1 else 0
      {
        ok, again := Round(r, buf, p, fmt, prefixes, arg);
        if !ok {
          return;
        }
        retries := retries + if again then 1 else 0;
      }
    }
  }

  // Three retries, with no buffer given and a text of twice the first allocation: %n
  // is not understood, twice the room holds the text but not its NUL, and four times
  // the room holds both
  method ThreeRetries(r: Renderer) returns (acc: Accumulator, ghost retries: nat)
    requires !r.knowsN && r.tellsLength && r.render("%s", [], 0).Some? && |r.render("%s", [], 0).value| == 24
    ensures retries == 3 && acc.Valid() && acc.Contents() == r.render("%s", [], 0).value
  {
    var resultbuf, buf := new char[0], new char[] ['%', 's', '%', 'n', '\0'];
    acc := new Accumulator(resultbuf);
    var ok;
    ok, retries := acc.PutRendered(r, buf, 1, "%s", [], 0);
  }

  // ---------------------------------------------------------------
  // What is to be produced

  // The int arguments for the '*'s
  function Prefixes(r: Renderer, e: Entry): seq<int> {
    (if e.widthArg.Some? then [r.intArg(e.widthArg.value)] else [])
    + if e.precisionArg.Some? then [r.intArg(e.precisionArg.value)] else []
  }

  function TypeAt(types: seq<ArgType>, arg: Option<nat>): ArgType {
    if arg.Some? && arg.value < |types| then types[arg.value] else TNone
  }

  // The text of one directive
  function DirText(r: Renderer, types: seq<ArgType>, e: Entry): string {
    if e.conversion == '%' then "%"
    else if e.conversion == 'n' then ""
    else DirRendered(r, types, e).GetOr("")
  }

  function DirRendered(r: Renderer, types: seq<ArgType>, e: Entry): Option<string> {
    Rendered(r, Rebuilt(e, TypeAt(types, e.arg)), Prefixes(r, e), e.arg.GetOr(0))
  }

  predicate HasText(r: Renderer, types: seq<ArgType>, e: Entry) {
    e.conversion == '%' || e.conversion == 'n' || DirRendered(r, types, e).Some?
  }

  // snprintf can convert the first k directives
  ghost predicate HaveText(r: Renderer, types: seq<ArgType>, entries: seq<Entry>, k: nat) {
    forall i :: 0 <= i < k && i < |entries| ==> HasText(r, types, entries[i])
  }

  lemma NoText(r: Renderer, types: seq<ArgType>, entries: seq<Entry>)
    ensures HaveText(r, types, entries, 0)
  {
  }

  lemma OneMoreText(r: Renderer, types: seq<ArgType>, entries: seq<Entry>, k: nat)
    requires k < |entries|
    ensures HaveText(r, types, entries, k) && HasText(r, types, entries[k]) <==> HaveText(r, types, entries, k + 1)
    ensures HaveText(r, types, entries, |entries|) ==> HasText(r, types, entries[k])
  {
  }

  function Between(s: string, from: nat, to: nat): string {
    if from <= to <= |s| then s[from..to] else ""
  }

  function EndOf(entries: seq<Entry>, k: nat): nat
    requires k <= |entries|
  {
    if k == 0 then 0 else entries[k - 1].end
  }

  function StartOf(format: string, entries: seq<Entry>, k: nat): nat
    requires k <= |entries|
  {
    if k == |entries| then |format| else entries[k].start
  }

  // The literal text before directive k, or after the last
  function LiteralAt(format: string, entries: seq<Entry>, k: nat): string
    requires k <= |entries|
  {
    Between(format, EndOf(entries, k), StartOf(format, entries, k))
  }

  // The text up to the end of k directives
  function Produced(r: Renderer, format: string, entries: seq<Entry>, types: seq<ArgType>, k: nat): string
    requires k <= |entries|
  {
    if k == 0 then ""
    else
      Produced(r, format, entries, types, k - 1) + LiteralAt(format, entries, k - 1) + DirText(r, types, entries[k - 1])
  }

  function Output(r: Renderer, format: string, entries: seq<Entry>, types: seq<ArgType>): string {
    Produced(r, format, entries, types, |entries|) + LiteralAt(format, entries, |entries|)
  }

  // What the %n directives store: the argument and the number of characters so far
  function Counts(r: Renderer, format: string, entries: seq<Entry>, types: seq<ArgType>, k: nat): seq<(nat, nat)>
    requires k <= |entries|
  {
    if k == 0 then []
    else
      Counts(r, format, entries, types, k - 1)
      + if entries[k - 1].conversion != 'n' then []
        else [(entries[k - 1].arg.GetOr(0),
               |Produced(r, format, entries, types, k - 1) + LiteralAt(format, entries, k - 1)|)]
  }

  lemma {:induction false} ProducedGrows(r: Renderer, format: string, entries: seq<Entry>, types: seq<ArgType>, k: nat)
    requires k <= |entries|
    ensures |Produced(r, format, entries, types, k)| + |LiteralAt(format, entries, k)|
            <= |Output(r, format, entries, types)|
    ensures k < |entries| ==>
              |Produced(r, format, entries, types, k)| + |LiteralAt(format, entries, k)|
                  + |DirText(r, types, entries[k])|
              <= |Output(r, format, entries, types)|
    decreases |entries| - k
  {
    if k < |entries| {
      ProducedGrows(r, format, entries, types, k + 1);
    }
  }

  // ---------------------------------------------------------------

  lemma DigitsHoldNoNul(digits: string)
    requires All(IsDigit, digits)
    ensures '\0' !in digits
  {
  }

  lemma ShortHoldsNoNul(a: Amount)
    requires AmountOk(a)
    ensures '\0' !in ShortText(a) && '\0' !in ShortPrecision(a)
  {
    if a.Number? {
      DigitsHoldNoNul(a.digits);
    }
  }

  lemma FlagsHoldNoNul(flags: set<char>)
    ensures '\0' !in FlagsText(flags)
  {
  }

  lemma ConversionKinds(b: Bits, c: char)
    requires IsConversion(c)
    ensures Conversion(c) == '%' <==> TypeOf(b, c) == TNone
    ensures Conversion(c) == '%' <==> c == '%'
    ensures Conversion(c) == 'n' <==> c == 'n'
    ensures Conversion(c) != '\0'
  {
    hide BySize;
    ConversionHasType(b, c);
  }

  lemma ConversionHasType(b: Bits, c: char)
    ensures TypeOf(b, c) == TNone <==> c == '%'
  {
  }

  lemma RebuiltIsFormat(types: seq<ArgType>, e: Entry, d: Dir, t: ArgType)
    requires DirOk(d) && Agrees(types, e, d) && e.conversion != 'n'
    ensures IsFormat(Rebuilt(e, t))
  {
    hide FlagsText, TypeOf;
    ShortHoldsNoNul(d.width);
    ShortHoldsNoNul(d.precision);
    FlagsHoldNoNul(e.flags);
    ConversionKinds(ModifierBits(d.modifiers), d.conv);
  }

  // A single directive
  method Execute(r: Renderer, acc: Accumulator, buf: array<char>, e: Entry, types: seq<ArgType>, ghost d: Dir)
    returns (ok: bool)
    requires acc.Valid() && buf != acc.result && DirOk(d) && Agrees(types, e, d)
    requires 7 + |e.width| + |e.precision| + 6 <= buf.Length
    modifies acc, acc.result, buf
    ensures acc.Valid() && (acc.result == old(acc.result) || fresh(acc.result))
    ensures ok ==> HasText(r, types, e) && acc.Contents() == old(acc.Contents()) + DirText(r, types, e)
    ensures !ok ==> !HasText(r, types, e) || TooBig(old(acc.length) + |DirText(r, types, e)| + 1)
  {
    hide Agrees, DirOk, Rebuilt, TypeOf, IsFormat;
    if e.conversion == '%' {
      ok := acc.Put("%");
    } else if e.conversion == 'n' {
      assert acc.Contents() + "" == acc.Contents();
      ok := true;
    } else {
      ArgIsThere(types, e, d);
      var t := types[e.arg.value];
      RebuiltFits(e, t, |e.width|, |e.precision|);
      RebuiltIsFormat(types, e, d, t);
      var p := BuildFormat(buf, e, t);
      ghost var fmt := Rebuilt(e, t);
      var prefixes := Prefixes(r, e);
      ghost var retries;
      ok, retries := acc.PutRendered(r, buf, p, fmt, prefixes, e.arg.value);
    }
  }

  lemma ArgIsThere(types: seq<ArgType>, e: Entry, d: Dir)
    requires DirOk(d) && Agrees(types, e, d) && e.conversion != '%'
    ensures e.arg.Some? && e.arg.value < |types|
  {
    hide TypeOf;
    ConversionKinds(ModifierBits(d.modifiers), d.conv);
  }

  // ---------------------------------------------------------------

  datatype Errno = OK | EINVAL | ENOMEM | EOVERFLOW

  // The directives, with the literal text before and after them
  method Format(r: Renderer, acc: Accumulator, buf: array<char>, format: string, entries: seq<Entry>,
                types: seq<ArgType>,
                ghost dirs: seq<Dir>)
    returns (ok: bool, counts: seq<(nat, nat)>)
    requires acc.Valid() && acc.length == 0 && buf != acc.result && |dirs| == |entries|
    requires forall i :: 0 <= i < |entries| ==>
               DirOk(dirs[i]) && Agrees(types, entries[i], dirs[i])
               && 7 + |entries[i].width| + |entries[i].precision| + 6 <= buf.Length
    modifies acc, acc.result, buf
    ensures acc.Valid() && (acc.result == old(acc.result) || fresh(acc.result))
    ensures ok ==>
              && HaveText(r, types, entries, |entries|) && acc.Contents() == Output(r, format, entries, types)
              && counts == Counts(r, format, entries, types, |entries|)
    ensures !ok ==> !HaveText(r, types, entries, |entries|) || TooBig(|Output(r, format, entries, types)| + 1)
  {
    hide DirOk, Agrees, DirText, LiteralAt, HasText, HaveText;
    counts := [];
    NoText(r, types, entries);
    var i := 0;
    while true
      invariant 0 <= i <= |entries| && acc.Valid() && (acc.result == old(acc.result) || fresh(acc.result))
      invariant buf != acc.result && HaveText(r, types, entries, i)
      invariant acc.Contents() == Produced(r, format, entries, types, i) && counts
          == Counts(r, format, entries, types, i)
      decreases |entries| - i
    {
      ProducedGrows(r, format, entries, types, i);
      var literal := LiteralAt(format, entries, i);
      if literal != "" {
        ok := acc.Put(literal);
        if !ok {
          return;
        }
      }
      assert acc.Contents() == Produced(r, format, entries, types, i) + literal;
      if i == |entries| {
        return true, counts;
      }
      if entries[i].conversion == 'n' {
        counts := counts + [(entries[i].arg.GetOr(0), acc.length)];
      }
      OneMoreText(r, types, entries, i);
      ok := Execute(r, acc, buf, entries[i], types, dirs[i]);
      if !ok {
        return;
      }
      i := i + 1;
    }
  }

  lemma ScratchCovers(format: string, st: State)
    requires Sound(format, |format|, st)
    ensures |st.dirs| == |st.entries| && st.maxWidth <= |format| && st.maxPrecision <= |format|
    ensures forall i :: 0 <= i < |st.entries| ==>
              DirOk(st.dirs[i]) && Agrees(st.args.types, st.entries[i], st.dirs[i])
              && |st.entries[i].width| <= st.maxWidth && |st.entries[i].precision| <= st.maxPrecision
  {
    hide DirOk, Agrees, Text;
    AllDirsOk(format, |format|, st.entries, st.dirs);
  }

  lemma {:induction false} AllDirsOk(format: string, at: nat, entries: seq<Entry>, dirs: seq<Dir>)
    requires Decomposes(format, at, entries, dirs)
    ensures |dirs| == |entries| && forall i :: 0 <= i < |dirs| ==> DirOk(dirs[i])
    decreases |entries|
  {
    hide DirOk, Text;
    if entries != [] {
      var n := |entries| - 1;
      AllDirsOk(format, entries[n].start, entries[..n], dirs[..n]);
      forall i | 0 <= i < n
        ensures DirOk(dirs[i])
      {
        assert dirs[i] == dirs[..n][i];
      }
    }
  }

  // What a call may report, given what the format asks for
  ghost predicate Reports(r: Renderer, format: string, errno: Errno, result: array<char>, length: nat,
                          counts: seq<(nat, nat)>)
    reads result
  {
    var parsed := Parse(format);
    if parsed.None? || TNone in parsed.value.args.types then errno == EINVAL
    else
      var st := parsed.value;
      var out := Output(r, format, st.entries, st.args.types);
      match errno
      case OK =>
        && HaveText(r, st.args.types, st.entries, |st.entries|)
        && length == |out| <= INT_MAX && length < result.Length && result[..length] == out && result[length] == '\0'
        && counts == Counts(r, format, st.entries, st.args.types, |st.entries|)
      case EOVERFLOW => HaveText(r, st.args.types, st.entries, |st.entries|) && |out| > INT_MAX
      case ENOMEM => !HaveText(r, st.args.types, st.entries, |st.entries|) || TooBig(|out| + 1) || TooBig(|format| + 7)
      case EINVAL => false
  }

  // VASNPRINTF.  Arguments that no directive refers to cannot be fetched.  The result
  // is the literal text and the texts of the directives in order; without one, it is
  // longer than an int can tell, or half of the address space is not enough, or a
  // directive has no text.
  method VasnPrintf(r: Renderer, resultbuf: array<char>, format: string)
    returns (errno: Errno, result: array<char>, length: nat, counts: seq<(nat, nat)>)
    requires resultbuf.Length < SIZE_MAX
    modifies resultbuf
    ensures Reports(r, format, errno, result, length, counts)
  {
    result, length, counts := resultbuf, 0, [];
    var ret, p := ParseFormat(format);
    if ret < 0 {
      return EINVAL, result, length, counts;
    }
    ghost var st := Parse(format).value;
    var entries, types := p.dir[..p.dirCount], p.args.arg[..p.args.count];
    var maxWidth, maxPrecision := p.maxWidth, p.maxPrecision;
    assert entries == st.entries && types == st.args.types && maxWidth == st.maxWidth;
    assert maxPrecision == st.maxPrecision;
    if TNone in types {
      return EINVAL, result, length, counts;
    }
    ParseIsSound(format);
    ScratchCovers(format, st);
    errno, result, length, counts := FormatParsed(r, resultbuf, format, entries, types, maxWidth, maxPrecision,
                                                  st.dirs);
  }

  // The part after parsing
  method FormatParsed(r: Renderer, resultbuf: array<char>, format: string, entries: seq<Entry>, types: seq<ArgType>,
                      maxWidth: nat, maxPrecision: nat, ghost dirs: seq<Dir>)
    returns (errno: Errno, result: array<char>, length: nat, counts: seq<(nat, nat)>)
    requires resultbuf.Length < SIZE_MAX && maxWidth <= |format| && maxPrecision <= |format| && |dirs| == |entries|
    requires forall i :: 0 <= i < |entries| ==>
               DirOk(dirs[i]) && Agrees(types, entries[i], dirs[i])
               && |entries[i].width| <= maxWidth && |entries[i].precision| <= maxPrecision
    modifies resultbuf
    ensures var out := Output(r, format, entries, types);
            match errno
            case OK =>
              && HaveText(r, types, entries, |entries|)
              && length == |out| <= INT_MAX && length < result.Length
              && result[..length] == out && result[length] == '\0'
              && counts == Counts(r, format, entries, types, |entries|)
            case EOVERFLOW => HaveText(r, types, entries, |entries|) && |out| > INT_MAX
            case ENOMEM => !HaveText(r, types, entries, |entries|) || TooBig(|out| + 1) || TooBig(|format| + 7)
            case EINVAL => false
  {
    hide DirOk, Agrees, DirText, Counts, Output, HaveText;
    result, length, counts := resultbuf, 0, [];
    var needed := Xsum4(7, Clip(maxWidth), Clip(maxPrecision), 6);
    if Xtimes(needed, 1) == SIZE_MAX {
      return ENOMEM, result, length, counts;
    }
    var buf := new char[needed](_ => '\0');
    var acc := new Accumulator(resultbuf);
    var ok;
    ok, counts := Format(r, acc, buf, format, entries, types, dirs);
    if ok {
      ok := acc.Terminate();
    }
    if !ok {
      return ENOMEM, result, length, counts;
    }
    result, length := acc.result, acc.length;
    if result != resultbuf && length + 1 < result.Length {
      result := Moved(result, length + 1, length + 1, '\0');
      assert result[..length] == result[..length + 1][..length];
      assert result[length] == result[..length + 1][length];
    }
    errno := if length > INT_MAX then EOVERFLOW else OK;
  }
}
