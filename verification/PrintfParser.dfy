// PRINTF_PARSE of intl/printf-parse.c with its two growing arrays.
module PrintfParser {
  import opened Words
  import opened Sequences
  import opened Numerals
  import opened XSize
  import opened PrintfGrammar
  import opened PrintfArgs
  import opened PrintfParse

  // The loops over digits
  method SpanDigits(cp: string) returns (n: nat)
    ensures n == |Span(IsDigit, cp)|
  {
    n := 0;
    assert cp[0..] == cp;
    while n < |cp| && IsDigit(cp[n])
      invariant n <= |cp| && n + |Span(IsDigit, cp[n..])| == |Span(IsDigit, cp)|
    {
      assert cp[n..][1..] == cp[n + 1..];
      n := n + 1;
    }
  }

  lemma SaturatingStep(digits: string, i: nat)
    requires All(IsDigit, digits) && i < |digits|
    ensures All(IsDigit, digits[..i]) && All(IsDigit, digits[..i + 1])
    ensures Saturating(digits[..i + 1]) == Xsum(Xtimes(Saturating(digits[..i]), 10), digits[i] as int - '0' as int)
  {
    assert digits[..i + 1][..i] == digits[..i];
  }

  method Accumulate(digits: string) returns (n: Size)
    requires All(IsDigit, digits)
    ensures n == Saturating(digits)
  {
    n := 0;
    for i := 0 to |digits|
      invariant n == Saturating(digits[..i])
    {
      SaturatingStep(digits, i);
      n := Xsum(Xtimes(n, 10), digits[i] as int - '0' as int);
    }
    assert digits[..|digits|] == digits;
  }

  // A position, as an index counted from 0
  method ScanPosn(cp: string) returns (bad: bool, index: Option<Size>, rest: string)
    ensures var r := ReadPosn(cp);
            && (bad <==> r.Bad?)
            && (!bad ==>
                  && rest == r.rest && (index.Some? <==> r.value.Some?)
                  && (index.Some? ==> All(IsDigit, r.value.value) && index.value == IndexOf(r.value.value)))
  {
    var np := SpanDigits(cp);
    assert cp[..np] == Span(IsDigit, cp);
    if np == 0 || np == |cp| || cp[np] != '$' {
      return false, None, cp;
    }
    var n := Accumulate(cp[..np]);
    if n == 0 || n == SIZE_MAX {
      return true, None, cp;
    }
    return false, Some(n - 1), cp[np + 1..];
  }

  // 'done' has been passed of the longest start of cp, and 'rest' is what is left
  ghost predicate Passing(p: char -> bool, cp: string, done: string, rest: string) {
    cp == done + rest && Span(p, cp) == done + Span(p, rest)
  }

  lemma PassingStep(p: char -> bool, cp: string, done: string, rest: string)
    requires Passing(p, cp, done, rest) && rest != "" && p(rest[0])
    ensures Passing(p, cp, done + [rest[0]], rest[1..])
  {
    Head(rest);
    Associate(done, [rest[0]], rest[1..]);
    Associate(done, [rest[0]], Span(p, rest[1..]));
  }

  lemma PassingDone(p: char -> bool, cp: string, done: string, rest: string)
    requires Passing(p, cp, done, rest) && (rest == "" || !p(rest[0]))
    ensures Span(p, cp) == done && rest == cp[|Span(p, cp)|..]
  {
    assert Span(p, rest) == "";
    assert done + "" == done;
  }

  // The flags as a set of characters, each a bit in the original
  method ScanFlags(cp: string) returns (flags: set<char>, rest: string)
    ensures flags == FlagSet(Span(IsFlag, cp)) && rest == cp[|Span(IsFlag, cp)|..]
  {
    flags, rest := {}, cp;
    ghost var done := "";
    assert Passing(IsFlag, cp, done, rest);
    while rest != "" && IsFlag(rest[0])
      invariant Passing(IsFlag, cp, done, rest) && flags == FlagSet(done)
      decreases |rest|
    {
      PassingStep(IsFlag, cp, done, rest);
      flags := flags + {rest[0]};
      done := done + [rest[0]];
      rest := rest[1..];
    }
    PassingDone(IsFlag, cp, done, rest);
  }

  method ScanModifiers(cp: string) returns (bits: Bits, rest: string)
    ensures bits == ModifierBits(Span(IsModifier, cp)) && rest == cp[|Span(IsModifier, cp)|..]
  {
    bits, rest := Bits(false, false, false, 0), cp;
    ghost var done := "";
    assert Passing(IsModifier, cp, done, rest);
    while rest != "" && IsModifier(rest[0])
      invariant Passing(IsModifier, cp, done, rest) && bits == ModifierBits(done)
      decreases |rest|
    {
      PassingStep(IsModifier, cp, done, rest);
      bits := AddModifier(bits, rest[0]);
      assert (done + [rest[0]])[..|done|] == done;
      done := done + [rest[0]];
      rest := rest[1..];
    }
    PassingDone(IsModifier, cp, done, rest);
  }

  // The arguments found so far: a->arg and a->count
  class ArgTable {
    var arg: array<ArgType>
    var count: nat

    ghost predicate Valid()
      reads this
    {
      count <= arg.Length <= SIZE_MAX
    }

    ghost function Now(): Args
      reads this, arg
      requires Valid()
    {
      Args(arg[..count], arg.Length)
    }

    constructor ()
      ensures Valid() && fresh(arg) && Now() == Args([], 0)
    {
      arg := new ArgType[0];
      count := 0;
    }

    // realloc
    method Reallocate(room: Size)
      requires Valid() && room >= arg.Length
      modifies this`arg
      ensures Valid() && fresh(arg) && Now() == old(Now()).(room := room)
    {
      arg := Moved(arg, count, room, TNone);
    }

    // The entries up to n
    method Pad(n: nat)
      requires Valid() && n < arg.Length
      modifies this`count, arg
      ensures Valid() && arg.Length == old(arg.Length) && n < count && arg[..count] == Padded(old(arg[..count]), n)
    {
      while count <= n
        invariant Valid() && Padded(arg[..count], n) == Padded(old(arg[..count]), n)
      {
        arg[count] := TNone;
        assert arg[..count + 1] == arg[..count] + [TNone];
        count := count + 1;
      }
    }

    // Room for argument n
    method MakeRoom(n: Size) returns (ok: bool)
      requires Valid()
      modifies this`arg
      ensures Valid() && (arg == old(arg) || fresh(arg))
      ensures ok <==> Grow(old(arg.Length), n).Some?
      ensures ok ==> Now() == old(Now()).(room := Grow(old(arg.Length), n).value) && n < arg.Length
    {
      if n >= arg.Length {
        var more := Xtimes(arg.Length, 2);
        if more <= n {
          more := Xsum(n, 1);
        }
        if Xtimes(more, SIZEOF_ARGUMENT) == SIZE_MAX {
          return false;
        }
        Reallocate(more);
      }
      return true;
    }

    // REGISTER_ARG
    method RegisterArg(n: Size, t: ArgType) returns (ok: bool)
      requires Valid()
      modifies this, arg
      ensures Valid() && (arg == old(arg) || fresh(arg))
      ensures ok <==> Register(old(Now()), n, t).Some?
      ensures ok ==> Now() == Register(old(Now()), n, t).value
    {
      hide Padded, Grow;
      ok := MakeRoom(n);
      if !ok {
        return;
      }
      Pad(n);
      if arg[n] == TNone {
        ghost var before := arg[..count];
        arg[n] := t;
        assert arg[..count] == before[n := t];
        return true;
      }
      return arg[n] == t;
    }
  }

  // The parser's variables
  class Parser {
    const args: ArgTable
    var posn: Size
    var dir: array<Entry>
    var dirCount: nat
    var maxWidth: nat
    var maxPrecision: nat

    ghost predicate Valid()
      reads this, args
    {
      args.Valid() && dirCount < dir.Length <= SIZE_MAX
    }

    ghost function Now(dirs: seq<Dir>): State
      reads this, args, args.arg, dir
      requires Valid()
    {
      State(dir[..dirCount], dirs, args.Now(), posn, dir.Length, maxWidth, maxPrecision)
    }

    constructor ()
      ensures Valid() && fresh(args) && fresh(args.arg) && fresh(dir) && Now([]) == Start()
    {
      args := new ArgTable();
      posn := 0;
      dir := new Entry[1](_ => Entry(0, 0, {}, "", None, "", None, '%', None));
      dirCount := 0;
      maxWidth := 0;
      maxPrecision := 0;
    }

    // An argument given by its index or taken in order
    method TakeIndex(index: Option<Size>, t: ArgType, ghost given: Option<string>) returns (ok: bool, arg: Option<nat>)
      requires args.Valid()
      requires given.Some? ==> All(IsDigit, given.value) && index == Some(IndexOf(given.value))
      requires given.None? ==> index == None
      modifies this`posn, args, args.arg
      ensures args.Valid() && (args.arg == old(args.arg) || fresh(args.arg))
      ensures ok <==> TakeArg(given, old(args.Now()), old(posn), t).Some?
      ensures ok ==> TakeArg(given, old(args.Now()), old(posn), t).value == Numbered(arg, args.Now(), posn)
    {
      var n: Size;
      if index.Some? {
        n := index.value;
      } else {
        n := posn;
        if n == SIZE_MAX {
          return false, None;
        }
        posn := posn + 1;
      }
      ok := args.RegisterArg(n, t);
      arg := Some(n);
    }

    // A '*' with its position, after the '*'
    method TakeStarArg(cp: string) returns (ok: bool, arg: Option<nat>, rest: string)
      requires args.Valid()
      modifies this`posn, args, args.arg
      ensures args.Valid() && (args.arg == old(args.arg) || fresh(args.arg))
      ensures var r := ReadStar(cp);
              && (ok <==> r.Good? && TakeStar(r.value, old(args.Now()), old(posn)).Some?)
              && (ok ==>
                    && rest == r.rest
                    && TakeStar(r.value, old(args.Now()), old(posn)).value == Numbered(arg, args.Now(), posn))
    {
      var bad, index;
      bad, index, rest := ScanPosn(cp);
      if bad {
        return false, None, rest;
      }
      ok, arg := TakeIndex(index, TInt, ReadPosn(cp).value);
    }

    // The field width
    method TakeWidth(cp: string) returns (ok: bool, text: string, arg: Option<nat>, rest: string)
      requires args.Valid()
      modifies this`posn, this`maxWidth, args, args.arg
      ensures args.Valid() && (args.arg == old(args.arg) || fresh(args.arg))
      ensures var r := ReadWidth(cp);
              && (ok <==> r.Good? && TakeStar(r.value, old(args.Now()), old(posn)).Some?)
              && (ok ==>
                    && rest == r.rest && text == ShortText(r.value) && maxWidth == Max(old(maxWidth), |text|)
                    && TakeStar(r.value, old(args.Now()), old(posn)).value == Numbered(arg, args.Now(), posn))
    {
      if cp != "" && cp[0] == '*' {
        if maxWidth < 1 {
          maxWidth := 1;
        }
        text := "*";
        ok, arg, rest := TakeStarArg(cp[1..]);
        return;
      }
      var n := SpanDigits(cp);
      assert cp[..n] == Span(IsDigit, cp);
      if maxWidth < n {
        maxWidth := n;
      }
      return true, cp[..n], None, cp[n..];
    }

    // The precision
    method TakePrecision(cp: string) returns (ok: bool, text: string, arg: Option<nat>, rest: string)
      requires args.Valid()
      modifies this`posn, this`maxPrecision, args, args.arg
      ensures args.Valid() && (args.arg == old(args.arg) || fresh(args.arg))
      ensures var r := ReadPrecision(cp);
              && (ok <==> r.Good? && TakeStar(r.value, old(args.Now()), old(posn)).Some?)
              && (ok ==>
                    && rest == r.rest && text == ShortPrecision(r.value)
                    && maxPrecision == Max(old(maxPrecision), |text|)
                    && TakeStar(r.value, old(args.Now()), old(posn)).value == Numbered(arg, args.Now(), posn))
    {
      if cp == "" || cp[0] != '.' {
        return true, "", None, cp;
      }
      var after := cp[1..];
      if after != "" && after[0] == '*' {
        if maxPrecision < 2 {
          maxPrecision := 2;
        }
        text := ".*";
        ok, arg, rest := TakeStarArg(after[1..]);
        return;
      }
      var n := SpanDigits(after);
      assert after[..n] == Span(IsDigit, after);
      if maxPrecision < n + 1 {
        maxPrecision := n + 1;
      }
      return true, "." + after[..n], None, after[n..];
    }

    // Width and precision
    method TakeAmounts(cp: string)
      returns (ok: bool, width: string, widthArg: Option<nat>, precision: string, precisionArg: Option<nat>,
               rest: string)
      requires args.Valid()
      modifies this`posn, this`maxWidth, this`maxPrecision, args, args.arg
      ensures args.Valid() && (args.arg == old(args.arg) || fresh(args.arg))
      ensures var w := ReadWidth(cp);
              && (ok <==>
                    && w.Good? && ReadPrecision(w.rest).Good?
                    && TakeBoth(w.value, ReadPrecision(w.rest).value, old(args.Now()), old(posn)).Some?)
              && (ok ==>
                    var p := ReadPrecision(w.rest);
                    && rest == p.rest && width == ShortText(w.value) && precision == ShortPrecision(p.value)
                    && maxWidth == Max(old(maxWidth), |width|) && maxPrecision == Max(old(maxPrecision), |precision|)
                    && TakeBoth(w.value, p.value, old(args.Now()), old(posn)).value
                       == Both(widthArg, precisionArg, args.Now(), posn))
    {
      hide ReadWidth, ReadPrecision, TakeStar, ShortText, ShortPrecision, Max;
      precision, precisionArg := "", None;
      ok, width, widthArg, rest := TakeWidth(cp);
      if ok {
        ok, precision, precisionArg, rest := TakePrecision(rest);
      }
    }

    // The modifiers, the conversion character and its argument
    method TakeConversion(cp: string, index: Option<Size>, ghost given: Option<string>)
      returns (ok: bool, conv: char, arg: Option<nat>, rest: string)
      requires args.Valid() && PosnOk(given)
      requires if given.Some? then index == Some(IndexOf(given.value)) else index == None
      modifies this`posn, args, args.arg
      ensures args.Valid() && (args.arg == old(args.arg) || fresh(args.arg))
      ensures var modifiers := Span(IsModifier, cp);
              var s := cp[|modifiers|..];
              && (ok <==>
                    && s != "" && IsConversion(s[0])
                    && TakeMain(given, TypeOf(ModifierBits(modifiers), s[0]), old(args.Now()), old(posn)).Some?)
              && (ok ==>
                    && rest == s[1..] && conv == Conversion(s[0])
                    && TakeMain(given, TypeOf(ModifierBits(modifiers), s[0]), old(args.Now()), old(posn)).value
                       == Numbered(arg, args.Now(), posn))
    {
      hide TypeOf, IsConversion;
      var bits;
      bits, rest := ScanModifiers(cp);
      arg := None;
      if rest == "" || !IsConversion(rest[0]) {
        return false, '%', None, rest;
      }
      var c := rest[0];
      rest := rest[1..];
      var t := TypeOf(bits, c);
      ok := true;
      if t != TNone {
        ok, arg := TakeIndex(index, t, given);
      }
      conv := Conversion(c);
    }

    // One more entry, and room for the next
    method AddEntry(e: Entry) returns (ok: bool)
      requires Valid()
      modifies this`dir, this`dirCount, dir
      ensures dir == old(dir) || fresh(dir)
      ensures ok <==> GrowDirs(old(dirCount) + 1, old(dir.Length)).Some?
      ensures ok ==>
                && Valid() && dir[..dirCount] == old(dir[..dirCount]) + [e]
                && dir.Length == GrowDirs(old(dirCount) + 1, old(dir.Length)).value
    {
      dir[dirCount] := e;
      dirCount := dirCount + 1;
      assert dir[..dirCount] == old(dir[..dirCount]) + [e];
      if dirCount >= dir.Length {
        var room := Xtimes(dir.Length, 2);
        if Xtimes(room, SIZEOF_DIRECTIVE) == SIZE_MAX {
          return false;
        }
        dir := Moved(dir, dirCount, room, e);
      }
      return true;
    }

    // A directive after its '%', which stands at 'start'
    method ReadDirective(cp: string, start: nat, ghost dirs: seq<Dir>) returns (ok: bool, rest: string)
      requires Valid()
      modifies this, args, args.arg, dir
      ensures args.Valid() && (args.arg == old(args.arg) || fresh(args.arg)) && (dir == old(dir) || fresh(dir))
      ensures ok <==> Step(old(Now(dirs)), cp, start).Some?
      ensures ok ==>
                var (st, s) := Step(old(Now(dirs)), cp, start).value;
                Valid() && Now(st.dirs) == st && rest == s
    {
      hide ReadPosn, ReadWidth, ReadPrecision, TakeBoth, TakeMain, GrowDirs, TypeOf, IsConversion, ModifierBits,
          IndexOf;
      hide DirOk, ShortText, ShortPrecision, FlagSet, Conversion, Text, Span, Max, PosnOk, AmountOk;
      ReadDirIsSound(cp);
      var bad, index, flags, width, widthArg, precision, precisionArg, conv, arg;
      bad, index, rest := ScanPosn(cp);
      if bad {
        return false, cp;
      }
      flags, rest := ScanFlags(rest);
      ok, width, widthArg, precision, precisionArg, rest := TakeAmounts(rest);
      if !ok {
        return;
      }
      ok, conv, arg, rest := TakeConversion(rest, index, ReadPosn(cp).value);
      if !ok {
        return;
      }
      var end := start + 1 + (|cp| - |rest|);
      ok := AddEntry(Entry(start, end, flags, width, widthArg, precision, precisionArg, conv, arg));
    }
  }

  // realloc: the first 'count' elements in a larger array
  method Moved<T>(a: array<T>, count: nat, room: nat, filler: T) returns (b: array<T>)
    requires count <= a.Length && count <= room
    ensures fresh(b) && b.Length == room && b[..count] == a[..count]
  {
    b := new T[room](_ => filler);
    for i := 0 to count
      invariant b[..i] == a[..i]
    {
      b[i] := a[i];
      assert b[..i + 1] == b[..i] + [a[i]] && a[..i + 1] == a[..i] + [a[i]];
    }
  }

  // PRINTF_PARSE.  It succeeds on the formats that Parse accepts, fills in both arrays
  // as Parse does, and ends the list of directives with the end of the format.
  method ParseFormat(format: string) returns (ret: int, p: Parser)
    ensures ret == if Parse(format).Some? then 0 else -1
    ensures ret == 0 ==>
              var st := Parse(format).value;
              p.Valid() && p.Now(st.dirs) == st && p.dir[p.dirCount].start == |format|
  {
    hide Step, ReadDir, AddDir, DirOk;
    p := new Parser();
    var cp := format;
    ghost var dirs: seq<Dir> := [];
    assert Parse(format) == ParseFrom(format, 0, Start());
    while cp != ""
      invariant fresh(p) && fresh(p.args) && fresh(p.args.arg) && fresh(p.dir) && p.Valid()
      invariant |cp| <= |format| && RoomOk(p.Now(dirs))
      invariant ParseFrom(cp, |format| - |cp|, p.Now(dirs)) == Parse(format)
      decreases |cp|
    {
      var c := cp[0];
      if c == '%' {
        ghost var step := Step(p.Now(dirs), cp[1..], |format| - |cp|);
        var ok, rest := p.ReadDirective(cp[1..], |format| - |cp|, dirs);
        if !ok {
          return -1, p;
        }
        dirs := step.value.0.dirs;
        cp := rest;
      } else {
        cp := cp[1..];
      }
    }
    EmptyParse(|format|, p.Now(dirs));
    p.dir[p.dirCount] := p.dir[p.dirCount].(start := |format|);
    assert p.Now(dirs) == Parse(format).value;
    return 0, p;
  }

  lemma EmptyParse(at: nat, st: State)
    requires RoomOk(st)
    ensures ParseFrom("", at, st) == Some(st)
  {
  }
}
