// What directives mean: the types of their arguments, the order in which arguments are
// taken, and the formats that are handed to snprintf (intl/printf-parse.c,
// intl/vasnprintf.c).
module PrintfFormats {
  import opened Words
  import opened Sequences
  import opened Numerals
  import opened XSize
  import opened PrintfGrammar
  import opened PrintfArgs
  import opened PrintfParse
  import opened Vasnprintf

  // ---------------------------------------------------------------
  // Types

  // The sizes of integers; intmax_t is a long long, and size_t and ptrdiff_t are ints
  lemma IntegerTypes(conv: char)
    ensures conv in "di" ==>
              && TypeOf(ModifierBits("hh"), conv) == TSChar && TypeOf(ModifierBits("h"), conv) == TShort
              && TypeOf(ModifierBits(""), conv) == TypeOf(ModifierBits("z"), conv) == TInt
              && TypeOf(ModifierBits("t"), conv) == TypeOf(ModifierBits("Z"), conv) == TInt
              && TypeOf(ModifierBits("l"), conv) == TLong
              && TypeOf(ModifierBits("ll"), conv) == TypeOf(ModifierBits("L"), conv) == TLongLong
              && TypeOf(ModifierBits("j"), conv) == TLongLong
    ensures conv in "ouxX" ==>
              && TypeOf(ModifierBits("hh"), conv) == TUChar && TypeOf(ModifierBits("h"), conv) == TUShort
              && TypeOf(ModifierBits(""), conv) == TypeOf(ModifierBits("z"), conv) == TUInt
              && TypeOf(ModifierBits("t"), conv) == TypeOf(ModifierBits("Z"), conv) == TUInt
              && TypeOf(ModifierBits("l"), conv) == TULong
              && TypeOf(ModifierBits("ll"), conv) == TypeOf(ModifierBits("L"), conv) == TULongLong
              && TypeOf(ModifierBits("j"), conv) == TULongLong
    ensures conv == 'n' ==>
              && TypeOf(ModifierBits("hh"), conv) == TCountSChar && TypeOf(ModifierBits("h"), conv) == TCountShort
              && TypeOf(ModifierBits(""), conv) == TCountInt && TypeOf(ModifierBits("l"), conv) == TCountLong
              && TypeOf(ModifierBits("ll"), conv) == TCountLongLong
  {
    BitsOfModifiers();
  }

  lemma OtherTypes(conv: char)
    ensures conv in "fFeEgGaA" ==>
              && TypeOf(ModifierBits(""), conv) == TypeOf(ModifierBits("l"), conv) == TDouble
              && TypeOf(ModifierBits("L"), conv) == TLongDouble
    ensures TypeOf(ModifierBits(""), 'c') == TChar && TypeOf(ModifierBits("l"), 'c') == TWideChar
    ensures TypeOf(ModifierBits(""), 's') == TString && TypeOf(ModifierBits("l"), 's') == TWideString
    ensures TypeOf(ModifierBits(""), 'C') == TWideChar && TypeOf(ModifierBits(""), 'S') == TWideString
    ensures TypeOf(ModifierBits(""), 'p') == TPointer && TypeOf(ModifierBits(""), '%') == TNone
  {
    BitsOfModifiers();
  }

  lemma BitsOfModifiers()
    ensures ModifierBits("") == Bits(false, false, false, 0)
    ensures ModifierBits("h") == Bits(true, false, false, 0) && ModifierBits("hh") == Bits(true, true, false, 0)
    ensures ModifierBits("l") == Bits(false, false, false, 1) && ModifierBits("ll") == Bits(false, false, false, 2)
    ensures ModifierBits("L") == Bits(false, false, true, 0) && ModifierBits("j") == Bits(false, false, false, 2)
    ensures ModifierBits("z") == ModifierBits("Z") == ModifierBits("t") == Bits(false, false, false, 0)
  {
    assert "hh"[..1] == "h" && "ll"[..1] == "l" && "h"[..0] == "" && "l"[..0] == "";
    assert "L"[..0] == "" && "j"[..0] == "" && "z"[..0] == "" && "Z"[..0] == "" && "t"[..0] == "";
  }

  // ---------------------------------------------------------------
  // The order of arguments

  // The position written as a number counts from one
  lemma PositionsCountFromOne(k: nat, args: Args, posn: Size, t: ArgType)
    requires 0 < k < SIZE_MAX && |args.types| <= args.room
    ensures var r := TakeArg(Some(Numeral(k)), args, posn, t);
            r.Some? ==> r.value.arg == Some(k - 1) && r.value.posn == posn
  {
    NumeralDenotes(k);
  }

  // Without positions, the width, the precision and the value take the next arguments,
  // in this order
  lemma ArgumentsInOrder(st: State, start: nat, end: nat, d: Dir)
    requires RoomOk(st) && DirOk(d) && AddDir(st, start, end, d).Some?
    requires d.posn == None && (d.width.Star? ==> d.width.posn == None)
    requires d.precision.Star? ==> d.precision.posn == None
    ensures var st' := AddDir(st, start, end, d).value;
            var e := st'.entries[|st.entries|];
            var forWidth, forPrecision := if d.width.Star? then 1 else 0, if d.precision.Star? then 1 else 0;
            && e.widthArg == (if d.width.Star? then Some(st.posn) else None)
            && e.precisionArg == (if d.precision.Star? then Some(st.posn + forWidth) else None)
            && e.arg == (if d.conv == '%' then None else Some(st.posn + forWidth + forPrecision))
            && st'.posn == st.posn + forWidth + forPrecision + if d.conv == '%' then 0 else 1
  {
    hide Register, BySize, ShortText, ShortPrecision, FlagSet, Conversion, ModifierBits;
    ConversionHasType(ModifierBits(d.modifiers), d.conv);
  }

  // They are handed on in the same order
  lemma PrefixesInOrder(r: Renderer, e: Entry, width: nat, precision: nat)
    ensures e.widthArg == Some(width) && e.precisionArg == Some(precision) ==>
              Prefixes(r, e) == [r.intArg(width), r.intArg(precision)]
    ensures e.widthArg == Some(width) && e.precisionArg == None ==> Prefixes(r, e) == [r.intArg(width)]
    ensures e.widthArg == None && e.precisionArg == Some(precision) ==> Prefixes(r, e) == [r.intArg(precision)]
    ensures e.widthArg == None && e.precisionArg == None ==> Prefixes(r, e) == []
  {
  }

  // ---------------------------------------------------------------
  // The formats that are handed on

  // The type after the default promotions
  function Promoted(t: ArgType): ArgType {
    match t
    case TSChar => TInt
    case TShort => TInt
    case TUChar => TUInt
    case TUShort => TUInt
    case other => other
  }

  function WithoutPosn(a: Amount): Amount {
    if a.Star? then Star(None) else a
  }

  lemma {:induction false} FlagsComeBack(flags: set<char>)
    requires forall c :: c in flags ==> IsFlag(c)
    ensures All(IsFlag, FlagsText(flags)) && FlagSet(FlagsText(flags)) == flags
  {
    assert forall c :: c in FlagSet(FlagsText(flags)) ==> c in flags;
    forall c | c in flags
      ensures c in FlagsText(flags)
    {
      assert c in FlagText(flags, c);
    }
  }

  lemma ModifiersComeBack(b: Bits, conv: char)
    requires IsConversion(conv) && conv != '%' && conv != 'n'
    ensures var t := TypeOf(b, conv);
            && All(IsModifier, ModifierText(t))
            && TypeOf(ModifierBits(ModifierText(t)), Conversion(conv)) == Promoted(t)
  {
    BitsOfModifiers();
  }

  // Behind its '%' the rebuilt format is one directive: without positions, with the
  // same flags, width, precision and conversion, and for an argument of the same type
  lemma RebuiltIsRead(types: seq<ArgType>, e: Entry, d: Dir) returns (d': Dir)
    requires DirOk(d) && Agrees(types, e, d) && d.conv != '%' && d.conv != 'n'
    ensures var t := TypeOf(ModifierBits(d.modifiers), d.conv);
            && Rebuilt(e, t) == "%" + Text(d') && DirOk(d') && ReadDir(Text(d')) == Good(d', "")
            && TypeOf(ModifierBits(d'.modifiers), d'.conv) == Promoted(t)
    ensures d'.posn == None && d'.width == WithoutPosn(d.width) && d'.precision == WithoutPosn(d.precision)
    ensures (set c | c in d'.flags) == (set c | c in d.flags)
    ensures d'.conv == if d.conv == 'C' then 'c' else if d.conv == 'S' then 's' else d.conv
  {
    hide FlagsText, TypeOf, ModifierBits, ModifierText, ReadDir;
    var b := ModifierBits(d.modifiers);
    var t := TypeOf(b, d.conv);
    FlagsComeBack(e.flags);
    ModifiersComeBack(b, d.conv);
    d' := Dir(None, FlagsText(e.flags), WithoutPosn(d.width), WithoutPosn(d.precision), ModifierText(t),
              e.conversion);
    ReadDirIsComplete(d', "");
    assert Text(d') + "" == Text(d');
    TextIsFlat(d', e.width, e.precision);
  }

  lemma TextIsFlat(d: Dir, width: string, precision: string)
    requires d.posn == None && width == WidthText(d.width) && precision == PrecisionText(d.precision)
    ensures "%" + d.flags + width + precision + d.modifiers + [d.conv] == "%" + Text(d)
  {
    var tail := d.modifiers + [d.conv];
    Unmarked(d.flags + (width + (precision + tail)));
    AssociateFour("%" + d.flags, width, precision, tail);
    Associate("%", d.flags, width + (precision + tail));
    Associate("%" + d.flags + width + precision, d.modifiers, [d.conv]);
  }

  // ---------------------------------------------------------------
  // How directives are written

  lemma CharactersOfDirectives(c: char)
    ensures IsFlag(c) <==> c in "'-+ #0"
    ensures IsModifier(c) <==> c in "hLljzZt"
    ensures IsConversion(c) <==> c in "diouxXfFeEgGaAcCsSpn%"
  {
    assert c in "'-+ #0" <==> c == '\'' || c == '-' || c == '+' || c == ' ' || c == '#' || c == '0';
    ConversionsListed(c);
  }

  lemma ConversionsListed(c: char)
    ensures IsConversion(c) <==> c in "diouxXfFeEgGaAcCsSpn%"
  {
  }

  lemma DirectivesAreWritten(posn: string, flags: string, width: string, precision: string, modifiers: string,
                             conv: char)
    ensures Text(Dir(Some(posn), flags, Star(Some(width)), Star(Some(precision)), modifiers, conv))
            == (posn + "$")
               + (flags + (("*" + (width + "$")) + (("." + ("*" + (precision + "$"))) + (modifiers + [conv]))))
    ensures Text(Dir(None, flags, Number(width), Number(precision), modifiers, conv))
            == flags + (width + (("." + precision) + (modifiers + [conv])))
    ensures Text(Dir(None, flags, Star(None), Star(None), modifiers, conv))
            == flags + ("*" + (".*" + (modifiers + [conv])))
    ensures Text(Dir(None, flags, Absent, Absent, modifiers, conv)) == flags + (modifiers + [conv])
  {
    Unmarked(flags + (width + (("." + precision) + (modifiers + [conv]))));
    Unmarked(flags + ("*" + (".*" + (modifiers + [conv]))));
    Unmarked(modifiers + [conv]);
    Unmarked(flags + (modifiers + [conv]));
    assert "*" + "" == "*" && "." + "*" == ".*";
  }

  lemma Unmarked(s: string)
    ensures "" + s == s
  {
  }
}
