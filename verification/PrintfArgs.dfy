// The arguments that a format string refers to (intl/printf-parse.c): their types and
// their numbers.
module PrintfArgs {
  import opened Words
  import opened Numerals
  import opened XSize
  import opened PrintfGrammar

  datatype ArgType =
    | TNone | TSChar | TUChar | TShort | TUShort | TInt | TUInt | TLong | TULong | TLongLong | TULongLong
    | TDouble | TLongDouble | TChar | TWideChar | TString | TWideString | TPointer
    | TCountSChar | TCountShort | TCountInt | TCountLong | TCountLongLong

  // Sizes in bytes on the machine described by config.h, with 32-bit pointers
  const SIZEOF_INT: nat := 4
  const SIZEOF_LONG: nat := 4
  const SIZEOF_SIZE_T: nat := 4
  const SIZEOF_PTRDIFF_T: nat := 4
  const SIZEOF_INTMAX_T: nat := 8
  const SIZEOF_ARGUMENT: nat := 16
  const SIZEOF_DIRECTIVE: nat := 44

  // The local variable 'flags' by its bits: 1, 2, 4, and a number of eights
  datatype Bits = Bits(one: bool, two: bool, four: bool, eights: nat)

  // The eights that a type of this size counts for
  function Eights(size: nat, long: nat, int': nat): nat {
    if size > long then 2 else if size > int' then 1 else 0
  }

  function AddModifier(b: Bits, c: char): Bits {
    match c
    case 'h' => if b.one then b.(two := true) else b.(one := true)
    case 'L' => b.(four := true)
    case 'l' => b.(eights := b.eights + 1)
    case 'j' => b.(eights := b.eights + Eights(SIZEOF_INTMAX_T, SIZEOF_LONG, SIZEOF_INT))
    case 't' => b.(eights := b.eights + Eights(SIZEOF_PTRDIFF_T, SIZEOF_LONG, SIZEOF_INT))
    case _ => b.(eights := b.eights + Eights(SIZEOF_SIZE_T, SIZEOF_LONG, SIZEOF_INT))
  }

  function ModifierBits(modifiers: string): Bits {
    if modifiers == "" then Bits(false, false, false, 0)
    else AddModifier(ModifierBits(modifiers[..|modifiers| - 1]), modifiers[|modifiers| - 1])
  }

  function BySize(b: Bits, tiny: ArgType, short: ArgType, plain: ArgType, long: ArgType, longlong: ArgType): ArgType {
    if b.eights >= 2 || b.four then longlong
    else if b.eights >= 1 then long
    else if b.two then tiny
    else if b.one then short
    else plain
  }

  // The type of the argument of a conversion; TNone for '%'
  function TypeOf(b: Bits, conv: char): ArgType {
    match conv
    case 'd' => BySize(b, TSChar, TShort, TInt, TLong, TLongLong)
    case 'i' => BySize(b, TSChar, TShort, TInt, TLong, TLongLong)
    case 'o' => BySize(b, TUChar, TUShort, TUInt, TULong, TULongLong)
    case 'u' => BySize(b, TUChar, TUShort, TUInt, TULong, TULongLong)
    case 'x' => BySize(b, TUChar, TUShort, TUInt, TULong, TULongLong)
    case 'X' => BySize(b, TUChar, TUShort, TUInt, TULong, TULongLong)
    case 'c' => if b.eights >= 1 then TWideChar else TChar
    case 'C' => TWideChar
    case 's' => if b.eights >= 1 then TWideString else TString
    case 'S' => TWideString
    case 'p' => TPointer
    case 'n' => BySize(b, TCountSChar, TCountShort, TCountInt, TCountLong, TCountLongLong)
    case '%' => TNone
    case _ => if b.eights >= 2 || b.four then TLongDouble else TDouble
  }

  // 'C' and 'S' are kept as 'c' and 's'
  function Conversion(conv: char): char {
    if conv == 'C' then 'c' else if conv == 'S' then 's' else conv
  }

  // The arguments seen so far and the room for them
  datatype Args = Args(types: seq<ArgType>, room: Size)

  // The room once there is place for argument n; None if there is not enough memory
  function Grow(room: Size, n: Size): (r: Option<Size>)
    ensures r.Some? ==> r.value > n && r.value >= room
  {
    if n < room then Some(room)
    else
      var twice := Xtimes(room, 2);
      var more := if twice <= n then Xsum(n, 1) else twice;
      if Xtimes(more, SIZEOF_ARGUMENT) == SIZE_MAX then None else Some(more)
  }

  function Padded(types: seq<ArgType>, n: nat): (r: seq<ArgType>)
    ensures types <= r && |r| == if n < |types| then |types| else n + 1
    ensures forall i :: |types| <= i < |r| ==> r[i] == TNone
    decreases n + 1 - |types|
  {
    if n < |types| then types else Padded(types + [TNone], n)
  }

  // REGISTER_ARG: one type for each argument
  function Register(a: Args, n: Size, t: ArgType): (r: Option<Args>)
    requires |a.types| <= a.room
    ensures r.Some? ==> |r.value.types| <= r.value.room
  {
    match Grow(a.room, n)
    case None => None
    case Some(more) =>
      var types := Padded(a.types, n);
      if types[n] == TNone then Some(Args(types[n := t], more))
      else if types[n] == t then Some(Args(types, more))
      else None
  }

  // A type once given stays
  ghost predicate Extends(old': seq<ArgType>, types: seq<ArgType>) {
    |old'| <= |types| && forall i :: 0 <= i < |old'| && old'[i] != TNone ==> types[i] == old'[i]
  }

  // Argument n has type t
  predicate Refers(types: seq<ArgType>, n: nat, t: ArgType) {
    n < |types| && types[n] == t
  }

  lemma RegisterKeeps(a: Args, n: Size, t: ArgType)
    requires |a.types| <= a.room && t != TNone && Register(a, n, t).Some?
    ensures var types := Register(a, n, t).value.types;
            Extends(a.types, types) && Refers(types, n, t)
  {
  }

  // An argument that two directives read as different types, and only such a one or
  // a lack of memory, is refused
  lemma RegisterRefuses(a: Args, n: Size, t: ArgType)
    requires |a.types| <= a.room
    ensures Register(a, n, t).None? <==>
            Grow(a.room, n).None? || (n < |a.types| && a.types[n] != TNone && a.types[n] != t)
  {
  }

  // ---------------------------------------------------------------
  // Numbering.  'posn' counts the arguments taken in order.

  // The index given as digits, counted from 0
  function IndexOf(digits: string): Size
    requires All(IsDigit, digits)
  {
    var n := Saturating(digits);
    if n == 0 then 0 else n - 1
  }

  datatype Numbered = Numbered(arg: Option<nat>, args: Args, posn: Size)

  function TakeArg(given: Option<string>, args: Args, posn: Size, t: ArgType): Option<Numbered>
    requires given.Some? ==> All(IsDigit, given.value)
    requires |args.types| <= args.room
  {
    if given.None? && posn == SIZE_MAX then None
    else
      var n := if given.Some? then IndexOf(given.value) else posn;
      match Register(args, n, t)
      case None => None
      case Some(args') => Some(Numbered(Some(n), args', if given.Some? then posn else posn + 1))
  }

  function TakeStar(a: Amount, args: Args, posn: Size): Option<Numbered>
    requires AmountOk(a) && |args.types| <= args.room
  {
    if a.Star? then TakeArg(a.posn, args, posn, TInt) else Some(Numbered(None, args, posn))
  }

  function TakeMain(given: Option<string>, t: ArgType, args: Args, posn: Size): Option<Numbered>
    requires PosnOk(given) && |args.types| <= args.room
  {
    if t == TNone then Some(Numbered(None, args, posn)) else TakeArg(given, args, posn, t)
  }
}
