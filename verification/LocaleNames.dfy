// Which masks name the same locale file, and which files inherit from themselves
// (intl/l10nflist.c).
module LocaleNames {
  import opened MaskBits
  import opened LocalePool

  // ---------------------------------------------------------------
  // A mask by what its bits stand for

  datatype Flags = Flags(revision: bool, sponsor: bool, special: bool, normalized: bool, codeset: bool, territory: bool,
                         audience: bool, modifier: bool)

  function Two(low: bool, high: bool): nat {
    (if low then 1 else 0) + if high then 2 else 0
  }

  function MaskOf(f: Flags): nat {
    Byte(Two(f.revision, f.sponsor), Two(f.special, f.normalized), Two(f.codeset, f.territory),
         Two(f.audience, f.modifier))
  }

  function Both(f: Flags, g: Flags): Flags {
    Flags(f.revision && g.revision, f.sponsor && g.sponsor, f.special && g.special, f.normalized && g.normalized,
          f.codeset && g.codeset, f.territory && g.territory, f.audience && g.audience, f.modifier && g.modifier)
  }

  lemma AndTwo(a: bool, b: bool, a': bool, b': bool)
    ensures And(Two(a, b), Two(a', b')) == Two(a && a', b && b')
  {
    AndStep(Two(a, b), Two(a', b'));
    AndStep(Two(a, b) / 2, Two(a', b') / 2);
  }

  lemma {:induction false} AndMasks(f: Flags, g: Flags, m: nat, n: nat)
    requires m == MaskOf(f) && n == MaskOf(g)
    ensures And(m, n) == MaskOf(Both(f, g))
  {
    hide And, Number, Byte, Two;
    var a, b, c, d := Two(f.revision, f.sponsor), Two(f.special, f.normalized), Two(f.codeset, f.territory),
        Two(f.audience, f.modifier);
    var a', b', c', d' := Two(g.revision, g.sponsor), Two(g.special, g.normalized), Two(g.codeset, g.territory),
        Two(g.audience, g.modifier);
    TwosAreDigits(f);
    TwosAreDigits(g);
    AndNumbers(a, b, c, d, 0, a', b', c', d', 0);
    AndZero(0);
    NumberIsByte(a, b, c, d, 0);
    NumberIsByte(a', b', c', d', 0);
    NumberIsByte(And(a, a'), And(b, b'), And(c, c'), And(d, d'), 0);
    AndTwo(f.revision, f.sponsor, g.revision, g.sponsor);
    AndTwo(f.special, f.normalized, g.special, g.normalized);
    AndTwo(f.codeset, f.territory, g.codeset, g.territory);
    AndTwo(f.audience, f.modifier, g.audience, g.modifier);
  }

  lemma TwosAreDigits(f: Flags)
    ensures Two(f.revision, f.sponsor) < 4 && Two(f.special, f.normalized) < 4 && Two(f.codeset, f.territory) < 4
        && Two(f.audience, f.modifier) < 4
  {
  }

  lemma DigitIsTwo(d: nat) returns (low: bool, high: bool)
    requires d < 4
    ensures Two(low, high) == d
  {
    low, high := d % 2 == 1, d >= 2;
  }

  lemma FlagsFor(m: nat) returns (f: Flags)
    requires m < 256
    ensures m == MaskOf(f)
  {
    hide Two, Byte;
    var a, b, c, d := ByteOf(m);
    var b0, b1 := DigitIsTwo(a);
    var b2, b3 := DigitIsTwo(b);
    var b4, b5 := DigitIsTwo(c);
    var b6, b7 := DigitIsTwo(d);
    f := Flags(b0, b1, b2, b3, b4, b5, b6, b7);
  }

  lemma TwoTells(low: bool, high: bool, low': bool, high': bool)
    ensures Two(low, high) == Two(low', high') ==> low == low' && high == high'
  {
  }

  lemma JoinTells(a: nat, more: nat, b: nat, more': nat)
    requires a < 4 && b < 4 && a + 4 * more == b + 4 * more'
    ensures a == b && more == more'
  {
  }

  lemma ByteTells(a: nat, b: nat, c: nat, d: nat, a': nat, b': nat, c': nat, d': nat)
    requires a < 4 && b < 4 && c < 4 && d < 4 && a' < 4 && b' < 4 && c' < 4 && d' < 4
    requires Byte(a, b, c, d) == Byte(a', b', c', d')
    ensures a == a' && b == b' && c == c' && d == d'
  {
    JoinTells(a, b + 4 * c + 16 * d, a', b' + 4 * c' + 16 * d');
    JoinTells(b, c + 4 * d, b', c' + 4 * d');
    JoinTells(c, d, c', d');
  }

  lemma {:induction false} SameMask(f: Flags, g: Flags)
    ensures MaskOf(f) == MaskOf(g) <==> f == g
  {
    hide Two, Byte;
    var a, b, c, d := Two(f.revision, f.sponsor), Two(f.special, f.normalized), Two(f.codeset, f.territory),
        Two(f.audience, f.modifier);
    var a', b', c', d' := Two(g.revision, g.sponsor), Two(g.special, g.normalized), Two(g.codeset, g.territory),
        Two(g.audience, g.modifier);
    TwosAreDigits(f);
    TwosAreDigits(g);
    if MaskOf(f) == MaskOf(g) {
      ByteTells(a, b, c, d, a', b', c', d');
      TwoTells(f.revision, f.sponsor, g.revision, g.sponsor);
      TwoTells(f.special, f.normalized, g.special, g.normalized);
      TwoTells(f.codeset, f.territory, g.codeset, g.territory);
      TwoTells(f.audience, f.modifier, g.audience, g.modifier);
    }
  }

  const NONE: Flags := Flags(false, false, false, false, false, false, false, false)

  lemma NoneIsZero()
    ensures MaskOf(NONE) == 0
  {
  }

  lemma {:induction false} HasFlags(f: Flags, g: Flags)
    ensures Has(MaskOf(f), MaskOf(g)) <==> Both(f, g) != NONE
  {
    hide And, MaskOf;
    AndMasks(f, g, MaskOf(f), MaskOf(g));
    NoneIsZero();
    SameMask(Both(f, g), NONE);
  }

  lemma {:induction false} WithinFlags(f: Flags, g: Flags)
    ensures Within(MaskOf(g), MaskOf(f)) <==> Both(g, f) == g
  {
    hide And, MaskOf;
    AndMasks(g, f, MaskOf(g), MaskOf(f));
    SameMask(Both(g, f), g);
  }

  // The single bits
  lemma HasSingle(f: Flags)
    ensures Has(MaskOf(f), CEN_REVISION) == f.revision && Has(MaskOf(f), CEN_SPONSOR) == f.sponsor
    ensures Has(MaskOf(f), CEN_SPECIAL) == f.special && Has(MaskOf(f), XPG_NORM_CODESET) == f.normalized
    ensures Has(MaskOf(f), XPG_CODESET) == f.codeset && Has(MaskOf(f), TERRITORY) == f.territory
    ensures Has(MaskOf(f), CEN_AUDIENCE) == f.audience && Has(MaskOf(f), XPG_MODIFIER) == f.modifier
  {
    hide Has;
    assert MaskOf(NONE.(revision := true)) == CEN_REVISION && MaskOf(NONE.(sponsor := true)) == CEN_SPONSOR;
    assert MaskOf(NONE.(special := true)) == CEN_SPECIAL && MaskOf(NONE.(normalized := true)) == XPG_NORM_CODESET;
    assert MaskOf(NONE.(codeset := true)) == XPG_CODESET && MaskOf(NONE.(territory := true)) == TERRITORY;
    assert MaskOf(NONE.(audience := true)) == CEN_AUDIENCE && MaskOf(NONE.(modifier := true)) == XPG_MODIFIER;
    hide MaskOf;
    HasFlags(f, NONE.(revision := true));
    HasFlags(f, NONE.(sponsor := true));
    HasFlags(f, NONE.(special := true));
    HasFlags(f, NONE.(normalized := true));
    HasFlags(f, NONE.(codeset := true));
    HasFlags(f, NONE.(territory := true));
    HasFlags(f, NONE.(audience := true));
    HasFlags(f, NONE.(modifier := true));
  }

  // The sets of bits that are tested together
  lemma HasAny(f: Flags)
    ensures Has(MaskOf(f), XPG_MODIFIER + CEN_AUDIENCE) <==> f.modifier || f.audience
    ensures Has(MaskOf(f), CEN_SPONSOR + CEN_REVISION) <==> f.sponsor || f.revision
    ensures Has(MaskOf(f), XPG_CODESET + XPG_NORM_CODESET) <==> f.codeset || f.normalized
    ensures Has(MaskOf(f), CEN_SPECIFIC) <==> f.revision || f.sponsor || f.special || f.audience
    ensures Has(MaskOf(f), XPG_SPECIFIC) <==> f.codeset || f.normalized || f.modifier
  {
    hide Has;
    var cen := Flags(true, true, true, false, false, false, true, false);
    var xpg := Flags(false, false, false, true, true, false, false, true);
    assert MaskOf(NONE.(modifier := true, audience := true)) == XPG_MODIFIER + CEN_AUDIENCE;
    assert MaskOf(NONE.(sponsor := true, revision := true)) == CEN_SPONSOR + CEN_REVISION;
    assert MaskOf(NONE.(codeset := true, normalized := true)) == XPG_CODESET + XPG_NORM_CODESET;
    assert MaskOf(cen) == Byte(3, 1, 0, 1) == CEN_SPECIFIC;
    assert MaskOf(xpg) == Byte(0, 2, 1, 2) == XPG_SPECIFIC;
    hide MaskOf;
    HasFlags(f, NONE.(modifier := true, audience := true));
    HasFlags(f, NONE.(sponsor := true, revision := true));
    HasFlags(f, NONE.(codeset := true, normalized := true));
    HasFlags(f, cen);
    HasFlags(f, xpg);
  }

  predicate LegalFlags(g: Flags, f: Flags) {
    && Both(g, f) == g
    && (!(g.revision || g.sponsor || g.special || g.audience) || !(g.codeset || g.normalized || g.modifier))
    && (!g.codeset || !g.normalized)
  }

  lemma LegalByFlags(f: Flags, g: Flags)
    ensures Legal(MaskOf(g), MaskOf(f)) <==> LegalFlags(g, f)
  {
    hide Has, MaskOf, Within;
    WithinFlags(f, g);
    HasSingle(g);
    HasAny(g);
  }

  // ---------------------------------------------------------------
  // The parts of a file name

  function Part(present: bool, text: string): string {
    if present then text else ""
  }

  function ModifierPart(p: Parts, f: Flags): string {
    Part(f.modifier || f.audience, (if f.audience then "+" else "@") + p.modifier)
  }

  function SponsorPart(p: Parts, f: Flags): string {
    Part(f.sponsor || f.revision, "," + Part(f.sponsor, p.sponsor) + Part(f.revision, "_" + p.revision))
  }

  function FrontPart(p: Parts, f: Flags): string {
    p.language + Part(f.territory, "_" + p.territory) + Part(f.codeset, "." + p.codeset)
    + Part(f.normalized, "." + p.normalized)
  }

  function BackPart(p: Parts, f: Flags): string {
    Part(f.special, "+" + p.special) + SponsorPart(p, f) + ("/" + p.filename)
  }

  // The file name behind the directories
  function Named(p: Parts, f: Flags): string {
    FrontPart(p, f) + ModifierPart(p, f) + BackPart(p, f)
  }

  lemma Grouped(d: string, l: string, t: string, c: string, n: string, m: string, s: string, e: string, file: string)
    ensures d + l + t + c + n + m + s + e + "/" + file == d + ((l + t + c + n) + m + (s + e + ("/" + file)))
  {
  }

  lemma NameByFlags(p: Parts, dirs: seq<string>, f: Flags)
    ensures FileName(p, dirs, MaskOf(f)) == DirText(Effective(p, dirs)) + Named(p, f)
  {
    hide Has, MaskOf, DirText, Effective;
    HasSingle(f);
    HasAny(f);
    Grouped(DirText(Effective(p, dirs)), p.language, Part(f.territory, "_" + p.territory),
            Part(f.codeset, "." + p.codeset),
            Part(f.normalized, "." + p.normalized), ModifierPart(p, f), Part(f.special, "+" + p.special),
            SponsorPart(p, f), p.filename);
  }

  // The bits of f that are not in g add nothing
  predicate AddsNothing(p: Parts, f: Flags, g: Flags) {
    && f.territory == g.territory && f.codeset == g.codeset && f.normalized == g.normalized && f.special == g.special
    && f.audience == g.audience && f.revision == g.revision
    && (f.modifier != g.modifier ==> f.audience)
    && (f.sponsor != g.sponsor ==> f.revision && p.sponsor == "")
  }

  lemma PartsShrink(p: Parts, f: Flags, g: Flags)
    requires Both(g, f) == g
    ensures |FrontPart(p, g)| <= |FrontPart(p, f)| && |ModifierPart(p, g)| <= |ModifierPart(p, f)|
    ensures |BackPart(p, g)| <= |BackPart(p, f)|
    ensures |FrontPart(p, g)| == |FrontPart(p, f)| ==>
              f.territory == g.territory && f.codeset == g.codeset && f.normalized == g.normalized
    ensures |ModifierPart(p, g)| == |ModifierPart(p, f)| ==> ((f.modifier || f.audience) == (g.modifier || g.audience))
    ensures |BackPart(p, g)| == |BackPart(p, f)| ==>
              f.special == g.special && f.revision == g.revision
                  && (f.sponsor != g.sponsor ==> f.revision && p.sponsor == "")
  {
    assert g.territory ==> f.territory;
    assert g.sponsor ==> f.sponsor;
    assert g.revision ==> f.revision;
    assert g.audience ==> f.audience;
  }

  // A concatenation of three tells its parts once it tells how long they are
  lemma ThreeTell(a: string, b: string, c: string, a': string, b': string, c': string)
    requires |a'| <= |a| && |b'| <= |b| && |c'| <= |c| && a + b + c == a' + b' + c'
    ensures a == a' && b == b' && c == c'
  {
    assert (a + b + c)[..|a|] == a && (a' + b' + c')[..|a'|] == a';
    assert (a + b + c)[|a|..][..|b|] == b && (a' + b' + c')[|a'|..][..|b'|] == b';
    assert (a + b + c)[|a + b|..] == c && (a' + b' + c')[|a' + b'|..] == c';
  }

  // A file name is told from that of a smaller mask, unless the bits add nothing
  lemma NamedTells(p: Parts, f: Flags, g: Flags)
    requires Both(g, f) == g
    ensures |Named(p, g)| <= |Named(p, f)|
    ensures Named(p, f) == Named(p, g) <==> AddsNothing(p, f, g)
  {
    PartsShrink(p, f, g);
    hide FrontPart, BackPart, ModifierPart;
    if Named(p, f) == Named(p, g) {
      ThreeTell(FrontPart(p, f), ModifierPart(p, f), BackPart(p, f), FrontPart(p, g), ModifierPart(p, g),
                BackPart(p, g));
      ModifierTells(p, f, g);
    } else if AddsNothing(p, f, g) {
      PartsAgree(p, f, g);
    }
  }

  lemma ModifierTells(p: Parts, f: Flags, g: Flags)
    requires Both(g, f) == g && ModifierPart(p, f) == ModifierPart(p, g)
    ensures f.audience == g.audience && (f.modifier != g.modifier ==> f.audience)
  {
    assert g.audience ==> f.audience;
    assert g.modifier ==> f.modifier;
    if f.modifier || f.audience {
      assert ModifierPart(p, f)[0] == if f.audience then '+' else '@';
      assert ModifierPart(p, g) != "";
      assert ModifierPart(p, g)[0] == if g.audience then '+' else '@';
    }
  }

  lemma PartsAgree(p: Parts, f: Flags, g: Flags)
    requires AddsNothing(p, f, g)
    ensures FrontPart(p, f) == FrontPart(p, g) && ModifierPart(p, f) == ModifierPart(p, g)
    ensures BackPart(p, f) == BackPart(p, g)
  {
  }

  // ---------------------------------------------------------------
  // The same on masks

  // The bits of 'mask' that are not in 'cnt' do not show in a file name
  predicate Hidden(p: Parts, mask: nat, cnt: nat) {
    && (Has(mask, TERRITORY) <==> Has(cnt, TERRITORY)) && (Has(mask, XPG_CODESET) <==> Has(cnt, XPG_CODESET))
    && (Has(mask, XPG_NORM_CODESET) <==> Has(cnt, XPG_NORM_CODESET))
    && (Has(mask, CEN_SPECIAL) <==> Has(cnt, CEN_SPECIAL))
    && (Has(mask, CEN_AUDIENCE) <==> Has(cnt, CEN_AUDIENCE)) && (Has(mask, CEN_REVISION) <==> Has(cnt, CEN_REVISION))
    && (Has(mask, XPG_MODIFIER) != Has(cnt, XPG_MODIFIER) ==> Has(mask, CEN_AUDIENCE))
    && (Has(mask, CEN_SPONSOR) != Has(cnt, CEN_SPONSOR) ==> Has(mask, CEN_REVISION) && p.sponsor == "")
  }

  // Two masks, one within the other, name one file exactly if they differ at most in
  // the modifier beside an audience and in an empty sponsor beside a revision
  lemma NamesAgree(p: Parts, dirs: seq<string>, mask: nat, cnt: nat)
    requires mask < 256 && Within(cnt, mask)
    ensures FileName(p, dirs, mask) == FileName(p, dirs, cnt) <==> Hidden(p, mask, cnt)
  {
    hide Has, MaskOf, FileName, Named, Within, DirText;
    WithinHalf(cnt, mask);
    var f := FlagsFor(mask);
    var g := FlagsFor(cnt);
    WithinFlags(f, g);
    HasSingle(f);
    HasSingle(g);
    NameByFlags(p, dirs, f);
    NameByFlags(p, dirs, g);
    NamedTells(p, f, g);
    SameEnd(DirText(Effective(p, dirs)), Named(p, f), Named(p, g));
  }

  lemma SameEnd(d: string, a: string, b: string)
    ensures d + a == d + b <==> a == b
  {
    assert (d + a)[|d|..] == a && (d + b)[|d|..] == b;
  }

  // A list of directories makes a longer name than any of them
  lemma {:induction false} ListIsLonger(dirs: seq<string>, i: nat)
    requires |dirs| > 1 && i < |dirs|
    ensures |DirText(dirs)| > |dirs[i]| + 1
  {
    if |dirs| > 2 {
      ListIsLonger(dirs[1..], if i == 0 then 0 else i - 1);
    }
  }

  lemma ListTells(p: Parts, dirs: seq<string>, i: nat, mask: nat, cnt: nat)
    requires mask < 256 && Within(cnt, mask) && dirs == Effective(p, dirs) && i < |dirs| && |dirs| > 1
    ensures FileName(p, dirs, mask) != FileName(p, [dirs[i]], cnt)
  {
    hide Has, MaskOf, FileName, Named, Within;
    WithinHalf(cnt, mask);
    var f := FlagsFor(mask);
    var g := FlagsFor(cnt);
    WithinFlags(f, g);
    NameByFlags(p, dirs, f);
    NameByFlags(p, [dirs[i]], g);
    NamedTells(p, f, g);
    ListIsLonger(dirs, i);
  }

  lemma {:induction false} DownTo(p: Parts, dirs: seq<string>, mask: nat, top: int, cnt: nat)
    requires cnt <= top && Legal(cnt, mask) && |dirs| <= 1
    ensures FileName(p, dirs, cnt) in SuccessorsDown(p, dirs, mask, top)
    decreases top
  {
    hide FileName, Legal;
    if cnt == top {
      assert FileName(p, dirs, cnt) in NamesFor(p, dirs, cnt);
    } else {
      DownTo(p, dirs, mask, top - 1, cnt);
    }
  }

  // Every successor is named by a legal submask
  lemma {:induction false} ComesFrom(p: Parts, dirs: seq<string>, mask: nat, top: int, name: string) returns (cnt: nat)
    requires name in SuccessorsDown(p, dirs, mask, top)
    ensures cnt <= top && Legal(cnt, mask) && name in NamesFor(p, dirs, cnt)
    decreases top
  {
    hide FileName, Legal, NamesFor;
    if Legal(top, mask) && name in NamesFor(p, dirs, top) {
      cnt := top;
    } else {
      cnt := ComesFrom(p, dirs, mask, top - 1, name);
    }
  }

  // ---------------------------------------------------------------
  // Files among their own successors

  // One directory, no codeset, and either a modifier beside an audience or, with no
  // modifier, an empty sponsor beside a revision
  predicate InheritsItself(p: Parts, dirs: seq<string>, mask: nat) {
    && DirCount(Effective(p, dirs)) == 1 && !Has(mask, XPG_CODESET + XPG_NORM_CODESET)
    && if Has(mask, XPG_MODIFIER) then Has(mask, CEN_AUDIENCE)
       else p.sponsor == "" && Has(mask, CEN_SPONSOR) && Has(mask, CEN_REVISION)
  }

  predicate InheritsFlags(p: Parts, f: Flags) {
    && !f.codeset && !f.normalized
    && if f.modifier then f.audience else p.sponsor == "" && f.sponsor && f.revision
  }

  // The legal submask without the bit that adds nothing
  function Without(f: Flags): Flags {
    if f.modifier then f.(modifier := false) else f.(sponsor := false)
  }

  lemma WithoutIsLegal(p: Parts, f: Flags)
    requires InheritsFlags(p, f)
    ensures LegalFlags(Without(f), f) && AddsNothing(p, f, Without(f)) && Without(f) != f
  {
  }

  lemma OnlyWithout(p: Parts, f: Flags, g: Flags)
    requires LegalFlags(g, f) && AddsNothing(p, f, g) && g != f
    ensures InheritsFlags(p, f)
  {
  }

  lemma SingleInherits(p: Parts, dirs: seq<string>, f: Flags)
    requires |dirs| <= 1 && dirs == Effective(p, dirs)
    ensures FileName(p, dirs, MaskOf(f)) in SuccessorsDown(p, dirs, MaskOf(f), MaskOf(f) - 1) <==> InheritsFlags(p, f)
  {
    hide FileName, Named, MaskOf, Has, Legal, Within;
    var mask: int := MaskOf(f);
    var top := mask - 1;
    var name := FileName(p, dirs, mask);
    NameByFlags(p, dirs, f);
    var d := DirText(dirs);
    if InheritsFlags(p, f) {
      var g := Without(f);
      WithoutIsLegal(p, f);
      LegalByFlags(f, g);
      NameByFlags(p, dirs, g);
      NamedTells(p, f, g);
      MaskShrinks(f, g);
      DownTo(p, dirs, mask, top, MaskOf(g));
    } else if name in SuccessorsDown(p, dirs, mask, top) {
      var cnt := ComesFrom(p, dirs, mask, top, name);
      MaskIsByte(f);
      var g := FlagsFor(cnt);
      LegalByFlags(f, g);
      NameByFlags(p, dirs, g);
      NamedTells(p, f, g);
      SameEnd(d, Named(p, f), Named(p, g));
      OnlyWithout(p, f, g);
    }
  }

  lemma MaskIsByte(f: Flags)
    ensures MaskOf(f) < 256
  {
    TwosAreDigits(f);
  }

  lemma MaskShrinks(f: Flags, g: Flags)
    requires Both(g, f) == g && g != f
    ensures MaskOf(g) < MaskOf(f)
  {
    hide MaskOf;
    WithinFlags(f, g);
    WithinHalf(MaskOf(g), MaskOf(f));
    SameMask(f, g);
  }

  lemma ListInherits(p: Parts, dirs: seq<string>, mask: nat)
    requires mask < 256 && |dirs| > 1 && dirs == Effective(p, dirs)
    ensures FileName(p, dirs, mask) !in SuccessorsDown(p, dirs, mask, mask)
  {
    hide FileName, Has;
    var name := FileName(p, dirs, mask);
    if name in SuccessorsDown(p, dirs, mask, mask) {
      var cnt := ComesFrom(p, dirs, mask, mask, name);
      var i :| 0 <= i < |dirs| && name == FileName(p, [dirs[i]], cnt);
      ListTells(p, dirs, i, mask, cnt);
    }
  }

  // So a file can be among its own successors, and no order can be had from them
  lemma SelfSuccessor(p: Parts, dirs: seq<string>, mask: nat)
    requires mask < 256
    ensures FileName(p, dirs, mask) in Successors(p, dirs, mask) <==> InheritsItself(p, dirs, mask)
  {
    hide FileName, SuccessorsDown, MaskOf, Has;
    var eff := Effective(p, dirs);
    assert FileName(p, eff, mask) == FileName(p, dirs, mask) by {
      NameOfEffective(p, dirs, mask);
    }
    var f := FlagsFor(mask);
    HasSingle(f);
    HasAny(f);
    if |eff| > 1 {
      ListInherits(p, eff, mask);
    } else {
      SingleInherits(p, eff, f);
    }
  }

  lemma NameOfEffective(p: Parts, dirs: seq<string>, mask: nat)
    ensures FileName(p, Effective(p, dirs), mask) == FileName(p, dirs, mask)
  {
    hide Has, DirText;
  }
}
