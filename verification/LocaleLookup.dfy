// Where a locale's files are looked up: the names as they are spelled, and the order in
// which parts of a locale are dropped (intl/l10nflist.c).
module LocaleLookup {
  import opened MaskBits
  import opened LocalePool
  import opened LocaleNames

  // A name below one directory, part by part
  lemma NameIsSpelled(p: Parts, dir: string, f: Flags)
    requires !("/" <= p.language)
    ensures FileName(p, [dir], MaskOf(f))
            == dir + "/" + p.language
               + (if f.territory then "_" + p.territory else "")
               + (if f.codeset then "." + p.codeset else "")
               + (if f.normalized then "." + p.normalized else "")
               + (if f.audience then "+" + p.modifier else if f.modifier then "@" + p.modifier else "")
               + (if f.special then "+" + p.special else "")
               + (if f.sponsor && f.revision then "," + p.sponsor + "_" + p.revision
                  else if f.sponsor then "," + p.sponsor
                  else if f.revision then "," + "_" + p.revision
                  else "")
               + "/" + p.filename
  {
    hide Has, MaskOf;
    HasSingle(f);
    HasAny(f);
    assert DirText(Effective(p, [dir])) == dir + "/";
    var start := dir + "/";
    Front(dir, p.language);
    assert "," + p.sponsor + ("_" + p.revision) == "," + p.sponsor + "_" + p.revision;
    assert "," + "" + ("_" + p.revision) == "," + "_" + p.revision;
    assert "," + p.sponsor + "" == "," + p.sponsor;
  }

  lemma Front(dir: string, language: string)
    ensures (dir + "/") + language == dir + "/" + language
  {
  }

  // An absolute language takes no directory
  lemma AbsoluteName(p: Parts, dirs: seq<string>)
    requires "/" <= p.language
    ensures FileName(p, dirs, MaskOf(NONE)) == p.language + "/" + p.filename
  {
    hide Has, MaskOf;
    HasSingle(NONE);
    HasAny(NONE);
    assert "" + p.language == p.language;
  }

  // A file that cannot be one, or is not worth a look
  lemma DecidedExactly(p: Parts, dirs: seq<string>, f: Flags)
    ensures Decided(p, dirs, MaskOf(f)) <==> (|dirs| > 1 && !("/" <= p.language)) || (f.codeset && f.normalized)
  {
    hide Has, MaskOf;
    HasSingle(f);
  }

  // ---------------------------------------------------------------
  // The files that are asked next, for a language with all that XPG has

  const XPG: Flags := NONE.(territory := true, normalized := true, modifier := true)

  lemma {:induction false} SubmaskOfXpg(cnt: nat)
    requires Within(cnt, 168)
    ensures cnt == 0 || cnt == 8 || cnt == 32 || cnt == 40 || cnt == 128 || cnt == 136 || cnt == 160 || cnt == 168
  {
    hide Has, Within, And, MaskOf;
    XpgIs168();
    WithinHalf(cnt, 168);
    var g := FlagsFor(cnt);
    WithinFlags(XPG, g);
    SubflagsOfXpg(g);
    MaskOfXpg(g.normalized, g.territory, g.modifier);
  }

  lemma SubflagsOfXpg(g: Flags)
    requires Both(g, XPG) == g
    ensures g == NONE.(territory := g.territory, normalized := g.normalized, modifier := g.modifier)
  {
  }

  lemma XpgIs168()
    ensures MaskOf(XPG) == 168
  {
    MaskOfXpg(true, true, true);
  }

  lemma MaskOfXpg(normalized: bool, territory: bool, modifier: bool)
    ensures MaskOf(NONE.(normalized := normalized, territory := territory, modifier := modifier))
            == (if normalized then 8 else 0) + (if territory then 32 else 0) + (if modifier then 128 else 0)
  {
  }

  lemma LegalXpg(normalized: bool, territory: bool, modifier: bool)
    ensures Legal((if normalized then 8 else 0) + (if territory then 32 else 0) + (if modifier then 128 else 0), 168)
  {
    hide Has, Within, Legal, MaskOf;
    var g := NONE.(normalized := normalized, territory := territory, modifier := modifier);
    MaskOfXpg(normalized, territory, modifier);
    XpgIs168();
    LegalByFlags(XPG, g);
  }

  lemma {:induction false} Skipping(p: Parts, dirs: seq<string>, mask: nat, high: int, low: int)
    requires -1 <= low <= high && forall cnt :: low < cnt <= high ==> !Legal(cnt, mask)
    ensures SuccessorsDown(p, dirs, mask, high) == SuccessorsDown(p, dirs, mask, low)
    decreases high - low
  {
    hide FileName, Legal, NamesFor;
    if low < high {
      Skipping(p, dirs, mask, high - 1, low);
    }
  }

  lemma Taking(p: Parts, dir: string, high: nat, low: int)
    requires -1 <= low < high && high <= 160 && Legal(high, 168)
    requires forall cnt :: low < cnt < high ==> !Legal(cnt, 168)
    ensures SuccessorsDown(p, [dir], 168, high)
            == [FileName(p, [dir], high)] + SuccessorsDown(p, [dir], 168, low)
  {
    hide FileName, Legal;
    Skipping(p, [dir], 168, high - 1, low);
  }

  lemma XpgMasks(p: Parts, dir: string)
    requires !("/" <= p.language)
    ensures Successors(p, [dir], 168)
            == [FileName(p, [dir], 160), FileName(p, [dir], 136), FileName(p, [dir], 128), FileName(p, [dir], 40),
                FileName(p, [dir], 32), FileName(p, [dir], 8), FileName(p, [dir], 0)]
  {
    hide FileName, Legal, SuccessorsDown, MaskOf;
    forall cnt | Legal(cnt, 168)
      ensures cnt == 0 || cnt == 8 || cnt == 32 || cnt == 40 || cnt == 128 || cnt == 136 || cnt == 160 || cnt == 168
    {
      LegalIsWithin(cnt);
      SubmaskOfXpg(cnt);
    }
    LegalXpg(false, false, false);
    LegalXpg(true, false, false);
    LegalXpg(false, true, false);
    LegalXpg(true, true, false);
    LegalXpg(false, false, true);
    LegalXpg(true, false, true);
    LegalXpg(false, true, true);
    assert Successors(p, [dir], 168) == SuccessorsDown(p, [dir], 168, 167);
    Skipping(p, [dir], 168, 167, 160);
    Taking(p, dir, 160, 136);
    Taking(p, dir, 136, 128);
    Taking(p, dir, 128, 40);
    Taking(p, dir, 40, 32);
    Taking(p, dir, 32, 8);
    Taking(p, dir, 8, 0);
    NoneLeft(p, dir);
  }

  // The normalized codeset is dropped first, then the territory, and the modifier last
  lemma XpgSuccessors(p: Parts, dir: string)
    requires !("/" <= p.language)
    ensures var below := dir + "/" + p.language;
            var territory, normalized, modifier := "_" + p.territory, "." + p.normalized, "@" + p.modifier;
            var file := "/" + p.filename;
            Successors(p, [dir], 168)
            == [below + territory + modifier + file, below + normalized + modifier + file, below + modifier + file,
                below + territory + normalized + file, below + territory + file, below + normalized + file,
                below + file]
  {
    hide FileName, Successors;
    XpgMasks(p, dir);
    NameOfXpg(p, dir, false, true, true);
    NameOfXpg(p, dir, true, false, true);
    NameOfXpg(p, dir, false, false, true);
    NameOfXpg(p, dir, true, true, false);
    NameOfXpg(p, dir, false, true, false);
    NameOfXpg(p, dir, true, false, false);
    NameOfXpg(p, dir, false, false, false);
    var below := dir + "/" + p.language;
    Blank(below);
    Blank(below + ("_" + p.territory));
    Blank(below + ("." + p.normalized));
    Blank(below + ("_" + p.territory) + ("." + p.normalized));
  }

  lemma Blank(a: string)
    ensures a + "" == a
  {
  }

  lemma LegalIsWithin(cnt: nat)
    requires Legal(cnt, 168)
    ensures Within(cnt, 168)
  {
  }

  lemma NoneLeft(p: Parts, dir: string)
    requires Legal(0, 168)
    ensures SuccessorsDown(p, [dir], 168, 0) == [FileName(p, [dir], 0)]
  {
    assert SuccessorsDown(p, [dir], 168, -1) == [];
  }

  lemma NameOfXpg(p: Parts, dir: string, normalized: bool, territory: bool, modifier: bool)
    requires !("/" <= p.language)
    ensures FileName(p, [dir], (if normalized then 8 else 0) + (if territory then 32 else 0)
                               + (if modifier then 128 else 0))
            == dir + "/" + p.language + (if territory then "_" + p.territory else "")
               + (if normalized then "." + p.normalized else "") + (if modifier then "@" + p.modifier else "")
               + ("/" + p.filename)
  {
    hide FileName, MaskOf;
    MaskOfXpg(normalized, territory, modifier);
    NameIsSpelled(p, dir, NONE.(normalized := normalized, territory := territory, modifier := modifier));
  }

  // Several directories are asked in turn for each
  lemma DirectoriesInTurn(p: Parts, first: string, second: string)
    requires !("/" <= p.language)
    ensures Successors(p, [first, second], 0)
            == [first + "/" + p.language + "/" + p.filename, second + "/" + p.language + "/" + p.filename]
  {
    hide FileName;
    AndZero(0);
    NameOfXpg(p, first, false, false, false);
    NameOfXpg(p, second, false, false, false);
    NoParts(first + "/" + p.language, p.filename);
    NoParts(second + "/" + p.language, p.filename);
    var dirs := [first, second];
    assert NamesFor(p, dirs, 0) == [FileName(p, [first], 0), FileName(p, [second], 0)];
    assert Legal(0, 0);
    assert SuccessorsDown(p, dirs, 0, 0) == NamesFor(p, dirs, 0) + SuccessorsDown(p, dirs, 0, -1);
    assert SuccessorsDown(p, dirs, 0, -1) == [];
  }

  lemma NoParts(below: string, file: string)
    ensures below + "" + "" + "" + ("/" + file) == below + "/" + file
  {
  }
}
