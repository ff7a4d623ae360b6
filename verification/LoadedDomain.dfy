// A loaded message catalogue: what _nl_load_domain builds and _nl_find_msg reads.
module LoadedDomain {
  import opened Words
  import opened Probing
  import opened Catalogue
  import opened SysdepStrings

  // The tables of a file.  Translations are kept without their final NUL; the names of
  // the system dependent segments are the bytes as they stand in the file.
  datatype File = File(major: nat, minor: nat, data: string, statics: seq<string>, translations: seq<string>,
                       hashTab: seq<nat>, names: seq<string>, pairs: seq<Pair>)

  predicate EndsInNul(name: string) {
    name != "" && name[|name| - 1] == '\0'
  }

  // The files that are not refused
  ghost predicate Loadable(f: File, values: Values) {
    && f.major <= 1
    && (f.minor > 0 ==> |f.hashTab| > 2)
    && (f.minor > 0 && f.pairs != [] ==>
          (forall i :: 0 <= i < |f.names| ==> EndsInNul(f.names[i])) && AllValid(f.pairs, values))
  }

  // The system dependent pairs that are loaded; files of minor revision 0 have none
  function Live(f: File, values: Values): seq<Pair> {
    if f.minor == 0 then [] else Usable(f.pairs, values)
  }

  ghost predicate AllBuildable(data: string, pairs: seq<Pair>, values: Values) {
    forall i :: 0 <= i < |pairs| ==> Buildable(data, pairs[i], values)
  }

  ghost function OrigTexts(data: string, pairs: seq<Pair>, values: Values): seq<string>
    requires AllBuildable(data, pairs, values)
  {
    seq(|pairs|, i requires 0 <= i < |pairs| => TextOf(data, pairs[i].orig, values))
  }

  ghost function TransTexts(data: string, pairs: seq<Pair>, values: Values): seq<string>
    requires AllBuildable(data, pairs, values)
  {
    seq(|pairs|, i requires 0 <= i < |pairs| => TextOf(data, pairs[i].trans, values))
  }

  function Closed(texts: seq<string>): seq<string> {
    seq(|texts|, i requires 0 <= i < |texts| => texts[i] + "\0")
  }

  lemma {:induction false} UsableIsBuildable(data: string, pairs: seq<Pair>, values: Values)
    requires PairsInFile(data, pairs)
    ensures AllBuildable(data, Usable(pairs, values), values)
  {
    if pairs != [] {
      var last := pairs[|pairs| - 1];
      UsableIsBuildable(data, pairs[..|pairs| - 1], values);
      StaticOrNot(last.orig, values);
      StaticOrNot(last.trans, values);
    }
  }

  lemma LiveIsBuildable(f: File, values: Values)
    requires PairsInFile(f.data, f.pairs)
    ensures AllBuildable(f.data, Live(f, values), values)
  {
    UsableIsBuildable(f.data, f.pairs, values);
  }

  // The system dependent strings as they are loaded
  ghost function SysdepOrigs(f: File, values: Values): (r: seq<string>)
    requires PairsInFile(f.data, f.pairs)
    ensures |r| == |Live(f, values)|
  {
    LiveIsBuildable(f, values);
    OrigTexts(f.data, Live(f, values), values)
  }

  ghost function SysdepTrans(f: File, values: Values): (r: seq<string>)
    requires PairsInFile(f.data, f.pairs)
    ensures |r| == |Live(f, values)|
  {
    LiveIsBuildable(f, values);
    TransTexts(f.data, Live(f, values), values)
  }

  // What the file format promises, given the values of the segments.  Strings that
  // differ in the file may coincide once they are expanded.
  ghost predicate WellFormed(h: string -> nat, f: File, values: Values) {
    && |f.statics| == |f.translations| && |f.names| == |values|
    && PairsInFile(f.data, f.pairs)
    && AllTerminated(SysdepOrigs(f, values)) && Distinct(Keys(f.statics))
    && if |f.hashTab| > 2 then
         IsTable(f.hashTab, Hashes(h, Keys(f.statics))) && Free(f.hashTab) > |Live(f, values)|
       else Sorted(Keys(f.statics))
  }

  // The memory for what is added at load time is measured rightly
  predicate Fits(f: File, values: Values) {
    Live(f, values) != [] ==> Needed(f.pairs, values, |f.hashTab| * 4) < SIZE_MODULUS
  }

  // The catalogue as a plain table: the translation of the first entry of a message
  ghost function Meaning(f: File, values: Values, msgid: string): Option<string>
    requires |f.statics| == |f.translations| && PairsInFile(f.data, f.pairs)
  {
    match Search(Keys(f.statics + SysdepOrigs(f, values)), msgid)
    case None => None
    case Some(i) => Some((Closed(f.translations) + SysdepTrans(f, values))[i])
  }

  // ---------------------------------------------------------------

  function Deref(d: Desc, data: string, memory: string): string {
    var bytes := if d.heap then memory else data;
    if d.start + d.length <= |bytes| then bytes[d.start..d.start + d.length] else ""
  }

  function ReadAll(descs: seq<Desc>, data: string, memory: string): seq<string> {
    seq(|descs|, k requires 0 <= k < |descs| => Deref(descs[k], data, memory))
  }

  lemma AddressesMeansDeref(d: Desc, data: string, base: nat, memory: string, text: string)
    requires base <= |memory| && Addresses(d, data, base, memory[base..], text)
    ensures Deref(d, data, memory) == text
  {
    if d.heap {
      SliceBehind(memory, base, d.start, d.start + d.length);
    }
  }

  lemma SliceBehind(s: string, base: nat, i: nat, j: nat)
    requires base <= i <= j <= |s|
    ensures s[base..][i - base..j - base] == s[i..j]
  {
    forall k | 0 <= k < j - i
      ensures s[base..][i - base..j - base][k] == s[i..j][k]
    {
      assert s[base..][i - base..j - base][k] == s[base..][i - base + k] == s[i + k];
    }
  }

  lemma BuiltMeansRead(data: string, live: seq<Pair>, values: Values, orig: seq<Desc>, trans: seq<Desc>,
                       base: nat, memory: string)
    requires base <= |memory| && AllBuilt(data, live, values, orig, trans, base, memory[base..])
    ensures AllBuildable(data, live, values)
    ensures ReadAll(orig, data, memory) == OrigTexts(data, live, values)
    ensures ReadAll(trans, data, memory) == TransTexts(data, live, values)
  {
    forall k | 0 <= k < |live|
      ensures Buildable(data, live[k], values)
      ensures Deref(orig[k], data, memory) == TextOf(data, live[k].orig, values)
      ensures Deref(trans[k], data, memory) == TextOf(data, live[k].trans, values)
    {
      assert Built(data, live[k], values, orig[k], trans[k], base, memory[base..]);
      AddressesMeansDeref(orig[k], data, base, memory, TextOf(data, live[k].orig, values));
      AddressesMeansDeref(trans[k], data, base, memory, TextOf(data, live[k].trans, values));
    }
  }

  lemma PickTranslation(statics: seq<string>, sysdeps: seq<string>, act: nat)
    requires act < |statics| + |sysdeps|
    ensures (Closed(statics) + sysdeps)[act] == if act < |statics| then statics[act] + "\0"
        else sysdeps[act - |statics|]
  {
  }

  class Domain {
    const file: File
    var hashTab: array<nat>
    var orig: array<Desc>
    var trans: array<Desc>
    var memory: array<char>

    ghost predicate Valid(h: string -> nat, values: Values)
      reads this, hashTab, orig, trans, memory
    {
      var f := file;
      && |f.statics| == |f.translations| && PairsInFile(f.data, f.pairs)
      && ReadAll(orig[..], f.data, memory[..]) == SysdepOrigs(f, values)
      && ReadAll(trans[..], f.data, memory[..]) == SysdepTrans(f, values)
      && if hashTab.Length > 2 then Indexes(h, hashTab[..], f.statics, SysdepOrigs(f, values))
         else Live(f, values) == [] && Sorted(Keys(f.statics))
    }

    constructor (f: File)
      ensures file == f && fresh(hashTab) && hashTab[..] == f.hashTab
      ensures fresh(orig) && fresh(trans) && fresh(memory)
      ensures orig.Length == trans.Length == memory.Length == 0
    {
      file := f;
      hashTab := new nat[|f.hashTab|](i requires 0 <= i < |f.hashTab| => f.hashTab[i]);
      orig := new Desc[0];
      trans := new Desc[0];
      memory := new char[0];
    }

    // The index of a message, by hashing or by binary search
    method FindIndex(h: string -> nat, ghost values: Values, msgid: string) returns (act: Option<nat>)
      requires Valid(h, values)
      ensures act == Search(Keys(file.statics + SysdepOrigs(file, values)), msgid)
      ensures act.Some? ==> act.value < |file.statics| + |Live(file, values)|
    {
      if hashTab.Length > 2 {
        act := HashLookup(h, hashTab, file.statics, ReadAll(orig[..], file.data, memory[..]), msgid);
      } else {
        assert file.statics + SysdepOrigs(file, values) == file.statics;
        act := BinaryLookup(file.statics, msgid);
      }
    }

    // The lookup of _nl_find_msg, before any conversion of the character set
    method FindMsg(h: string -> nat, ghost values: Values, msgid: string) returns (r: Option<string>)
      requires Valid(h, values)
      ensures r == Meaning(file, values, msgid)
    {
      hide Closed, Indexes, Sorted, Keys, Search, Live;
      var act := FindIndex(h, values, msgid);
      if act.None? {
        return None;
      }
      var n := |file.translations|;
      PickTranslation(file.translations, SysdepTrans(file, values), act.value);
      if act.value < n {
        r := Some(file.translations[act.value] + "\0");
      } else {
        r := Some(ReadAll(trans[..], file.data, memory[..])[act.value - n]);
      }
    }

    // The system dependent part of _nl_load_domain: sizes, strings, hash table
    method LoadSysdep(h: string -> nat, values: Values) returns (r: Filling)
      requires WellFormed(h, file, values) && file.minor > 0
      requires hashTab[..] == file.hashTab && hashTab.Length > 2
      requires orig.Length == trans.Length == memory.Length == 0
      modifies this, hashTab
      ensures r == if !AllValid(file.pairs, values) then Refused else if Fits(file, values) then Filled else Overrun
      ensures r == Filled ==> Valid(h, values)
    {
      var sizes := Measure(file.data, file.pairs, values, hashTab.Length * 4);
      if sizes.None? {
        return Refused;
      }
      var n, memneed := sizes.value.0, sizes.value.1;
      if n > 0 {
        var ok, arena, o, t := Fill(file.data, file.pairs, values, n, memneed, hashTab.Length * 4);
        if !ok {
          return Overrun;
        }
        orig, trans, memory := o, t, arena.block;
        assert memory[arena.base..] == arena.Written;
        BuiltMeansRead(file.data, Live(file, values), values, orig[..], trans[..], arena.base, memory[..]);
        Augment(h, hashTab, file.statics, ReadAll(orig[..], file.data, memory[..]));
      } else {
        assert file.statics + SysdepOrigs(file, values) == file.statics;
        ghost var j := FreeMeansRoom(hashTab[..]);
      }
      return Filled;
    }
  }

  // How loading ends: the file is invalid, the strings would not stay in the memory
  // that was measured for them, or all is well
  datatype Filling = Refused | Overrun | Filled

  // The tables part of _nl_load_domain
  method Load(h: string -> nat, f: File, values: Values) returns (r: Filling, domain: Domain)
    requires WellFormed(h, f, values)
    ensures r == if !Loadable(f, values) then Refused else if Fits(f, values) then Filled else Overrun
    ensures f.major > 1 || (f.minor > 0 && |f.hashTab| <= 2) ==> r == Refused
    ensures f.minor > 0 && f.pairs != []
            && (exists i :: 0 <= i < |f.names| && (f.names[i] == "" || f.names[i][|f.names[i]| - 1] != '\0')) ==>
              r == Refused
    ensures f.major <= 1 && f.minor == 0 ==> r == Filled
    ensures f.major <= 1 && f.minor > 0 && |f.hashTab| > 2 && f.pairs == [] ==> r == Filled
    ensures r == Filled ==> domain.file == f && domain.Valid(h, values)
  {
    domain := new Domain(f);
    if f.major > 1 {
      return Refused, domain;
    }
    if f.minor > 0 {
      if |f.hashTab| <= 2 {
        return Refused, domain;
      }
      if f.pairs != [] {
        for i := 0 to |f.names|
          invariant forall k :: 0 <= k < i ==> EndsInNul(f.names[k])
        {
          if !EndsInNul(f.names[i]) {
            return Refused, domain;
          }
        }
      }
      r := domain.LoadSysdep(h, values);
    } else {
      assert f.statics + SysdepOrigs(f, values) == f.statics;
      if |f.hashTab| > 2 {
        ghost var j := FreeMeansRoom(f.hashTab);
      }
      r := Filled;
    }
  }

  // A catalogue loaded and asked with the hash function of the library
  method Translate(f: File, values: Values, msgid: string) returns (r: Option<string>)
    requires WellFormed(HashString, f, values) && Loadable(f, values) && Fits(f, values)
    ensures r == Meaning(f, values, msgid)
  {
    var filling, domain := Load(HashString, f, values);
    r := domain.FindMsg(HashString, values, msgid);
  }

  // A file that is not refused, and whose strings do not fit what is measured for them
  lemma MeasureFails(f: File)
    requires f.major == 0 && f.minor == 1 && |f.hashTab| > 2 && |f.names| == 1 && EndsInNul(f.names[0])
    requires |f.data| == 0x1_0000 && f.pairs == Copies(LONG_PAIR, 0x1_0000)
    ensures PairsInFile(f.data, f.pairs) && Loadable(f, [Some("")]) && !Fits(f, [Some("")])
  {
    hide PairSize, PairsInFile;
    SizesWrap(f.data, |f.hashTab| * 4);
    LongPairIsRight(f.data, [Some("")]);
    CopiesSize(LONG_PAIR, [Some("")], 0x1_0000);
  }
}
