// The index of a message catalogue (intl/loadmsgcat.c, intl/dcigettext.c): its hash
// table, extended at load time, and the binary search that stands in for it.
module Catalogue {
  import opened Words
  import opened CStrings
  import opened Probing

  // hash_string: the function of P. J. Weinberger on 32-bit words
  function HashStep(hval: bv32, c: char): bv32 {
    Folded((hval << 4) + ((c as int % 256) as bv32))
  }

  // The four highest bits are taken out and put in again at the fifth place
  function Folded(h: bv32): bv32 {
    var g := h & 0xf000_0000;
    if g != 0 then (h ^ (g >> 24)) ^ g else h
  }

  function HashFrom(hval: bv32, s: string): bv32
    decreases |s|
  {
    if s == "" then hval else HashFrom(HashStep(hval, s[0]), s[1..])
  }

  function HashString(s: string): nat {
    HashFrom(0, s) as nat
  }

  // The loop of hash_string
  method ComputeHash(str: string) returns (hval: bv32)
    ensures hval as nat == HashString(str)
  {
    hide HashStep;
    hval := 0;
    var rest := str;
    while rest != ""
      invariant HashFrom(hval, rest) == HashFrom(0, str)
      decreases |rest|
    {
      hval := HashStep(hval, rest[0]);
      rest := rest[1..];
    }
  }

  // What a string table is searched for: an entry may hold several strings, each
  // ended by a NUL, and is known by the first
  function Keys(entries: seq<string>): seq<string> {
    seq(|entries|, i requires 0 <= i < |entries| => CString(entries[i]))
  }

  // Everything below holds for any hash function h
  function Hashes(h: string -> nat, keys: seq<string>): seq<nat> {
    seq(|keys|, i requires 0 <= i < |keys| => h(keys[i]))
  }

  ghost predicate Distinct(keys: seq<string>) {
    forall i, j :: 0 <= i < j < |keys| ==> keys[i] != keys[j]
  }

  // The reference: the first place of a key in a table
  function Search(keys: seq<string>, msgid: string): (r: Option<nat>)
    ensures r.Some? ==> r.value < |keys| && keys[r.value] == msgid && msgid !in keys[..r.value]
    ensures r.None? ==> msgid !in keys
  {
    if keys == [] then None
    else
      var before := Search(keys[..|keys| - 1], msgid);
      if before.Some? then
        assert keys[..|keys| - 1][..before.value] == keys[..before.value];
        before
      else if keys[|keys| - 1] == msgid then Some(|keys| - 1)
      else None
  }

  // strlen of a hash table probe's message, and its comparison with an entry of
  // the static or the system dependent table
  predicate Matches(statics: seq<string>, sysdeps: seq<string>, n: nat, msgid: string)
    requires n < |statics| + |sysdeps|
  {
    if n < |statics| then |statics[n]| >= |msgid| && msgid == CString(statics[n])
    else |sysdeps[n - |statics|]| > |msgid| && msgid == CString(sysdeps[n - |statics|])
  }

  ghost predicate AllTerminated(entries: seq<string>) {
    forall i :: 0 <= i < |entries| ==> entries[i] != "" && Terminated(entries[i])
  }

  // The length tests never reject an entry whose key is the message
  lemma MatchesIsKey(statics: seq<string>, sysdeps: seq<string>, n: nat, msgid: string)
    requires n < |statics| + |sysdeps| && AllTerminated(sysdeps)
    ensures Matches(statics, sysdeps, n, msgid) <==> Keys(statics + sysdeps)[n] == msgid
  {
  }

  // The hash table describes the static entries followed by the system dependent ones
  ghost predicate Indexes(h: string -> nat, tab: seq<nat>, statics: seq<string>, sysdeps: seq<string>) {
    && IsTable(tab, Hashes(h, Keys(statics + sysdeps))) && HasRoom(tab)
    && InOrder(tab, Hashes(h, Keys(statics + sysdeps)), |statics|)
    && Distinct(Keys(statics)) && AllTerminated(sysdeps)
  }

  // The first k places tried hold other strings
  ghost predicate Missed(tab: seq<nat>, keys: seq<string>, msgid: string, hash: nat, k: nat)
    requires |tab| > 2 && forall j :: 0 <= j < |tab| ==> tab[j] <= |keys|
  {
    forall m: nat {:trigger Slot(hash, |tab|, m)} :: m < k ==>
      tab[Slot(hash, |tab|, m)] != 0 && keys[tab[Slot(hash, |tab|, m)] - 1] != msgid
  }

  lemma MissedAll(h: string -> nat, tab: seq<nat>, keys: seq<string>, msgid: string, k: nat)
    requires IsTable(tab, Hashes(h, keys)) && Missed(tab, keys, msgid, h(msgid), k)
    requires tab[Slot(h(msgid), |tab|, k)] == 0
    ensures msgid !in keys
  {
    if i: nat :| i < |keys| && keys[i] == msgid {
      FreePlaceMeansAbsent(tab, Hashes(h, keys), h(msgid), k, i);
    }
  }

  lemma SearchFinds(keys: seq<string>, msgid: string, i: nat)
    requires i < |keys| && keys[i] == msgid && msgid !in keys[..i]
    ensures Search(keys, msgid) == Some(i)
  {
    hide Search;
  }

  // The entry that a probe meets first among those of a key is the first of them: two
  // static ones differ, and any other was added behind all before it
  lemma MetFirst(h: string -> nat, tab: seq<nat>, statics: seq<string>, sysdeps: seq<string>, msgid: string, k: nat,
                 i: nat)
    requires Indexes(h, tab, statics, sysdeps)
    requires Missed(tab, Keys(statics + sysdeps), msgid, h(msgid), k)
    requires i < |statics| + |sysdeps| && Keys(statics + sysdeps)[i] == msgid && tab[Slot(h(msgid), |tab|, k)] == i + 1
    ensures msgid !in Keys(statics + sysdeps)[..i]
  {
    var keys := Keys(statics + sysdeps);
    if a: nat :| a < i && keys[a] == msgid {
      if i < |statics| {
        assert Keys(statics)[a] == Keys(statics)[i];
      } else {
        var hashes := Hashes(h, keys);
        assert hashes[a] == hashes[i] == h(msgid);
        assert !Before(tab, hashes[i], a, i);
      }
    }
  }

  // The loop of the hash branch of _nl_find_msg: it ends at a matching entry or at
  // a free place
  method Probe(tab: array<nat>, statics: seq<string>, sysdeps: seq<string>, msgid: string, hashVal: nat)
    returns (act: Option<nat>, ghost k: nat)
    requires tab.Length > 2 && IsPrime(tab.Length) && HasRoom(tab[..]) && AllTerminated(sysdeps)
    requires forall j :: 0 <= j < tab.Length ==> tab[j] <= |statics| + |sysdeps|
    ensures Missed(tab[..], Keys(statics + sysdeps), msgid, hashVal, k)
    ensures act.None? ==> tab[Slot(hashVal, tab.Length, k)] == 0
    ensures act.Some? ==> act.value < |statics| + |sysdeps| && Keys(statics + sysdeps)[act.value] == msgid
    ensures act.Some? ==> tab[Slot(hashVal, tab.Length, k)] == act.value + 1
  {
    ghost var keys := Keys(statics + sysdeps);
    var size := tab.Length;
    var idx := hashVal % size;
    var incr := 1 + hashVal % (size - 2);
    k := 0;
    while true
      invariant idx == Slot(hashVal, size, k) && Missed(tab[..], keys, msgid, hashVal, k)
      decreases size - k
    {
      ProbeEnds(tab[..], hashVal, k);
      var nstr := tab[idx];
      if nstr == 0 {
        return None, k;
      }
      nstr := nstr - 1;
      MatchesIsKey(statics, sysdeps, nstr, msgid);
      if Matches(statics, sysdeps, nstr, msgid) {
        return Some(nstr), k;
      }
      idx := NextSlot(idx, incr, size);
      k := k + 1;
    }
  }

  lemma AbsentOrFound(h: string -> nat, tab: seq<nat>, statics: seq<string>, sysdeps: seq<string>, msgid: string,
                      act: Option<nat>, k: nat)
    requires Indexes(h, tab, statics, sysdeps)
    requires Missed(tab, Keys(statics + sysdeps), msgid, h(msgid), k)
    requires act.None? ==> tab[Slot(h(msgid), |tab|, k)] == 0
    requires act.Some? ==> act.value < |statics| + |sysdeps| && Keys(statics + sysdeps)[act.value] == msgid
    requires act.Some? ==> tab[Slot(h(msgid), |tab|, k)] == act.value + 1
    ensures act == Search(Keys(statics + sysdeps), msgid)
  {
    var keys := Keys(statics + sysdeps);
    if act.None? {
      MissedAll(h, tab, keys, msgid, k);
    } else {
      MetFirst(h, tab, statics, sysdeps, msgid, k, act.value);
      SearchFinds(keys, msgid, act.value);
    }
  }

  // The hash branch of _nl_find_msg finds what a search of the whole table would find,
  // the first entry of several with the same key
  method HashLookup(h: string -> nat, tab: array<nat>, statics: seq<string>, sysdeps: seq<string>, msgid: string)
    returns (act: Option<nat>)
    requires Indexes(h, tab[..], statics, sysdeps)
    ensures act == Search(Keys(statics + sysdeps), msgid)
  {
    ghost var k;
    act, k := Probe(tab, statics, sysdeps, msgid, h(msgid));
    AbsentOrFound(h, tab[..], statics, sysdeps, msgid, act, k);
  }

  // The search for a free place when a string is added
  method FindFree(tab: array<nat>, hashVal: nat) returns (idx: nat, ghost k: nat)
    requires tab.Length > 2 && IsPrime(tab.Length) && Free(tab[..]) > 0
    ensures idx == Slot(hashVal, tab.Length, k) && tab[idx] == 0 && Busy(tab[..], hashVal, k)
  {
    var size := tab.Length;
    var incr := 1 + hashVal % (size - 2);
    idx := hashVal % size;
    k := 0;
    ghost var room := FreeMeansRoom(tab[..]);
    while tab[idx] != 0
      invariant idx == Slot(hashVal, size, k) && Busy(tab[..], hashVal, k)
      decreases size - k
    {
      ProbeEnds(tab[..], hashVal, k);
      idx := NextSlot(idx, incr, size);
      k := k + 1;
    }
  }

  lemma HashesSplit(h: string -> nat, statics: seq<string>, sysdeps: seq<string>)
    ensures var full := Hashes(h, Keys(statics + sysdeps));
            && full[..|statics|] == Hashes(h, Keys(statics))
            && forall i {:trigger sysdeps[i]} :: 0 <= i < |sysdeps| ==> full[|statics| + i] == h(CString(sysdeps[i]))
  {
  }

  // Adding one string to the table
  method AddOne(tab: array<nat>, hashVal: nat, entry: nat, ghost hashes: seq<nat>, ghost base: nat)
    requires IsTable(tab[..], hashes) && InOrder(tab[..], hashes, base) && Free(tab[..]) > 0 && entry == |hashes| + 1
    modifies tab
    ensures IsTable(tab[..], hashes + [hashVal]) && InOrder(tab[..], hashes + [hashVal], base)
    ensures Free(tab[..]) == old(Free(tab[..])) - 1
  {
    var idx, k := FindFree(tab, hashVal);
    InsertKeeps(tab[..], hashes, hashVal, k);
    InsertKeepsOrder(tab[..], hashes, base, hashVal, k);
    TakingOne(tab[..], idx, entry);
    ghost var after := tab[..][idx := entry];
    tab[idx] := entry;
    assert tab[..] == after;
  }

  // The loop that adds the system dependent strings to the hash table; 'full' lists
  // the hashes of all strings
  method AddAll(h: string -> nat, tab: array<nat>, base: nat, sysdeps: seq<string>, ghost full: seq<nat>)
    requires |full| == base + |sysdeps| && IsTable(tab[..], full[..base]) && Free(tab[..]) > |sysdeps|
    requires forall i {:trigger sysdeps[i]} :: 0 <= i < |sysdeps| ==> full[base + i] == h(CString(sysdeps[i]))
    modifies tab
    ensures IsTable(tab[..], full) && InOrder(tab[..], full, base) && Free(tab[..]) > 0
  {
    for i := 0 to |sysdeps|
      invariant IsTable(tab[..], full[..base + i]) && InOrder(tab[..], full[..base + i], base)
      invariant Free(tab[..]) > |sysdeps| - i
    {
      AddOne(tab, h(CString(sysdeps[i])), 1 + base + i, full[..base + i], base);
      assert full[..base + (i + 1)] == full[..base + i] + [full[base + i]];
    }
    assert full[..base + |sysdeps|] == full;
  }

  // The augmented hash table
  method Augment(h: string -> nat, tab: array<nat>, statics: seq<string>, sysdeps: seq<string>)
    requires IsTable(tab[..], Hashes(h, Keys(statics))) && Free(tab[..]) > |sysdeps|
    requires Distinct(Keys(statics)) && AllTerminated(sysdeps)
    modifies tab
    ensures Indexes(h, tab[..], statics, sysdeps)
  {
    HashesSplit(h, statics, sysdeps);
    AddAll(h, tab, |statics|, sysdeps, Hashes(h, Keys(statics + sysdeps)));
    ghost var j := FreeMeansRoom(tab[..]);
  }

  ghost predicate Sorted(keys: seq<string>) {
    forall i, j :: 0 <= i < j < |keys| ==> Strcmp(keys[i], keys[j]) < 0
  }

  // A key outside the part still searched is not the message
  ghost predicate Excludes(keys: seq<string>, msgid: string, bottom: nat, top: nat)
    requires bottom <= top <= |keys|
  {
    && (forall i :: 0 <= i < bottom ==> keys[i] != msgid)
    && (forall i :: top <= i < |keys| ==> keys[i] != msgid)
  }

  lemma NarrowDown(keys: seq<string>, msgid: string, bottom: nat, top: nat, act: nat)
    requires Sorted(keys) && bottom <= act < top <= |keys| && Excludes(keys, msgid, bottom, top)
    ensures Strcmp(msgid, keys[act]) < 0 ==> Excludes(keys, msgid, bottom, act)
    ensures Strcmp(msgid, keys[act]) > 0 ==> Excludes(keys, msgid, act + 1, top)
  {
    if Strcmp(msgid, keys[act]) < 0 {
      forall i | act <= i < top
        ensures keys[i] != msgid
      {
        if i > act {
          StrcmpIsTransitive(msgid, keys[act], keys[i]);
        }
      }
    } else if Strcmp(msgid, keys[act]) > 0 {
      StrcmpIsAntisymmetric(keys[act], msgid);
      forall i | bottom <= i <= act
        ensures keys[i] != msgid
      {
        if i < act {
          StrcmpIsTransitive(keys[i], keys[act], msgid);
        }
      }
    }
  }

  lemma SortedMeansDistinct(keys: seq<string>)
    requires Sorted(keys)
    ensures Distinct(keys)
  {
  }

  // The other branch of _nl_find_msg: binary search in the sorted static table
  method BinaryLookup(statics: seq<string>, msgid: string) returns (r: Option<nat>)
    requires Sorted(Keys(statics))
    ensures r == Search(Keys(statics), msgid)
  {
    ghost var keys := Keys(statics);
    SortedMeansDistinct(keys);
    var bottom, top := 0, |statics|;
    while bottom < top
      invariant 0 <= bottom <= top <= |statics| && Excludes(keys, msgid, bottom, top)
    {
      var act := (bottom + top) / 2;
      var cmpVal := Strcmp(msgid, CString(statics[act]));
      NarrowDown(keys, msgid, bottom, top, act);
      if cmpVal < 0 {
        top := act;
      } else if cmpVal > 0 {
        bottom := act + 1;
      } else {
        assert msgid !in keys[..act] by {
          assert forall i :: 0 <= i < act ==> keys[..act][i] != keys[act];
        }
        SearchFinds(keys, msgid, act);
        return Some(act);
      }
    }
    return None;
  }
}
