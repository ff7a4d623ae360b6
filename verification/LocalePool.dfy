// The pool of locale dependent files: _nl_make_l10nflist of intl/l10nflist.c.
module LocalePool {
  import opened Words
  import opened Sequences
  import opened CStrings
  import opened Numerals
  import opened MaskBits

  const CEN_REVISION: nat := 1
  const CEN_SPONSOR: nat := 2
  const CEN_SPECIAL: nat := 4
  const XPG_NORM_CODESET: nat := 8
  const XPG_CODESET: nat := 16
  const TERRITORY: nat := 32
  const CEN_AUDIENCE: nat := 64
  const XPG_MODIFIER: nat := 128
  const CEN_SPECIFIC: nat := CEN_REVISION + CEN_SPONSOR + CEN_SPECIAL + CEN_AUDIENCE
  const XPG_SPECIFIC: nat := XPG_CODESET + XPG_NORM_CODESET + XPG_MODIFIER

  // The pieces of a locale name, and the file name below it
  datatype Parts = Parts(language: string, territory: string, codeset: string, normalized: string, modifier: string,
                         special: string, sponsor: string, revision: string, filename: string)

  predicate Has(mask: nat, bit: nat) {
    And(mask, bit) != 0
  }

  // The directories as one colon separated path, with a slash
  function DirText(dirs: seq<string>): string {
    if dirs == [] then "" else if |dirs| == 1 then dirs[0] + "/" else dirs[0] + ":" + DirText(dirs[1..])
  }

  // An absolute language makes the directories pointless
  function Effective(p: Parts, dirs: seq<string>): seq<string> {
    if p.language != "" && p.language[0] == '/' then [] else dirs
  }

  function FileName(p: Parts, dirs: seq<string>, mask: nat): string {
    DirText(Effective(p, dirs)) + p.language
    + (if Has(mask, TERRITORY) then "_" + p.territory else "")
    + (if Has(mask, XPG_CODESET) then "." + p.codeset else "")
    + (if Has(mask, XPG_NORM_CODESET) then "." + p.normalized else "")
    + (if Has(mask, XPG_MODIFIER + CEN_AUDIENCE) then
         (if Has(mask, CEN_AUDIENCE) then "+" else "@") + p.modifier
       else "")
    + (if Has(mask, CEN_SPECIAL) then "+" + p.special else "")
    + (if Has(mask, CEN_SPONSOR + CEN_REVISION) then
         "," + (if Has(mask, CEN_SPONSOR) then p.sponsor else "")
             + (if Has(mask, CEN_REVISION) then "_" + p.revision else "")
       else "")
    + "/" + p.filename
  }

  // The submasks that are looked up: of one syntax, and with one form of the codeset
  predicate Legal(cnt: nat, mask: nat) {
    && Within(cnt, mask)
    && (!Has(cnt, CEN_SPECIFIC) || !Has(cnt, XPG_SPECIFIC))
    && (!Has(cnt, XPG_CODESET) || !Has(cnt, XPG_NORM_CODESET))
  }

  // The number of directories counted
  function DirCount(dirs: seq<string>): (n: nat)
    ensures n >= 1
  {
    if dirs == [] then 1 else |dirs|
  }

  function NamesFor(p: Parts, dirs: seq<string>, mask: nat): (names: seq<string>)
    ensures |names| == DirCount(dirs)
  {
    if |dirs| <= 1 then [FileName(p, dirs, mask)]
    else seq(|dirs|, i requires 0 <= i < |dirs| => FileName(p, [dirs[i]], mask))
  }

  // The files of the legal submasks from 'cnt' down
  function SuccessorsDown(p: Parts, dirs: seq<string>, mask: nat, cnt: int): seq<string>
    decreases cnt + 1
  {
    if cnt < 0 then []
    else (if Legal(cnt, mask) then NamesFor(p, dirs, cnt) else []) + SuccessorsDown(p, dirs, mask, cnt - 1)
  }

  // The names of what a file inherits from
  function Successors(p: Parts, dirs: seq<string>, mask: nat): seq<string> {
    var eff := Effective(p, dirs);
    SuccessorsDown(p, eff, mask, if DirCount(eff) > 1 then mask else mask - 1)
  }

  predicate Decided(p: Parts, dirs: seq<string>, mask: nat) {
    DirCount(Effective(p, dirs)) > 1 || (Has(mask, XPG_CODESET) && Has(mask, XPG_NORM_CODESET))
  }

  // The pointers that fit into a node as allocated
  function Slots(count: nat, mask: nat): nat {
    1 + ShiftLeft(count, Pop(mask)) + if count > 1 then 1 else 0
  }

  // ---------------------------------------------------------------
  // The successors and the NULL behind them fit

  // At most as many masks are left as the rank says
  lemma {:induction false} SuccessorsBound(p: Parts, dirs: seq<string>, mask: nat, cnt: int)
    requires -1 <= cnt <= mask
    ensures |SuccessorsDown(p, dirs, mask, cnt)| <= DirCount(dirs) * RankUpTo(cnt, mask)
    decreases cnt + 1
  {
    hide FileName, NamesFor, Has, Within, RankUpTo, DirCount;
    if cnt >= 0 {
      SuccessorsBound(p, dirs, mask, cnt - 1);
      RankUpToGrows(cnt, mask);
      var k := |SuccessorsDown(p, dirs, mask, cnt - 1)| + if Legal(cnt, mask) then DirCount(dirs) else 0;
      assert |SuccessorsDown(p, dirs, mask, cnt)| == k;
      OneMore(DirCount(dirs), RankUpTo(cnt - 1, mask), RankUpTo(cnt, mask), Within(cnt, mask));
    }
  }

  lemma OneMore(n: nat, a: nat, b: nat, more: bool)
    requires a + (if more then 1 else 0) <= b
    ensures n * a + (if more then n else 0) <= n * b
  {
    if more {
      assert n * (a + 1) == n * a + n;
      assert n * (a + 1) <= n * b;
    } else {
      assert n * a <= n * b;
    }
  }

  // One more than the rank of the largest dominated mask up to cnt
  function RankUpTo(cnt: int, mask: nat): nat
    decreases cnt + 1
  {
    if cnt < 0 then 0 else if Within(cnt, mask) then Rank(cnt, mask) + 1 else RankUpTo(cnt - 1, mask)
  }

  lemma {:induction false} RankUpToGrows(cnt: int, mask: nat)
    requires cnt >= 0
    ensures RankUpTo(cnt - 1, mask) + (if Within(cnt, mask) then 1 else 0) <= RankUpTo(cnt, mask)
    decreases cnt
  {
    if Within(cnt, mask) && cnt > 0 {
      var below := Largest(cnt - 1, mask);
      RankGrows(below, cnt, mask);
    }
  }

  lemma {:induction false} Largest(cnt: nat, mask: nat) returns (below: nat)
    ensures below <= cnt && Within(below, mask) && RankUpTo(cnt, mask) == Rank(below, mask) + 1
    decreases cnt
  {
    if Within(cnt, mask) {
      below := cnt;
    } else {
      if cnt == 0 {
        AndZero(mask);
      }
      below := Largest(cnt - 1, mask);
    }
  }

  // All masks dominated by the mask, or all but itself
  lemma SuccessorsFit(p: Parts, dirs: seq<string>, mask: nat)
    requires mask < 256
    ensures |Successors(p, dirs, mask)| < Slots(DirCount(Effective(p, dirs)), mask)
  {
    hide FileName, NamesFor, SuccessorsDown, Within, Pop, Popcount, Rank, Effective, DirCount;
    var eff := Effective(p, dirs);
    var n := DirCount(eff);
    PopIsPopcount(mask);
    WithinSelf(mask);
    RankBound(mask, mask);
    ShiftIsProduct(n, Pop(mask));
    var top := if n > 1 then mask else mask - 1;
    SuccessorsBound(p, eff, mask, top);
    RankUpToGrows(mask, mask);
    assert RankUpTo(mask, mask) <= Pow2(Pop(mask));
    OneMore(n, RankUpTo(top, mask), Pow2(Pop(mask)), false);
  }

  // ---------------------------------------------------------------
  // The pool

  // A lookup result; its successors are named by their files
  datatype Node = Node(decided: bool, successors: seq<string>)

  // Strictly decreasing, so without duplicates
  ghost predicate Descending(files: seq<string>) {
    forall i, j :: 0 <= i < j < |files| ==> Strcmp(files[i], files[j]) > 0
  }

  // A node as it is to be once it is complete
  ghost predicate BuiltBy(p: Parts, dirs: seq<string>, mask: nat, f: string, n: Node) {
    f == FileName(p, dirs, mask) && n == Node(Decided(p, dirs, mask), Successors(p, dirs, mask))
  }

  ghost predicate Built(p: Parts, f: string, n: Node) {
    exists dirs, mask :: BuiltBy(p, dirs, mask, f, n)
  }

  // The old nodes are as they were, and the new ones but 'except' are complete
  ghost predicate Grown(p: Parts, before: map<string, Node>, now: map<string, Node>, except: Option<string>) {
    && (forall f :: f in before ==> f in now && now[f] == before[f])
    && (forall f :: f in now && f !in before && except != Some(f) ==> Built(p, f, now[f]))
  }

  lemma GrownTwice(p: Parts, a: map<string, Node>, b: map<string, Node>, c: map<string, Node>, name: string)
    requires Grown(p, a, b, Some(name)) && Grown(p, b, c, None)
    ensures Grown(p, a, c, Some(name))
  {
    hide Built;
    forall f | f in c && f !in a && f != name
      ensures Built(p, f, c[f])
    {
      if f in b {
        assert c[f] == b[f];
      }
    }
  }

  lemma GrownDone(p: Parts, dirs: seq<string>, mask: nat, before: map<string, Node>, now: map<string, Node>,
                  name: string)
    requires Grown(p, before, now, Some(name)) && name in now && BuiltBy(p, dirs, mask, name, now[name])
    ensures Grown(p, before, now, None)
  {
    hide BuiltBy;
  }

  lemma SuccessorsOfEffective(p: Parts, dirs: seq<string>, mask: nat)
    ensures Successors(p, Effective(p, dirs), mask) == Successors(p, dirs, mask)
  {
  }

  // The files of one more submask
  lemma SuccessorsStep(p: Parts, dirs: seq<string>, mask: nat, cnt: nat, done: seq<string>, goal: seq<string>)
    requires done + SuccessorsDown(p, dirs, mask, cnt) == goal
    ensures done + (if Legal(cnt, mask) then NamesFor(p, dirs, cnt) else []) + SuccessorsDown(p, dirs, mask, cnt - 1)
        == goal
    ensures !Legal(cnt, mask) ==> done + SuccessorsDown(p, dirs, mask, cnt - 1) == goal
  {
    hide FileName, NamesFor, Legal;
    if Legal(cnt, mask) {
      Associate(done, NamesFor(p, dirs, cnt), SuccessorsDown(p, dirs, mask, cnt - 1));
    } else {
      assert SuccessorsDown(p, dirs, mask, cnt) == [] + SuccessorsDown(p, dirs, mask, cnt - 1);
    }
  }

  lemma NoneBelow(p: Parts, dirs: seq<string>, mask: nat, done: seq<string>)
    ensures done + SuccessorsDown(p, dirs, mask, -1) == done
  {
  }

  // Every successor is in the pool
  ghost predicate Linked(nodes: map<string, Node>) {
    forall f :: f in nodes ==> forall s :: s in nodes[f].successors ==> s in nodes
  }

  lemma InsertedDescends(files: seq<string>, i: nat, name: string)
    requires Descending(files) && i <= |files|
    requires i > 0 ==> Strcmp(files[i - 1], name) > 0
    requires i < |files| ==> Strcmp(files[i], name) < 0
    ensures Descending(files[..i] + [name] + files[i..])
  {
    forall j | 0 <= j < i
      ensures Strcmp(files[j], name) > 0
    {
      if j < i - 1 {
        DescendsTwice(files[j], files[i - 1], name);
      }
    }
    forall j | i <= j < |files|
      ensures Strcmp(name, files[j]) > 0
    {
      StrcmpIsAntisymmetric(files[i], name);
      if j > i {
        DescendsTwice(name, files[i], files[j]);
      }
    }
  }

  lemma DescendsTwice(a: string, b: string, c: string)
    requires Strcmp(a, b) > 0 && Strcmp(b, c) > 0
    ensures Strcmp(a, c) > 0
  {
    StrcmpIsAntisymmetric(b, a);
    StrcmpIsAntisymmetric(c, b);
    StrcmpIsTransitive(c, b, a);
    StrcmpIsAntisymmetric(c, a);
  }

  class Pool {
    var files: seq<string>
    var nodes: map<string, Node>

    ghost predicate Valid()
      reads this
    {
      && Descending(files) && Linked(nodes)
      && forall f :: f in files <==> f in nodes
    }

    constructor ()
      ensures Valid() && files == []
    {
      files := [];
      nodes := map[];
    }

    // The search in the sorted list: the place of a file, or where it belongs
    method Search(name: string) returns (found: bool, i: nat)
      requires Valid()
      ensures i <= |files| && (found <==> name in nodes)
      ensures found ==> i < |files| && files[i] == name
      ensures !found ==> Descending(files[..i] + [name] + files[i..])
    {
      i := 0;
      while i < |files|
        invariant i <= |files| && forall j :: 0 <= j < i ==> Strcmp(files[j], name) > 0
      {
        var compare := Strcmp(files[i], name);
        if compare == 0 {
          return true, i;
        }
        if compare < 0 {
          InsertedDescends(files, i, name);
          forall j | i < j < |files|
            ensures files[j] != name
          {
            StrcmpIsAntisymmetric(files[i], files[j]);
            assert Strcmp(files[i], files[j]) > 0;
          }
          assert name !in files;
          return false, i;
        }
        i := i + 1;
      }
      InsertedDescends(files, i, name);
      return false, i;
    }

    // A new node without successors
    method Link(name: string, i: nat, decided: bool)
      requires Valid() && name !in nodes && i <= |files| && Descending(files[..i] + [name] + files[i..])
      modifies this
      ensures Valid() && nodes == old(nodes)[name := Node(decided, [])]
    {
      ghost var before := files;
      files := files[..i] + [name] + files[i..];
      nodes := nodes[name := Node(decided, [])];
      forall f: string
        ensures f in files <==> f in nodes
      {
        assert f in before <==> f in before[..i] || f in before[i..] by {
          assert before == before[..i] + before[i..];
        }
      }
    }

    // successor[entries++]
    method AddSuccessor(name: string, successor: string)
      requires Valid() && name in nodes && successor in nodes
      modifies this`nodes
      ensures Valid()
      ensures nodes == old(nodes)[name := old(nodes)[name].(successors := old(nodes)[name].successors + [successor])]
    {
      nodes := nodes[name := nodes[name].(successors := nodes[name].successors + [successor])];
    }

    // One lookup, whose result becomes the next successor of 'name'
    method InheritFrom(p: Parts, dirs: seq<string>, cnt: nat, name: string, ghost base: map<string, Node>)
      requires Valid() && cnt < 256 && name in nodes && name !in base && Grown(p, base, nodes, Some(name))
      modifies this
      ensures Valid() && name in nodes && Grown(p, base, nodes, Some(name))
      ensures nodes[name]
              == old(nodes[name]).(successors := old(nodes[name]).successors + [FileName(p, dirs, cnt)])
      decreases if DirCount(Effective(p, dirs)) > 1 then 1 else 0, cnt, 3
    {
      hide FileName, Linked, Descending, Built, Effective, DirCount;
      ghost var before := nodes;
      var retval := Make(p, dirs, cnt, true);
      GrownTwice(p, base, before, nodes, name);
      AddSuccessor(name, retval.value);
    }

    // The successors of 'name' for one submask: a lookup for each directory
    method Inherit(p: Parts, eff: seq<string>, cnt: nat, name: string, ghost base: map<string, Node>)
      requires Valid() && cnt < 256 && name in nodes && name !in base && eff == Effective(p, eff)
      requires Grown(p, base, nodes, Some(name))
      modifies this
      ensures Valid() && name in nodes && Grown(p, base, nodes, Some(name))
      ensures nodes[name] == old(nodes[name]).(successors := old(nodes[name]).successors + NamesFor(p, eff, cnt))
      decreases if DirCount(eff) > 1 then 1 else 0, cnt, if DirCount(eff) > 1 then 0 else 4
    {
      hide FileName, Linked, Descending, Grown;
      ghost var node := nodes[name];
      if |eff| > 1 {
        ghost var names := NamesFor(p, eff, cnt);
        for i := 0 to |eff|
          invariant Valid() && name in nodes && Grown(p, base, nodes, Some(name))
          invariant nodes[name] == node.(successors := node.successors + names[..i])
        {
          InheritFrom(p, [eff[i]], cnt, name, base);
          assert names[..i + 1] == names[..i] + [names[i]];
          Associate(node.successors, names[..i], [names[i]]);
        }
        assert names[..|eff|] == names;
      } else {
        InheritFrom(p, eff, cnt, name, base);
      }
    }

    // _nl_make_l10nflist.  The list stays sorted, what was in it stays as it was, and
    // each node that is added has the successors that its submasks name.
    method Make(p: Parts, dirs: seq<string>, mask: nat, doAllocate: bool) returns (r: Option<string>)
      requires Valid() && mask < 256
      modifies this
      ensures Valid() && Grown(p, old(nodes), nodes, None)
      ensures !doAllocate ==> nodes == old(nodes) && files == old(files)
      ensures r == if doAllocate || FileName(p, dirs, mask) in old(nodes) then Some(FileName(p, dirs, mask)) else None
      ensures r.Some? ==> r.value in nodes
      ensures r.Some? && r.value !in old(nodes) ==> BuiltBy(p, dirs, mask, r.value, nodes[r.value])
      decreases if DirCount(Effective(p, dirs)) > 1 then 1 else 0, mask, 2
    {
      hide FileName, Linked, Descending, Built, Successors;
      var eff := Effective(p, dirs);
      var name := FileName(p, dirs, mask);
      var found, i := Search(name);
      if found || !doAllocate {
        return if found then Some(name) else None;
      }
      var count := DirCount(eff);
      Link(name, i, count > 1 || (Has(mask, XPG_CODESET) && Has(mask, XPG_NORM_CODESET)));
      SuccessorsOfEffective(p, dirs, mask);
      FillSuccessors(p, eff, mask, name, old(nodes), Successors(p, dirs, mask));
      GrownDone(p, dirs, mask, old(nodes), nodes, name);
      return Some(name);
    }

    // The loop over the submasks
    method FillSuccessors(p: Parts, eff: seq<string>, mask: nat, name: string, ghost base: map<string, Node>,
                          ghost goal: seq<string>)
      requires Valid() && mask < 256 && name in nodes && name !in base && eff == Effective(p, eff)
      requires Grown(p, base, nodes, Some(name)) && nodes[name].successors == [] && goal == Successors(p, eff, mask)
      modifies this
      ensures Valid() && name in nodes && Grown(p, base, nodes, Some(name))
      ensures nodes[name] == Node(old(nodes[name]).decided, goal)
      decreases if DirCount(eff) > 1 then 1 else 0, mask, 1
    {
      hide FileName, Linked, Descending, Grown, Legal, NamesFor, Slots, SuccessorsDown;
      SuccessorsFit(p, eff, mask);
      var count := DirCount(eff);
      var cnt: int := if count > 1 then mask else mask - 1;
      while cnt >= 0
        invariant -1 <= cnt <= mask && (count == 1 ==> cnt < mask)
        invariant Valid() && name in nodes && Grown(p, base, nodes, Some(name))
        invariant nodes[name].decided == old(nodes[name].decided)
        invariant nodes[name].successors + SuccessorsDown(p, eff, mask, cnt) == goal
      {
        SuccessorsStep(p, eff, mask, cnt, nodes[name].successors, goal);
        if Legal(cnt, mask) {
          Inherit(p, eff, cnt, name, base);
          assert |nodes[name].successors| < Slots(count, mask);
        }
        cnt := cnt - 1;
      }
      NoneBelow(p, eff, mask, nodes[name].successors);
    }
  }
}
