// Exchange of two adjacent blocks in place: exchange() of lib/getopt.c.
module Rotation {

  // The blocks [first, middle) and [middle, last) in the other order
  function Exchanged<T>(s: seq<T>, first: nat, middle: nat, last: nat): seq<T>
    requires first <= middle <= last <= |s|
  {
    s[..first] + s[middle..last] + s[first..middle] + s[last..]
  }

  // 'goal' is reached once [bottom, middle) and [middle, top) are exchanged
  ghost predicate Leads<T>(s: seq<T>, goal: seq<T>, bottom: nat, middle: nat, top: nat) {
    bottom <= middle <= top <= |s| && Exchanged(s, bottom, middle, top) == goal
  }

  // The blocks of length len at i and at j have changed places
  ghost predicate Swapped<T>(s: seq<T>, s': seq<T>, i: nat, j: nat, len: nat) {
    && i + len <= j && j + len <= |s| == |s'|
    && s'[..i] == s[..i]
    && s'[i..i + len] == s[j..j + len]
    && s'[i + len..j] == s[i + len..j]
    && s'[j..j + len] == s[i..i + len]
    && s'[j + len..] == s[j + len..]
  }

  lemma Cut<T>(s: seq<T>, i: nat, j: nat, k: nat)
    requires i <= j <= k <= |s|
    ensures s[i..k] == s[i..j] + s[j..k]
  {
  }

  lemma CutEnd<T>(s: seq<T>, i: nat, j: nat)
    requires i <= j <= |s|
    ensures s[i..] == s[i..j] + s[j..] && s[..j] == s[..i] + s[i..j]
  {
  }

  lemma Regroup<T>(p: seq<T>, x: seq<T>, y: seq<T>, z: seq<T>, q: seq<T>)
    ensures p + y + z + (x + q) == p + (y + z) + x + q == (p + y) + z + x + q
    ensures (p + z) + x + y + q == p + z + (x + y) + q
  {
  }

  lemma ShortBottom<T>(s: seq<T>, s': seq<T>, goal: seq<T>, bottom: nat, middle: nat, top: nat)
    requires Leads(s, goal, bottom, middle, top) && middle - bottom < top - middle
    requires Swapped(s, s', bottom, top - (middle - bottom), middle - bottom)
    ensures Leads(s', goal, bottom, middle, top - (middle - bottom))
  {
    var top' := top - (middle - bottom);
    Cut(s, middle, top', top);
    CutEnd(s', top', top);
    Regroup(s[..bottom], s[bottom..middle], s[middle..top'], s[top'..top], s[top..]);
  }

  lemma ShortTop<T>(s: seq<T>, s': seq<T>, goal: seq<T>, bottom: nat, middle: nat, top: nat)
    requires Leads(s, goal, bottom, middle, top) && top - middle <= middle - bottom
    requires Swapped(s, s', bottom, middle, top - middle)
    ensures Leads(s', goal, bottom + (top - middle), middle, top)
  {
    var bottom' := bottom + (top - middle);
    Cut(s, bottom, bottom', middle);
    CutEnd(s', bottom, bottom');
    Regroup(s[..bottom], s[bottom..bottom'], s[bottom'..middle], s[middle..top], s[top..]);
  }

  lemma Arrived<T>(s: seq<T>, goal: seq<T>, bottom: nat, middle: nat, top: nat)
    requires Leads(s, goal, bottom, middle, top) && (middle == bottom || top == middle)
    ensures s == goal
  {
  }

  // The bottom block is the short one: swap it with the end of the top block
  method MoveBottom<T>(a: array<T>, ghost goal: seq<T>, bottom: nat, middle: nat, top: nat)
    requires Leads(a[..], goal, bottom, middle, top) && middle - bottom < top - middle
    modifies a
    ensures Leads(a[..], goal, bottom, middle, top - (middle - bottom))
  {
    ghost var s := a[..];
    SwapBlocks(a, bottom, top - (middle - bottom), middle - bottom);
    ShortBottom(s, a[..], goal, bottom, middle, top);
  }

  // The top block is the short one: swap it with the start of the bottom block
  method MoveTop<T>(a: array<T>, ghost goal: seq<T>, bottom: nat, middle: nat, top: nat)
    requires Leads(a[..], goal, bottom, middle, top) && top - middle <= middle - bottom
    modifies a
    ensures Leads(a[..], goal, bottom + (top - middle), middle, top)
  {
    ghost var s := a[..];
    SwapBlocks(a, bottom, middle, top - middle);
    ShortTop(s, a[..], goal, bottom, middle, top);
  }

  // The swapping loops
  method SwapBlocks<T>(a: array<T>, i: nat, j: nat, len: nat)
    requires i + len <= j && j + len <= a.Length
    modifies a
    ensures Swapped(old(a[..]), a[..], i, j, len)
  {
    ghost var s := a[..];
    for n := 0 to len
      invariant a[..i] == s[..i] && a[i..i + n] == s[j..j + n] && a[i + n..j] == s[i + n..j]
      invariant a[j..j + n] == s[i..i + n] && a[j + n..] == s[j + n..]
    {
      assert a[i + n] == a[i + n..j][0] == s[i + n] && a[j + n] == a[j + n..][0] == s[j + n];
      ghost var before := a[..];
      var tem := a[i + n];
      a[i + n] := a[j + n];
      a[j + n] := tem;
      assert a[..] == before[i + n := s[j + n]][j + n := s[i + n]];
      SwapOne(s, before, i, j, n);
    }
  }

  lemma SwapOne<T>(s: seq<T>, t: seq<T>, i: nat, j: nat, n: nat)
    requires Swapped(s, t, i, j, n) && i + n < j && j + n < |s|
    ensures Swapped(s, t[i + n := s[j + n]][j + n := s[i + n]], i, j, n + 1)
  {
    var t' := t[i + n := s[j + n]][j + n := s[i + n]];
    assert t'[i..i + (n + 1)] == t[i..i + n] + [s[j + n]];
    assert t'[j..j + (n + 1)] == t[j..j + n] + [s[i + n]];
    assert s[j..j + (n + 1)] == s[j..j + n] + [s[j + n]];
    assert s[i..i + (n + 1)] == s[i..i + n] + [s[i + n]];
    assert t'[i + (n + 1)..j] == t[i + n..j][1..];
    assert t'[j + (n + 1)..] == t[j + n..][1..];
  }

  method Exchange<T>(a: array<T>, first: nat, middle: nat, last: nat)
    requires first <= middle <= last <= a.Length
    modifies a
    ensures a[..] == Exchanged(old(a[..]), first, middle, last)
  {
    hide Exchanged;
    var bottom: nat, top: nat := first, last;
    ghost var goal := Exchanged(a[..], first, middle, last);
    while top > middle && middle > bottom
      invariant Leads(a[..], goal, bottom, middle, top)
      decreases top - bottom
    {
      if top - middle > middle - bottom {
        MoveBottom(a, goal, bottom, middle, top);
        top := top - (middle - bottom);
      } else {
        MoveTop(a, goal, bottom, middle, top);
        bottom := bottom + (top - middle);
      }
    }
    Arrived(a[..], goal, bottom, middle, top);
  }
}
