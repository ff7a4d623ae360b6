// From the value of a plural expression to the variant that it selects
// (plural_lookup of intl/dcigettext.c).
module PluralVariants {
  import opened Words
  import opened CStrings
  import opened PluralExp

  // The NUL-terminated strings that a translation consists of
  function Variants(s: string): (vs: seq<string>)
    requires Terminated(s)
    decreases |s|
  {
    if s == "" then [] else [CString(s)] + Variants(s[|CString(s)| + 1..])
  }

  // How a translation with several forms is stored
  function Stored(forms: seq<string>): (s: string)
    ensures Terminated(s)
  {
    if forms == [] then "" else forms[0] + ("\0" + Stored(forms[1..]))
  }

  // The forms come back, in order
  lemma {:induction false} StoredVariants(forms: seq<string>)
    requires forall i :: 0 <= i < |forms| ==> '\0' !in forms[i]
    ensures Variants(Stored(forms)) == forms
  {
    if forms != [] {
      var s := Stored(forms);
      EndsAtNul(forms[0], Stored(forms[1..]));
      assert s[|forms[0]| + 1..] == Stored(forms[1..]);
      StoredVariants(forms[1..]);
    }
  }

  // Variant number k, found by skipping k terminated strings
  function Nth(s: string, k: nat): Option<string>
    requires Terminated(s)
    decreases k
  {
    if s == "" then None
    else if k == 0 then Some(CString(s))
    else Nth(s[|CString(s)| + 1..], k - 1)
  }

  lemma {:induction false} NthIsVariant(s: string, k: nat)
    requires Terminated(s)
    ensures Nth(s, k) == if k < |Variants(s)| then Some(Variants(s)[k]) else None
    decreases k
  {
    if s != "" && k > 0 {
      NthIsVariant(s[|CString(s)| + 1..], k - 1);
    }
  }

  // 'here' is what remains from position p, and variant 'index' of it is the goal
  ghost predicate Remains(s: string, p: nat, here: string, index: nat, goal: Option<string>) {
    p + |here| == |s| && here == s[p..] && Terminated(here) && Nth(here, index) == goal
  }

  lemma NthStep(s: string, p: nat, here: string, index: nat, goal: Option<string>)
    requires Remains(s, p, here, index, goal) && here != "" && index > 0
    ensures var n := |CString(here)| + 1;
            n <= |here| && Remains(s, p + n, here[n..], index - 1, goal)
  {
    var n := |CString(here)| + 1;
    assert here[n..] == s[p + n..];
  }

  // The loop of plural_lookup: skip 'count' variants, or none if there are not enough
  method SkipVariants(translation: string, count: nat) returns (p: nat)
    requires translation != "" && Terminated(translation)
    ensures p < |translation|
    ensures if Nth(translation, count).None? then p == 0 else Nth(translation, count) == Some(CString(translation[p..]))
  {
    hide CString;
    var index := count;
    p := 0;
    var here := translation;
    ghost var goal := Nth(translation, count);
    while index > 0
      invariant here != "" && Remains(translation, p, here, index, goal)
    {
      NthStep(translation, p, here, index, goal);
      index := index - 1;
      var n := |CString(here)| + 1;
      p := p + n;
      here := here[n..];
      if p >= |translation| {
        return 0;
      }
    }
  }

  // plural_lookup; None if evaluating the expression divides by zero
  method PluralLookup(plural: Expr, nplurals: Word, n: Word, translation: string) returns (r: Option<nat>)
    requires translation != "" && Terminated(translation)
    ensures r.None? <==> PluralEval(plural, n).None?
    ensures r.Some? ==>
              var k := PluralEval(plural, n).value;
              var vs := Variants(translation);
              && r.value < |translation|
              && CString(translation[r.value..]) == if k < nplurals && k < |vs| then vs[k] else vs[0]
  {
    var v := PluralEval(plural, n);
    if v.None? {
      return None;
    }
    var index: nat := if v.value >= nplurals then 0 else v.value;
    var p := SkipVariants(translation, index);
    NthIsVariant(translation, index);
    NthIsVariant(translation, 0);
    assert translation[0..] == translation;
    return Some(p);
  }
}
