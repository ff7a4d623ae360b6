// C strings inside byte buffers, and strcmp.
module CStrings {

  // The C string at the start of a buffer: up to the first NUL, or all of it
  function CString(s: string): (r: string)
    ensures r <= s && '\0' !in r && (r == s || s[|r|] == '\0')
    ensures Terminated(s) && s != "" ==> |r| < |s|
  {
    if s == "" || s[0] == '\0' then "" else [s[0]] + CString(s[1..])
  }

  // A buffer holds m as its first string exactly if it is m, or m and a NUL begin it
  lemma HoldsFirst(s: string, m: string)
    ensures CString(s) == m <==> '\0' !in m && (s == m || m + "\0" <= s)
  {
    if '\0' !in m {
      EndsAtNul(m, "");
      if m + "\0" <= s {
        assert s == m + ("\0" + s[|m| + 1..]);
        EndsAtNul(m, s[|m| + 1..]);
      }
      if CString(s) == m && m != s {
        assert m + "\0" == s[..|m| + 1];
      }
    }
  }

  lemma {:induction false} EndsAtNul(m: string, more: string)
    requires '\0' !in m
    ensures CString(m) == m && CString(m + ("\0" + more)) == m
  {
    var s := m + ("\0" + more);
    if m != "" {
      assert s[1..] == m[1..] + ("\0" + more);
      EndsAtNul(m[1..], more);
    }
  }

  ghost predicate Terminated(s: string) {
    s != "" ==> s[|s| - 1] == '\0'
  }

  // strcmp of two C strings: negative, zero or positive
  function Strcmp(a: string, b: string): (r: int)
    ensures r == 0 <==> a == b
  {
    if a == "" then (if b == "" then 0 else -1)
    else if b == "" then 1
    else if a[0] != b[0] then a[0] as int - b[0] as int
    else
      assert a[1..] == b[1..] <==> a == b by {
        assert a == [a[0]] + a[1..] && b == [b[0]] + b[1..];
      }
      Strcmp(a[1..], b[1..])
  }

  lemma {:induction false} StrcmpIsAntisymmetric(a: string, b: string)
    ensures Strcmp(a, b) < 0 <==> Strcmp(b, a) > 0
  {
    if a != "" && b != "" && a[0] == b[0] {
      StrcmpIsAntisymmetric(a[1..], b[1..]);
    }
  }

  lemma {:induction false} StrcmpIsTransitive(a: string, b: string, c: string)
    requires Strcmp(a, b) < 0 && Strcmp(b, c) < 0
    ensures Strcmp(a, c) < 0
  {
    if a != "" && b != "" && c != "" && a[0] == b[0] && b[0] == c[0] {
      StrcmpIsTransitive(a[1..], b[1..], c[1..]);
    }
  }

  // The order is lexicographic: a negative result means that a is a proper start of b,
  // or has the smaller character where they first differ
  lemma {:induction false} StrcmpIsLexicographic(a: string, b: string)
    ensures Strcmp(a, b) < 0 <==> exists k: nat :: FirstDifference(a, b, k)
  {
    if a == "" || b == "" || a[0] != b[0] {
      if Strcmp(a, b) < 0 {
        assert FirstDifference(a, b, 0);
      }
    } else {
      StrcmpIsLexicographic(a[1..], b[1..]);
      if Strcmp(a, b) < 0 {
        var k: nat :| FirstDifference(a[1..], b[1..], k);
        DifferenceShifts(a, b, k + 1);
      } else if k: nat :| FirstDifference(a, b, k) {
        DifferenceShifts(a, b, k);
      }
    }
  }

  // They agree up to k, where a ends or has the smaller character
  ghost predicate FirstDifference(a: string, b: string, k: nat) {
    k <= |a| && k < |b| && a[..k] == b[..k] && (k == |a| || a[k] < b[k])
  }

  lemma DifferenceShifts(a: string, b: string, k: nat)
    requires a != "" && b != "" && a[0] == b[0]
    ensures FirstDifference(a, b, k) <==> k > 0 && FirstDifference(a[1..], b[1..], k - 1)
  {
    if 0 < k <= |a| && k < |b| {
      var x, y := a[..k], b[..k];
      assert x == [a[0]] + a[1..][..k - 1] && y == [b[0]] + b[1..][..k - 1];
      assert x[1..] == a[1..][..k - 1] && y[1..] == b[1..][..k - 1];
    }
  }
}
