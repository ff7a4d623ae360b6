// Concatenation is associative.
module Sequences {

  lemma Associate<T>(a: seq<T>, b: seq<T>, c: seq<T>)
    ensures a + (b + c) == (a + b) + c
  {
  }

  lemma AssociateFour<T>(s1: seq<T>, s2: seq<T>, s3: seq<T>, s4: seq<T>)
    ensures s1 + s2 + s3 + s4 == s1 + (s2 + s3 + s4)
    ensures s1 + s2 + s3 + s4 == s1 + (s2 + (s3 + s4))
  {
  }

  lemma AssociateSix<T>(s1: seq<T>, s2: seq<T>, s3: seq<T>, s4: seq<T>, s5: seq<T>, s6: seq<T>)
    ensures s1 + s2 + s3 + s4 + s5 + s6 == s1 + (s2 + s3 + s4 + s5 + s6)
    ensures s1 + s2 + s3 + s4 + s5 + s6 == s1 + (s2 + (s3 + (s4 + (s5 + s6))))
  {
  }

  lemma AssociateSeven<T>(s1: seq<T>, s2: seq<T>, s3: seq<T>, s4: seq<T>, s5: seq<T>, s6: seq<T>, s7: seq<T>)
    ensures s1 + s2 + s3 + s4 + s5 + s6 + s7 == s1 + (s2 + s3 + s4 + s5 + s6 + s7)
  {
  }
}
