// Double hashing over a table of prime size: the number theory behind the message
// index of intl/dcigettext.c and intl/loadmsgcat.c.
module Probing {
  import opened Numerals

  ghost predicate IsPrime(p: nat) {
    p >= 2 && forall d :: 2 <= d < p ==> p % d != 0
  }

  function Increment(hash: nat, size: nat): (incr: nat)
    requires size > 2
    ensures 1 <= incr <= size - 2
  {
    1 + hash % (size - 2)
  }

  // The place tried first, and after k steps
  function Slot(hash: nat, size: nat, k: nat): (idx: nat)
    requires size > 2
    ensures idx < size
  {
    if k == 0 then hash % size else NextSlot(Slot(hash, size, k - 1), Increment(hash, size), size)
  }

  // One step, written without an overflowing sum
  function NextSlot(idx: nat, incr: nat, size: nat): (next: nat)
    requires idx < size && 1 <= incr < size
    ensures next < size
  {
    if idx >= size - incr then idx - (size - incr) else idx + incr
  }

  // ---------------------------------------------------------------
  // The first 'size' places are different, and so are all places

  // The places are those of an arithmetic progression modulo the size
  lemma {:induction false} SlotIsProgression(hash: nat, size: nat, k: nat) returns (q: nat)
    requires size > 2
    ensures Slot(hash, size, k) + q * size == hash % size + k * Increment(hash, size)
  {
    if k == 0 {
      q := 0;
    } else {
      var incr := Increment(hash, size);
      var q0 := SlotIsProgression(hash, size, k - 1);
      assert k * incr == (k - 1) * incr + incr;
      if Slot(hash, size, k - 1) >= size - incr {
        q := q0 + 1;
        assert q * size == q0 * size + size;
      } else {
        q := q0;
      }
    }
  }

  // Place k of a probe, in one expression
  lemma SlotIsModular(hash: nat, size: nat, k: nat)
    requires size > 2
    ensures Slot(hash, size, k) == (hash + k * (1 + hash % (size - 2))) % size
  {
    hide Slot;
    SlotIsSum(hash, size, k);
    assert Increment(hash, size) == 1 + hash % (size - 2);
  }

  lemma SlotIsSum(hash: nat, size: nat, k: nat)
    requires size > 2
    ensures Slot(hash, size, k) == (hash + k * Increment(hash, size)) % size
  {
    hide Slot, Increment;
    var q := SlotIsProgression(hash, size, k);
    CombineMultiples(hash, size, hash / size, hash % size, k * Increment(hash, size), q, Slot(hash, size, k));
  }

  lemma CombineMultiples(hash: nat, size: nat, d: nat, r: nat, t: nat, q: nat, s: nat)
    requires s < size && hash == d * size + r && s + q * size == r + t
    ensures (hash + t) % size == s
  {
    Distribute(q + d, d, size);
    Remainder(hash + t, size, q + d, s);
  }

  lemma PositiveFactor(x: int, p: nat, y: nat, a: nat)
    requires y * a == x * p && y > 0 && a > 0
    ensures x > 0
  {
    assert y * a > 0;
  }

  lemma Distribute(x: int, y: int, z: int)
    ensures (x - y) * z == x * z - y * z
  {
  }

  lemma Reorder(x: int, y: int, z: int)
    ensures (x * y) * z == x * (y * z)
  {
  }

  // The product with a remainder is a multiple if that with the divisor is
  lemma RemainderProduct(p: nat, q: nat, k: nat, r: nat, a: nat, m: nat)
    requires p == q * k + r && k * a == m * p
    ensures r * a == (a - q * m) * p
  {
    Distribute(p, q * k, a);
    Reorder(q, k, a);
    Reorder(q, m, p);
    Distribute(a, q * m, p);
  }

  lemma PrimeRemainder(p: nat, k: nat)
    requires IsPrime(p) && 2 <= k < p
    ensures p == p / k * k + p % k && 0 < p % k < k
  {
  }

  lemma MultipleIsLarge(m: nat, p: nat)
    ensures m > 0 ==> m * p >= p
  {
  }

  // A prime divides no product of two smaller positive numbers
  lemma {:induction false} NoSmallProduct(p: nat, k: nat, a: nat, m: nat)
    requires IsPrime(p) && 0 < k < p && 0 < a < p
    ensures k * a != m * p
    decreases k
  {
    hide IsPrime;
    if k == 1 {
      MultipleIsLarge(m, p);
    } else if k * a == m * p {
      var q, r := p / k, p % k;
      PrimeRemainder(p, k);
      RemainderProduct(p, q, k, r, a, m);
      PositiveFactor(a - q * m, p, r, a);
      NoSmallProduct(p, r, a, a - q * m);
    }
  }

  lemma SlotsDiffer(hash: nat, size: nat, i: nat, j: nat)
    requires IsPrime(size) && size > 2 && i < j < size
    ensures Slot(hash, size, i) != Slot(hash, size, j)
  {
    var incr := Increment(hash, size);
    var qi := SlotIsProgression(hash, size, i);
    var qj := SlotIsProgression(hash, size, j);
    if Slot(hash, size, i) == Slot(hash, size, j) {
      assert (j - i) * incr == j * incr - i * incr;
      assert qj * size - qi * size == (qj - qi) * size;
      assert (j - i) * incr == (qj - qi) * size;
      PositiveFactor(qj - qi, size, j - i, incr);
      NoSmallProduct(size, j - i, incr, qj - qi);
    }
  }

  // The places tried in the first n steps
  ghost function Tried(hash: nat, size: nat, n: nat): (s: set<nat>)
    requires size > 2
    ensures forall k: nat {:trigger Slot(hash, size, k)} :: k < n ==> Slot(hash, size, k) in s
    ensures forall j :: j in s ==> j < size
  {
    if n == 0 then {} else Tried(hash, size, n - 1) + {Slot(hash, size, n - 1)}
  }

  lemma {:induction false} TriedBy(hash: nat, size: nat, n: nat, idx: nat) returns (k: nat)
    requires size > 2 && idx in Tried(hash, size, n)
    ensures k < n && Slot(hash, size, k) == idx
  {
    if idx == Slot(hash, size, n - 1) {
      k := n - 1;
    } else {
      k := TriedBy(hash, size, n - 1, idx);
    }
  }

  lemma {:induction false} TriedCount(hash: nat, size: nat, n: nat)
    requires IsPrime(size) && size > 2 && n <= size
    ensures |Tried(hash, size, n)| == n
  {
    if n > 0 {
      TriedCount(hash, size, n - 1);
      var last := Slot(hash, size, n - 1);
      if last in Tried(hash, size, n - 1) {
        var k := TriedBy(hash, size, n - 1, last);
        SlotsDiffer(hash, size, k, n - 1);
      }
    }
  }

  function Below(n: nat): (s: set<nat>)
    ensures forall j: nat {:trigger j in s} :: j < n ==> j in s
    ensures forall j: nat {:trigger j in s} :: j in s ==> j < n
  {
    if n == 0 then {} else Below(n - 1) + {n - 1}
  }

  lemma {:induction false} BelowCount(n: nat)
    ensures |Below(n)| == n
  {
    if n > 0 {
      BelowCount(n - 1);
    }
  }

  lemma EqualBySize(a: set<nat>, b: set<nat>)
    requires a <= b && |a| == |b|
    ensures a == b
  {
    assert |b - a| == |b| - |a|;
  }

  // Every place is tried within 'size' steps
  lemma EveryPlaceIsTried(hash: nat, size: nat, idx: nat) returns (k: nat)
    requires IsPrime(size) && size > 2 && idx < size
    ensures k < size && Slot(hash, size, k) == idx
  {
    TriedCount(hash, size, size);
    BelowCount(size);
    EqualBySize(Tried(hash, size, size), Below(size));
    k := TriedBy(hash, size, size, idx);
  }

  lemma NoMultipleBetween(x: int, d: nat)
    requires d >= 2
    ensures x * d != d - 1
  {
    if x >= 1 {
      assert (x - 1) * d >= 0;
    } else {
      assert x * d <= 0;
    }
  }

  lemma OffMultiples(q: nat, size: nat, k: nat, d: nat)
    requires d >= 2 && size == size / d * d
    ensures q * size != d - 1 + k * d
  {
    var e := size / d;
    assert q * (e * d) == (q * e) * d;
    assert (q * e - k) * d == (q * e) * d - k * d;
    NoMultipleBetween(q * e - k, d);
  }

  lemma StepOf(d: nat, size: nat)
    requires 2 <= d <= size - 2
    ensures (d - 1) % size == d - 1 && Increment(d - 1, size) == d
  {
    assert (d - 1) % (size - 2) == d - 1;
  }

  // Steps of d from d - 1 stay one below the multiples of d
  lemma StaysOffFirst(d: nat, size: nat, k: nat)
    requires 2 <= d <= size - 2 && size == size / d * d
    ensures Slot(d - 1, size, k) != 0
  {
    hide Slot, Increment;
    StepOf(d, size);
    var q := SlotIsProgression(d - 1, size, k);
    OffMultiples(q, size, k, d);
  }

  // A divisor leaves room for another one
  lemma ProperDivisor(size: nat, d: nat)
    requires 2 <= d < size && size % d == 0 && size > 2
    ensures size == size / d * d && d <= size - 2
  {
    var e := size / d;
    assert size == e * d;
    assert e > 1;
    TwiceFits(e, d);
  }

  lemma TwiceFits(e: nat, d: nat)
    requires e >= 2 && d >= 2
    ensures d + 2 <= e * d
  {
    assert e * d == (e - 2) * d + 2 * d;
  }

  // In a table whose size is not prime some probe never meets the first place
  lemma CompositeSizeMisses(size: nat) returns (hash: nat)
    requires size > 2 && !IsPrime(size)
    ensures hash < size && forall k: nat :: Slot(hash, size, k) != 0
  {
    var d :| 2 <= d < size && size % d == 0;
    ProperDivisor(size, d);
    hash := d - 1;
    forall k: nat
      ensures Slot(hash, size, k) != 0
    {
      StaysOffFirst(d, size, k);
    }
  }

  ghost predicate Reaches(hash: nat, size: nat, idx: nat)
    requires size > 2
  {
    exists k: nat :: Slot(hash, size, k) == idx
  }

  // So the sizes for which every probe reaches every place are the primes
  lemma ReachesAllIfPrime(size: nat)
    requires size > 2
    ensures IsPrime(size) <==> forall hash: nat, idx: nat :: idx < size ==> Reaches(hash, size, idx)
  {
    if IsPrime(size) {
      forall hash: nat, idx: nat | idx < size
        ensures Reaches(hash, size, idx)
      {
        var k := EveryPlaceIsTried(hash, size, idx);
      }
    } else {
      var hash := CompositeSizeMisses(size);
      assert !Reaches(hash, size, 0);
    }
  }

  // ---------------------------------------------------------------
  // Tables.  An entry is 0 when free and otherwise one more than the index of a
  // string; keys(i) is the hash of string i.

  ghost predicate IsTable(tab: seq<nat>, hashes: seq<nat>) {
    && |tab| > 2 && IsPrime(|tab|)
    && (forall j :: 0 <= j < |tab| ==> tab[j] <= |hashes|)
    && forall i :: 0 <= i < |hashes| ==> Found(tab, hashes[i], i)
  }

  // String i is met before any free place
  ghost predicate Found(tab: seq<nat>, hash: nat, i: nat)
    requires |tab| > 2
  {
    exists k: nat :: FoundAt(tab, hash, i, k)
  }

  ghost predicate FoundAt(tab: seq<nat>, hash: nat, i: nat, k: nat)
    requires |tab| > 2
  {
    tab[Slot(hash, |tab|, k)] == i + 1 && Busy(tab, hash, k)
  }

  // The first n places tried are taken
  ghost predicate Busy(tab: seq<nat>, hash: nat, n: nat)
    requires |tab| > 2
  {
    forall m: nat {:trigger Slot(hash, |tab|, m)} :: m < n ==> tab[Slot(hash, |tab|, m)] != 0
  }

  ghost predicate HasRoom(tab: seq<nat>) {
    exists j :: 0 <= j < |tab| && tab[j] == 0
  }

  // Free places
  function Free(tab: seq<nat>): (n: nat)
    ensures n <= |tab|
  {
    if tab == [] then 0 else Free(tab[..|tab| - 1]) + if tab[|tab| - 1] == 0 then 1 else 0
  }

  lemma {:induction false} FreeMeansRoom(tab: seq<nat>) returns (j: nat)
    requires Free(tab) > 0
    ensures j < |tab| && tab[j] == 0
  {
    if tab[|tab| - 1] == 0 {
      j := |tab| - 1;
    } else {
      j := FreeMeansRoom(tab[..|tab| - 1]);
    }
  }

  lemma {:induction false} TakingOne(tab: seq<nat>, j: nat, v: nat)
    requires j < |tab| && tab[j] == 0 && v != 0
    ensures Free(tab[j := v]) == Free(tab) - 1
    decreases |tab|
  {
    var n := |tab| - 1;
    if j == n {
      assert tab[j := v][..n] == tab[..n];
    } else {
      assert tab[j := v][..n] == tab[..n][j := v];
      TakingOne(tab[..n], j, v);
    }
  }

  // A probe that finds the first k places taken cannot go on forever
  lemma ProbeEnds(tab: seq<nat>, hash: nat, k: nat)
    requires |tab| > 2 && IsPrime(|tab|) && HasRoom(tab) && Busy(tab, hash, k)
    ensures k < |tab|
  {
    var j :| 0 <= j < |tab| && tab[j] == 0;
    var m := EveryPlaceIsTried(hash, |tab|, j);
  }

  // Putting a new string at the first free place of its probe keeps every earlier
  // string findable and makes the new one so
  lemma InsertKeeps(tab: seq<nat>, hashes: seq<nat>, hash: nat, k: nat)
    requires IsTable(tab, hashes) && Busy(tab, hash, k) && tab[Slot(hash, |tab|, k)] == 0
    ensures IsTable(tab[Slot(hash, |tab|, k) := |hashes| + 1], hashes + [hash])
  {
    var idx := Slot(hash, |tab|, k);
    var tab' := tab[idx := |hashes| + 1];
    var hashes' := hashes + [hash];
    forall i | 0 <= i < |hashes'|
      ensures Found(tab', hashes'[i], i)
    {
      if i == |hashes| {
        assert FoundAt(tab', hash, i, k);
      } else {
        var n: nat :| FoundAt(tab, hashes[i], i, n);
        assert FoundAt(tab', hashes[i], i, n);
      }
    }
  }

  // A probe meets string a before it meets string b
  ghost predicate Before(tab: seq<nat>, hash: nat, a: nat, b: nat)
    requires |tab| > 2
  {
    forall m: nat {:trigger Slot(hash, |tab|, m)} ::
      tab[Slot(hash, |tab|, m)] == b + 1 ==> exists n: nat :: n < m && tab[Slot(hash, |tab|, n)] == a + 1
  }

  // A string added behind the first 'base' is met behind every earlier one of its hash
  ghost predicate InOrder(tab: seq<nat>, hashes: seq<nat>, base: nat)
    requires |tab| > 2
  {
    forall a, b :: 0 <= a < b < |hashes| && base <= b && hashes[a] == hashes[b] ==> Before(tab, hashes[b], a, b)
  }

  // The first free place of a probe is behind every string of that hash
  lemma AddedLast(tab: seq<nat>, hashes: seq<nat>, hash: nat, k: nat, a: nat)
    requires IsTable(tab, hashes) && Busy(tab, hash, k) && tab[Slot(hash, |tab|, k)] == 0
    requires a < |hashes| && hashes[a] == hash
    ensures Before(tab[Slot(hash, |tab|, k) := |hashes| + 1], hash, a, |hashes|)
  {
    var idx := Slot(hash, |tab|, k);
    var tab' := tab[idx := |hashes| + 1];
    var n: nat :| FoundAt(tab, hash, a, n);
    forall m: nat | tab'[Slot(hash, |tab|, m)] == |hashes| + 1
      ensures n < m && tab'[Slot(hash, |tab|, n)] == a + 1
    {
      assert Slot(hash, |tab|, m) == idx;
    }
  }

  // So insertions keep the order
  lemma InsertKeepsOrder(tab: seq<nat>, hashes: seq<nat>, base: nat, hash: nat, k: nat)
    requires IsTable(tab, hashes) && Busy(tab, hash, k) && tab[Slot(hash, |tab|, k)] == 0
    requires InOrder(tab, hashes, base)
    ensures InOrder(tab[Slot(hash, |tab|, k) := |hashes| + 1], hashes + [hash], base)
  {
    var idx := Slot(hash, |tab|, k);
    var tab' := tab[idx := |hashes| + 1];
    var hashes' := hashes + [hash];
    forall a, b | 0 <= a < b < |hashes'| && base <= b && hashes'[a] == hashes'[b]
      ensures Before(tab', hashes'[b], a, b)
    {
      if b == |hashes| {
        AddedLast(tab, hashes, hash, k, a);
      } else {
        assert Before(tab, hashes[b], a, b);
        forall m: nat | tab'[Slot(hashes[b], |tab|, m)] == b + 1
          ensures exists n: nat :: n < m && tab'[Slot(hashes[b], |tab|, n)] == a + 1
        {
          var n: nat :| n < m && tab[Slot(hashes[b], |tab|, n)] == a + 1;
          assert tab'[Slot(hashes[b], |tab|, n)] == a + 1;
        }
      }
    }
  }

  // A probe that has met only other strings and now a free place has missed nothing
  lemma FreePlaceMeansAbsent(tab: seq<nat>, hashes: seq<nat>, hash: nat, k: nat, i: nat)
    requires IsTable(tab, hashes) && Busy(tab, hash, k) && tab[Slot(hash, |tab|, k)] == 0
    requires i < |hashes| && hashes[i] == hash
    ensures exists m: nat :: m < k && tab[Slot(hash, |tab|, m)] == i + 1
  {
    var n: nat :| FoundAt(tab, hash, i, n);
    assert n < k;
  }
}
