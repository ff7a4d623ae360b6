// Bit masks as numbers, and pop() of intl/l10nflist.c.
module MaskBits {
  import opened Numerals

  // a & b
  function And(a: nat, b: nat): (r: nat)
    ensures r <= a
  {
    if a == 0 then 0 else (if a % 2 == 1 && b % 2 == 1 then 1 else 0) + 2 * And(a / 2, b / 2)
  }

  // The number of bits set
  function Popcount(m: nat): nat {
    if m == 0 then 0 else m % 2 + Popcount(m / 2)
  }

  // x << n
  function ShiftLeft(x: nat, n: nat): (r: nat)
    ensures r >= x
  {
    if n == 0 then x else 2 * ShiftLeft(x, n - 1)
  }

  lemma {:induction false} ShiftIsProduct(x: nat, n: nat)
    ensures ShiftLeft(x, n) == x * Pow2(n)
  {
    if n > 0 {
      ShiftIsProduct(x, n - 1);
      DoubleProduct(x, Pow2(n - 1));
    }
  }

  lemma DoubleProduct(x: nat, y: nat)
    ensures x * (2 * y) == 2 * (x * y)
  {
  }

  // pop: the bits are added up in pairs, the pairs in fours, and so on
  function Pop(x: nat): nat {
    var x1 := (x - And(x, 0x5555)) / 2 + And(x, 0x5555);
    var x2 := (x1 - And(x1, 0x3333)) / 4 + And(x1, 0x3333);
    var x3 := And(x2 / 16 + x2, 0x0f0f);
    And(x3 / 256 + x3, 0xff)
  }

  lemma AndStep(a: nat, b: nat)
    ensures And(a, b) == (if a % 2 == 1 && b % 2 == 1 then 1 else 0) + 2 * And(a / 2, b / 2)
  {
  }

  // A number from its lowest two bits and the others
  function Join(d: nat, more: nat): nat {
    d + 4 * more
  }

  lemma {:induction false} AndByFour(d: nat, a: nat, e: nat, b: nat)
    requires d < 4 && e < 4
    ensures And(Join(d, a), Join(e, b)) == Join(And(d, e), And(a, b))
  {
    hide And;
    AndStep(d + 4 * a, e + 4 * b);
    AndStep(d / 2 + 2 * a, e / 2 + 2 * b);
    AndStep(d, e);
    AndStep(d / 2, e / 2);
    AndZero(0);
    assert (d + 4 * a) / 2 == d / 2 + 2 * a && (e + 4 * b) / 2 == e / 2 + 2 * b;
    assert (d / 2 + 2 * a) / 2 == a && (e / 2 + 2 * b) / 2 == b;
  }

  lemma AndZero(b: nat)
    ensures And(0, b) == 0
  {
  }

  // The parts of two-bit digits that the constants of pop select
  lemma AndDigit(d: nat)
    requires d < 4
    ensures And(d, 1) == d % 2 && And(d, 3) == d && And(d, 0) == 0
  {
    AndStep(d, 1);
    AndStep(d, 3);
    AndStep(d, 0);
    AndStep(d / 2, 0);
    AndStep(d / 2, 1);
  }

  // A number by its four lowest two-bit digits, and more of it above
  function Number(a: nat, b: nat, c: nat, d: nat, more: nat): nat {
    Join(a, Join(b, Join(c, Join(d, more))))
  }

  lemma {:induction false} AndNumbers(a: nat, b: nat, c: nat, d: nat, more: nat, ma: nat, mb: nat, mc: nat, md: nat,
                                      more': nat)
    requires a < 4 && b < 4 && c < 4 && d < 4 && ma < 4 && mb < 4 && mc < 4 && md < 4
    ensures And(Number(a, b, c, d, more), Number(ma, mb, mc, md, more'))
            == Number(And(a, ma), And(b, mb), And(c, mc), And(d, md), And(more, more'))
  {
    hide And;
    hide Join;
    var c', mc' := Join(c, Join(d, more)), Join(mc, Join(md, more'));
    AndByFour(a, Join(b, c'), ma, Join(mb, mc'));
    AndByFour(b, c', mb, mc');
    AndByFour(c, Join(d, more), mc, Join(md, more'));
    AndByFour(d, more, md, more');
  }

  // A byte by its digits
  function Byte(a: nat, b: nat, c: nat, d: nat): nat {
    a + 4 * b + 16 * c + 64 * d
  }

  lemma NumberIsByte(a: nat, b: nat, c: nat, d: nat, high: nat)
    ensures Number(a, b, c, d, high) == Byte(a, b, c, d) + 256 * high
  {
  }

  // The two bits of a digit
  function Low(d: nat): nat {
    d % 2
  }

  function High(d: nat): nat {
    d / 2
  }

  lemma DigitBits(d: nat)
    ensures d == Low(d) + 2 * High(d)
  {
  }

  // What the constants of pop select; 'high' and 'mask' are the bytes above
  lemma AndPairs(a: nat, b: nat, c: nat, d: nat, high: nat, mask: nat)
    requires a < 4 && b < 4 && c < 4 && d < 4
    ensures And(Byte(a, b, c, d) + 256 * high, Byte(1, 1, 1, 1) + 256 * mask)
            == Byte(Low(a), Low(b), Low(c), Low(d)) + 256 * And(high, mask)
  {
    hide And, Number, Byte;
    AndNumbers(a, b, c, d, high, 1, 1, 1, 1, mask);
    NumberIsByte(a, b, c, d, high);
    NumberIsByte(1, 1, 1, 1, mask);
    NumberIsByte(Low(a), Low(b), Low(c), Low(d), And(high, mask));
    AndDigit(a);
    AndDigit(b);
    AndDigit(c);
    AndDigit(d);
  }

  lemma AndFours(a: nat, b: nat, c: nat, d: nat, high: nat, mask: nat)
    requires a < 4 && b < 4 && c < 4 && d < 4
    ensures And(Byte(a, b, c, d) + 256 * high, Byte(3, 0, 3, 0) + 256 * mask) == Byte(a, 0, c, 0)
        + 256 * And(high, mask)
  {
    hide And, Number, Byte;
    AndNumbers(a, b, c, d, high, 3, 0, 3, 0, mask);
    NumberIsByte(a, b, c, d, high);
    NumberIsByte(3, 0, 3, 0, mask);
    NumberIsByte(a, 0, c, 0, And(high, mask));
    AndDigit(a);
    AndDigit(b);
    AndDigit(c);
    AndDigit(d);
  }

  lemma AndNibbles(e: nat, f: nat, high: nat, mask: nat)
    requires e < 16 && f < 16
    ensures And(e + 16 * f + 256 * high, 0x0f + 256 * mask) == e + 256 * And(high, mask)
    ensures And(e + 16 * f + 256 * high, 0xff + 256 * mask) == e + 16 * f + 256 * And(high, mask)
  {
    hide And;
    assert Number(3, 3, 0, 0, mask) == 0x0f + 256 * mask && Number(3, 3, 3, 3, mask) == 0xff + 256 * mask;
    assert Number(e % 4, e / 4, f % 4, f / 4, high) == e + 16 * f + 256 * high;
    AndNumbers(e % 4, e / 4, f % 4, f / 4, high, 3, 3, 0, 0, mask);
    AndNumbers(e % 4, e / 4, f % 4, f / 4, high, 3, 3, 3, 3, mask);
    AndDigit(e % 4);
    AndDigit(e / 4);
    AndDigit(f % 4);
    AndDigit(f / 4);
  }

  lemma BytesAbove(a: nat, b: nat, c: nat, d: nat)
    requires a < 4 && b < 4 && c < 4 && d < 4
    ensures And(Byte(a, b, c, d), Byte(1, 1, 1, 1)) == Byte(Low(a), Low(b), Low(c), Low(d))
    ensures And(Byte(a, b, c, d), Byte(3, 0, 3, 0)) == Byte(a, 0, c, 0)
  {
    hide And, Byte;
    AndPairs(a, b, c, d, 0, 0);
    AndFours(a, b, c, d, 0, 0);
    AndZero(0);
  }

  // The first two steps of pop
  lemma {:induction false} PopPairs(a: nat, b: nat, c: nat, d: nat, a': nat, b': nat, c': nat, d': nat)
    requires a < 4 && b < 4 && c < 4 && d < 4 && a' < 4 && b' < 4 && c' < 4 && d' < 4
    ensures var x := Byte(a, b, c, d) + 256 * Byte(a', b', c', d');
            (x - And(x, 0x5555)) / 2 + And(x, 0x5555)
            == Byte(DigitCount(a), DigitCount(b), DigitCount(c), DigitCount(d))
               + 256 * Byte(DigitCount(a'), DigitCount(b'), DigitCount(c'), DigitCount(d'))
  {
    hide And, Low, High;
    AndPairs(a, b, c, d, Byte(a', b', c', d'), Byte(1, 1, 1, 1));
    BytesAbove(a', b', c', d');
    DigitBits(a);
    DigitBits(b);
    DigitBits(c);
    DigitBits(d);
    DigitBits(a');
    DigitBits(b');
    DigitBits(c');
    DigitBits(d');
    var y := Byte(Low(a), Low(b), Low(c), Low(d)) + 256 * Byte(Low(a'), Low(b'), Low(c'), Low(d'));
    var z := Byte(High(a), High(b), High(c), High(d)) + 256 * Byte(High(a'), High(b'), High(c'), High(d'));
    assert Byte(a, b, c, d) + 256 * Byte(a', b', c', d') == y + 2 * z;
  }

  lemma {:induction false} PopFours(a: nat, b: nat, c: nat, d: nat, a': nat, b': nat, c': nat, d': nat)
    requires a < 4 && b < 4 && c < 4 && d < 4 && a' < 4 && b' < 4 && c' < 4 && d' < 4
    ensures var x := Byte(a, b, c, d) + 256 * Byte(a', b', c', d');
            (x - And(x, 0x3333)) / 4 + And(x, 0x3333)
            == (a + b) + 16 * (c + d) + 256 * ((a' + b') + 16 * (c' + d'))
  {
    hide And;
    AndFours(a, b, c, d, Byte(a', b', c', d'), Byte(3, 0, 3, 0));
    BytesAbove(a', b', c', d');
    var y := Byte(a, 0, c, 0) + 256 * Byte(a', 0, c', 0);
    var z := b + 16 * d + 256 * (b' + 16 * d');
    assert Byte(a, b, c, d) + 256 * Byte(a', b', c', d') == y + 4 * z;
  }

  // And the last two
  lemma PopEights(e: nat, f: nat, e': nat, f': nat)
    requires e < 8 && f < 8 && e' < 8 && f' < 8
    ensures var x := e + 16 * f + 256 * (e' + 16 * f');
            And(x / 16 + x, 0x0f0f) == (e + f) + 256 * (e' + f')
  {
    hide And;
    var x := e + 16 * f + 256 * (e' + 16 * f');
    assert x / 16 + x == (e + f) + 16 * (f + e') + 256 * ((e' + f') + 16 * f');
    AndNibbles(e + f, f + e', (e' + f') + 16 * f', 0x0f);
    AndNibbles(e' + f', f', 0, 0);
    AndZero(0);
  }

  lemma PopSixteen(g: nat, g': nat)
    requires g < 16 && g' < 16
    ensures And((g + 256 * g') / 256 + (g + 256 * g'), 0xff) == g + g'
  {
    hide And;
    assert (g + 256 * g') / 256 == g';
    var n := g + g';
    AndNibbles(n % 16, n / 16, g', 0);
    AndNothing(g');
  }

  lemma {:induction false} AndNothing(a: nat)
    ensures And(a, 0) == 0
  {
    if a > 0 {
      AndNothing(a / 2);
    }
  }

  // The bits of a two-bit digit
  function DigitCount(d: nat): (n: nat)
    ensures d < 4 ==> n < 3
  {
    High(d) + Low(d)
  }

  lemma {:induction false} PopcountByFour(d: nat, more: nat)
    requires d < 4
    ensures Popcount(Join(d, more)) == DigitCount(d) + Popcount(more)
  {
    assert Popcount(d + 4 * more) == Low(d) + Popcount(High(d) + 2 * more);
    assert Popcount(High(d) + 2 * more) == High(d) + Popcount(more);
  }

  function ByteCount(a: nat, b: nat, c: nat, d: nat): nat {
    DigitCount(a) + DigitCount(b) + (DigitCount(c) + DigitCount(d))
  }

  // pop one assignment after the other
  lemma PopBySteps(x: nat, x1: nat, x2: nat, x3: nat, x4: nat)
    requires x1 == (x - And(x, 0x5555)) / 2 + And(x, 0x5555)
    requires x2 == (x1 - And(x1, 0x3333)) / 4 + And(x1, 0x3333)
    requires x3 == And(x2 / 16 + x2, 0x0f0f) && x4 == And(x3 / 256 + x3, 0xff)
    ensures Pop(x) == x4
  {
    hide And;
  }

  // The sum of the digits that the first step leaves
  lemma {:induction false} PopSums(x: nat, a: nat, b: nat, c: nat, d: nat, a': nat, b': nat, c': nat, d': nat)
    requires a < 3 && b < 3 && c < 3 && d < 3 && a' < 3 && b' < 3 && c' < 3 && d' < 3
    requires (x - And(x, 0x5555)) / 2 + And(x, 0x5555) == Byte(a, b, c, d) + 256 * Byte(a', b', c', d')
    ensures Pop(x) == a + b + (c + d) + (a' + b' + (c' + d'))
  {
    hide And, Byte, Pop;
    PopFours(a, b, c, d, a', b', c', d');
    PopEights(a + b, c + d, a' + b', c' + d');
    PopSixteen(a + b + (c + d), a' + b' + (c' + d'));
    PopBySteps(x, Byte(a, b, c, d) + 256 * Byte(a', b', c', d'),
               (a + b) + 16 * (c + d) + 256 * ((a' + b') + 16 * (c' + d')),
               (a + b + (c + d)) + 256 * (a' + b' + (c' + d')), a + b + (c + d) + (a' + b' + (c' + d')));
  }

  lemma {:induction false} PopOfDigits(a: nat, b: nat, c: nat, d: nat, a': nat, b': nat, c': nat, d': nat)
    requires a < 4 && b < 4 && c < 4 && d < 4 && a' < 4 && b' < 4 && c' < 4 && d' < 4
    ensures Pop(Byte(a, b, c, d) + 256 * Byte(a', b', c', d')) == ByteCount(a, b, c, d) + ByteCount(a', b', c', d')
  {
    hide And, Byte, Pop, DigitCount;
    PopPairs(a, b, c, d, a', b', c', d');
    PopSums(Byte(a, b, c, d) + 256 * Byte(a', b', c', d'), DigitCount(a), DigitCount(b), DigitCount(c), DigitCount(d),
            DigitCount(a'), DigitCount(b'), DigitCount(c'), DigitCount(d'));
  }

  lemma {:induction false} PopcountOfByte(a: nat, b: nat, c: nat, d: nat, more: nat)
    requires a < 4 && b < 4 && c < 4 && d < 4
    ensures Popcount(Byte(a, b, c, d) + 256 * more) == ByteCount(a, b, c, d) + Popcount(more)
  {
    NumberIsByte(a, b, c, d, more);
    hide Popcount, Join, DigitCount, Byte;
    PopcountByFour(a, Join(b, Join(c, Join(d, more))));
    PopcountByFour(b, Join(c, Join(d, more)));
    PopcountByFour(c, Join(d, more));
    PopcountByFour(d, more);
  }

  // pop counts the bits of a number of sixteen bits
  lemma {:induction false} PopIsPopcount(x: nat)
    requires x < 0x1_0000
    ensures Pop(x) == Popcount(x)
  {
    hide Pop, Popcount, Byte, ByteCount;
    var lo, hi := x % 256, x / 256;
    var a, b, c, d := ByteOf(lo);
    var a', b', c', d' := ByteOf(hi);
    PopOfDigits(a, b, c, d, a', b', c', d');
    PopcountOfByte(a, b, c, d, hi);
    PopcountOfByte(a', b', c', d', 0);
    PopcountZero();
  }

  lemma ByteOf(x: nat) returns (a: nat, b: nat, c: nat, d: nat)
    requires x < 256
    ensures a < 4 && b < 4 && c < 4 && d < 4 && x == Byte(a, b, c, d)
  {
    var y := x / 4;
    a, b, c, d := x % 4, y % 4, y / 4 % 4, y / 16;
  }

  lemma PopcountZero()
    ensures Popcount(0) == 0
  {
  }

  // ---------------------------------------------------------------
  // Counting the masks dominated by a mask

  // (c & ~m) == 0
  predicate Within(c: nat, m: nat) {
    And(c, m) == c
  }

  // The bits of c at the places of m, moved together
  function Rank(c: nat, m: nat): nat {
    if m == 0 then 0 else if m % 2 == 1 then c % 2 + 2 * Rank(c / 2, m / 2) else Rank(c / 2, m / 2)
  }

  lemma {:induction false} WithinHalf(c: nat, m: nat)
    requires Within(c, m)
    ensures Within(c / 2, m / 2) && c % 2 <= m % 2 && c <= m
  {
    if c > 0 {
      assert And(c, m) % 2 == if c % 2 == 1 && m % 2 == 1 then 1 else 0;
      WithinHalf(c / 2, m / 2);
    }
  }

  lemma {:induction false} RankBound(c: nat, m: nat)
    ensures Rank(c, m) < Pow2(Popcount(m))
  {
    if m > 0 {
      RankBound(c / 2, m / 2);
    }
  }

  // The rank counts the dominated masks below
  lemma {:induction false} RankGrows(a: nat, b: nat, m: nat)
    requires Within(a, m) && Within(b, m) && a < b
    ensures Rank(a, m) < Rank(b, m)
    decreases m
  {
    WithinHalf(a, m);
    WithinHalf(b, m);
    if a / 2 < b / 2 {
      RankGrows(a / 2, b / 2, m / 2);
    }
  }

  lemma {:induction false} WithinSelf(m: nat)
    ensures Within(m, m)
  {
    if m > 0 {
      WithinSelf(m / 2);
    }
  }
}
