// Decimal numbers and their digits, powers of two, and remainders.
module Numerals {

  const DIGITS := "0123456789"

  predicate IsDigit(c: char) {
    '0' <= c <= '9'
  }

  function Digit(c: char): nat {
    if IsDigit(c) then c as int - '0' as int else 0
  }

  // The number that decimal digits denote
  function Decimal(ds: string): nat {
    if ds == "" then 0 else 10 * Decimal(ds[..|ds| - 1]) + Digit(ds[|ds| - 1])
  }

  // The digits of a number, without leading zeros
  function Numeral(n: nat): (ds: string)
    ensures ds != "" && forall k :: 0 <= k < |ds| ==> IsDigit(ds[k])
  {
    (if n < 10 then "" else Numeral(n / 10)) + [DIGITS[n % 10]]
  }

  lemma {:induction false} NumeralDenotes(n: nat)
    ensures Decimal(Numeral(n)) == n
  {
    var ds := Numeral(n);
    assert ds[..|ds| - 1] == if n < 10 then "" else Numeral(n / 10);
    if n >= 10 {
      NumeralDenotes(n / 10);
    }
  }

  function Pow2(n: nat): (r: nat)
    ensures r >= 1
  {
    if n == 0 then 1 else 2 * Pow2(n - 1)
  }

  lemma Remainder(a: nat, d: nat, q: nat, r: nat)
    requires d > 0 && a == q * d + r && r < d
    ensures a % d == r
  {
    var q', r' := a / d, a % d;
    assert (q - q') * d == r' - r;
    SmallMultiple(q - q', d);
  }

  lemma SmallMultiple(x: int, d: nat)
    requires d > 0 && 0 - d < x * d && x * d < d
    ensures x == 0
  {
  }
}
