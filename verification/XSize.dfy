// Saturating arithmetic on sizes (intl/xsize.h).
module XSize {
  const SIZE_MAX: nat := 0xFFFF_FFFF

  type Size = n: nat | n <= SIZE_MAX

  // A size, or SIZE_MAX for anything too large
  function Clip(n: nat): Size {
    if n <= SIZE_MAX then n else SIZE_MAX
  }

  // The sum is computed modulo SIZE_MAX + 1
  function Xsum(a: Size, b: Size): (r: Size)
    ensures r == Clip(a + b)
  {
    var sum := (a + b) % (SIZE_MAX + 1);
    if sum >= a then sum else SIZE_MAX
  }

  function Xsum4(a: Size, b: Size, c: Size, d: Size): (r: Size)
    ensures r == Clip(a + b + c + d)
  {
    Xsum(Xsum(Xsum(a, b), c), d)
  }

  function Xmax(a: Size, b: Size): (r: Size)
    ensures r == a || r == b
    ensures r >= a && r >= b
  {
    if a >= b then a else b
  }

  lemma ProductFits(n: nat, elsize: nat)
    requires elsize > 0
    ensures n <= SIZE_MAX / elsize <==> n * elsize <= SIZE_MAX
  {
    var q := SIZE_MAX / elsize;
    assert q * elsize <= SIZE_MAX < (q + 1) * elsize;
    if n <= q {
      assert n * elsize <= q * elsize;
    } else {
      assert n * elsize >= (q + 1) * elsize;
    }
  }

  function Xtimes(n: Size, elsize: Size): (r: Size)
    requires elsize > 0
    ensures r == Clip(n * elsize)
  {
    ProductFits(n, elsize);
    if n <= SIZE_MAX / elsize then n * elsize else SIZE_MAX
  }
}
