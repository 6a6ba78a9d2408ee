/**
 Checked size computations: SIZE_MAX stands for every result that does not fit.
 */
module SaturatingSize {

  const SIZE_MAX: nat := 0xFFFF_FFFF_FFFF_FFFF

  type Size = x: nat | x <= SIZE_MAX

  /** Unsigned addition wraps. */
  function WrappedSum(a: Size, b: Size): Size {
    (a + b) % (SIZE_MAX + 1)
  }

  function Min(a: int, b: int): int { if a <= b then a else b }

  function Xsum(size1: Size, size2: Size): (r: Size)
    ensures r == Min(size1 + size2, SIZE_MAX)
  {
    var sum := WrappedSum(size1, size2);
    if sum >= size1 then sum else SIZE_MAX
  }

  function Xsum4(size1: Size, size2: Size, size3: Size, size4: Size): (r: Size)
    ensures r == Min(size1 + size2 + size3 + size4, SIZE_MAX)
  {
    Xsum(Xsum(Xsum(size1, size2), size3), size4)
  }

  function Xmax(size1: Size, size2: Size): (r: Size)
    ensures r >= size1 && r >= size2 && (r == size1 || r == size2)
  {
    if size1 >= size2 then size1 else size2
  }

  lemma DivBound(n: int, e: int, m: int)
    requires n >= 0 && e > 0 && m >= 0
    ensures n <= m / e <==> n * e <= m
  {
    var q := m / e;
    assert m == q * e + m % e;
    if n <= q {
      assert n * e <= q * e;
    } else {
      assert n * e >= (q + 1) * e;
    }
  }

  function Xtimes(n: Size, elsize: Size): (r: Size)
    requires elsize > 0
    ensures r == Min(n * elsize, SIZE_MAX)
  {
    DivBound(n, elsize, SIZE_MAX);
    if n <= SIZE_MAX / elsize then n * elsize else SIZE_MAX
  }

  predicate Overflows(size: Size) { size == SIZE_MAX }
}
