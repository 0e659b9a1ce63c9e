/** The few facts about division and alignment the modules share. */
module Arith {

  function Min(a: nat, b: nat): nat { if a < b then a else b }

  function Max(a: nat, b: nat): nat { if a < b then b else a }

  /** lfs_aligndown. */
  function AlignDown(a: nat, n: nat): (r: nat)
    requires n > 0
  {
    a - a % n
  }

  /** lfs_alignup. */
  function AlignUp(a: nat, n: nat): (r: nat)
    requires n > 0
  {
    AlignDown(a + n - 1, n)
  }

  lemma MulMonotone(n: int, a: int, b: int)
    requires n > 0 && a <= b
    ensures n * a <= n * b
  {}

  /** Quotient and remainder are unique. */
  lemma DivModUnique(x: int, n: int, q: int, r: int)
    requires n > 0 && x == n * q + r && 0 <= r < n
    ensures x / n == q && x % n == r
  {
    var q', r' := x / n, x % n;
    assert x == n * q' + r';
    if q < q' {
      MulMonotone(n, q + 1, q');
    } else if q' < q {
      MulMonotone(n, q' + 1, q);
    }
  }

  lemma AlignDownBounds(a: nat, n: nat)
    requires n > 0
    ensures AlignDown(a, n) <= a < AlignDown(a, n) + n
    ensures AlignDown(a, n) % n == 0
  {
    var q := a / n;
    assert AlignDown(a, n) == n * q + 0;
    DivModUnique(AlignDown(a, n), n, q, 0);
  }

  /** A bound that is itself aligned is not passed by aligning up. */
  lemma AlignUpBounds(a: nat, n: nat)
    requires n > 0
    ensures a <= AlignUp(a, n) < a + n && AlignUp(a, n) % n == 0
  {
    AlignDownBounds(a + n - 1, n);
  }

  lemma AlignUpFits(a: nat, size: nat, n: nat)
    requires n > 0 && size % n == 0 && a <= size
    ensures AlignUp(a, n) <= size
  {
    var m := a + n - 1;
    var q, k := m / n, size / n;
    assert m == n * q + m % n && size == n * k;
    if q > k {
      MulMonotone(n, k + 1, q);
    }
    MulMonotone(n, if q <= k then q else k, k);
  }
}
