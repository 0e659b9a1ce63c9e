/** Counting bits: population count, trailing zeros and bit length, as lfs_util.h uses them. */
module Bits {

  function Pow2(k: nat): (p: nat)
    ensures p >= 1
  {
    if k == 0 then 1 else 2 * Pow2(k - 1)
  }

  /** lfs_popc. */
  function Popc(n: nat): nat {
    if n == 0 then 0 else n % 2 + Popc(n / 2)
  }

  /** lfs_ctz. */
  function Ctz(n: nat): nat
    requires n > 0
  {
    if n % 2 == 1 then 0 else 1 + Ctz(n / 2)
  }

  function BitLength(n: nat): nat {
    if n == 0 then 0 else 1 + BitLength(n / 2)
  }

  /** lfs_npw2: the least r with 2^r >= a. */
  function Npw2(a: nat): nat
    requires a > 0
  {
    BitLength(a - 1)
  }

  lemma {:induction false} BitLengthBounds(n: nat)
    requires n > 0
    ensures BitLength(n) >= 1 && Pow2(BitLength(n) - 1) <= n < Pow2(BitLength(n))
  {
    if n > 1 {
      BitLengthBounds(n / 2);
    }
  }

  lemma {:induction false} Pow2Monotone(a: nat, b: nat)
    requires a <= b
    ensures Pow2(a) <= Pow2(b)
  {
    if a < b {
      Pow2Monotone(a, b - 1);
    }
  }

  /** Borrowing turns the trailing zeros into ones and clears the bit above them. */
  lemma {:induction false} PopcPred(n: nat)
    requires n > 0
    ensures Popc(n - 1) + 1 == Popc(n) + Ctz(n)
  {
    if n % 2 == 0 {
      PopcPred(n / 2);
      assert (n - 1) % 2 == 1 && (n - 1) / 2 == n / 2 - 1;
    } else {
      assert (n - 1) % 2 == 0 && (n - 1) / 2 == n / 2;
    }
  }

  /** The least number with k ones is 2^k - 1. */
  lemma {:induction false} PopcNeeds(n: nat)
    ensures n + 1 >= Pow2(Popc(n))
  {
    if n > 0 {
      PopcNeeds(n / 2);
    }
  }

  lemma {:induction false} PopcAllOnes(k: nat)
    ensures Popc(Pow2(k) - 1) == k
  {
    if k > 0 {
      PopcAllOnes(k - 1);
      assert (Pow2(k) - 1) % 2 == 1 && (Pow2(k) - 1) / 2 == Pow2(k - 1) - 1;
    }
  }

  /** Subtracting a smaller power of two moves the trailing zeros down to it. */
  lemma {:induction false} CtzMinusLower(n: nat, k: nat)
    requires n > Pow2(k) && k < Ctz(n)
    ensures Ctz(n - Pow2(k)) == k
    decreases k
  {
    if k > 0 {
      CtzMinusLower(n / 2, k - 1);
      assert (n - Pow2(k)) / 2 == n / 2 - Pow2(k - 1);
    }
  }

  /** Subtracting the lowest bit leaves more trailing zeros. */
  lemma {:induction false} CtzMinusLowest(n: nat)
    requires n > 0 && n > Pow2(Ctz(n))
    ensures Ctz(n - Pow2(Ctz(n))) > Ctz(n)
  {
    if n % 2 == 0 {
      CtzMinusLowest(n / 2);
      assert (n - Pow2(Ctz(n))) / 2 == n / 2 - Pow2(Ctz(n / 2));
    }
  }

  lemma {:induction false} CtzBound(n: nat)
    requires n > 0
    ensures Pow2(Ctz(n)) <= n
  {
    if n % 2 == 0 {
      CtzBound(n / 2);
    }
  }
}
