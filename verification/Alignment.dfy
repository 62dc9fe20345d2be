/**
 Powers of two, natural alignment and single-bit tests on unbounded naturals.
 Alignment and bit tests are defined by halving, which keeps their proofs linear;
 `AlignedMeaning` and `BitSetMeaning` give them in terms of division.
 */
module Alignment {
  import opened Arithmetic

  function Pow2(k: nat): (r: nat)
    ensures r > 0
  {
    if k == 0 then 1 else 2 * Pow2(k - 1)
  }

  /** The low `k` bits of `a` are zero. */
  predicate Aligned(a: nat, k: nat) {
    k == 0 || (a % 2 == 0 && Aligned(a / 2, k - 1))
  }

  /** Bit `k` of `a`, the meaning of `a & (1 << k)`. */
  predicate BitSet(a: nat, k: nat) {
    if k == 0 then a % 2 == 1 else BitSet(a / 2, k - 1)
  }

  lemma {:induction false} ExceedsExponent(k: nat)
    ensures k < Pow2(k)
  {
    if k > 0 {
      ExceedsExponent(k - 1);
    }
  }

  lemma {:induction false} Monotonic(j: nat, k: nat)
    requires j <= k
    ensures Pow2(j) <= Pow2(k)
  {
    if j < k {
      Monotonic(j, k - 1);
    }
  }

  lemma {:induction false} AlignedDown(a: nat, j: nat, k: nat)
    requires j <= k && Aligned(a, k)
    ensures Aligned(a, j)
  {
    if j > 0 {
      AlignedDown(a / 2, j - 1, k - 1);
    }
  }

  lemma {:induction false} AlignedAdd(a: nat, b: nat, k: nat)
    requires Aligned(a, k)
    ensures Aligned(a + b, k) <==> Aligned(b, k)
  {
    if k > 0 {
      AlignedAdd(a / 2, b / 2, k - 1);
      assert a % 2 == 0 && (a + b) / 2 == a / 2 + b / 2;
    }
  }

  lemma {:induction false} AlignedPow2(j: nat, k: nat)
    requires j <= k
    ensures Aligned(Pow2(k), j)
  {
    if j > 0 {
      AlignedPow2(j - 1, k - 1);
    }
  }

  /** Of two multiples of 2^k, the smaller one lies at least 2^k below. */
  lemma {:induction false} AlignedGap(a: nat, b: nat, k: nat)
    requires Aligned(a, k) && Aligned(b, k) && a < b
    ensures a + Pow2(k) <= b
  {
    if k > 0 {
      AlignedGap(a / 2, b / 2, k - 1);
    }
  }

  /** What bit `k` says about the alignment of a multiple of 2^k. */
  lemma {:induction false} BitDecidesAlignment(a: nat, k: nat)
    requires Aligned(a, k)
    ensures BitSet(a, k) ==> !Aligned(a, k + 1) && Aligned(a + Pow2(k), k + 1)
    ensures !BitSet(a, k) ==> Aligned(a, k + 1)
  {
    if k > 0 {
      BitDecidesAlignment(a / 2, k - 1);
    } else {
      assert Aligned(a / 2, 0) && Aligned((a + 1) / 2, 0);
    }
  }

  lemma {:induction false} AlignedMeaning(a: nat, k: nat)
    ensures Aligned(a, k) <==> a % Pow2(k) == 0
  {
    if k > 0 {
      AlignedMeaning(a / 2, k - 1);
      DivideTwice(a, Pow2(k - 1));
    }
  }

  lemma {:induction false} BitSetMeaning(a: nat, k: nat)
    ensures BitSet(a, k) <==> a / Pow2(k) % 2 == 1
  {
    if k > 0 {
      BitSetMeaning(a / 2, k - 1);
      DivideTwice(a, Pow2(k - 1));
    }
  }
}
