/** Shifts, alignment and single-bit flips on natural numbers, as the kernel uses them on page frame numbers. */
module Bits {

  /** `1 << k` */
  function Pow2(k: nat): (r: nat)
    ensures r >= 1
  {
    if k == 0 then 1 else 2 * Pow2(k - 1)
  }

  /** `x << k` */
  function Shl(x: nat, k: nat): nat {
    if k == 0 then x else 2 * Shl(x, k - 1)
  }

  lemma {:induction false} ShlAdd(x: nat, y: nat, k: nat)
    ensures Shl(x + y, k) == Shl(x, k) + Shl(y, k) && Shl(1, k) == Pow2(k)
  {
    if k > 0 {
      ShlAdd(x, y, k - 1);
    }
  }

  /** `x >> k` */
  function Shr(x: nat, k: nat): nat {
    if k == 0 then x else Shr(x / 2, k - 1)
  }

  /** `x ^ (1 << k)` */
  function Flip(x: nat, k: nat): nat {
    if k == 0 then (if x % 2 == 0 then x + 1 else x - 1) else 2 * Flip(x / 2, k - 1) + x % 2
  }

  /** The low `k` bits of `x` are zero. */
  predicate Aligned(x: nat, k: nat) {
    k == 0 || (x % 2 == 0 && Aligned(x / 2, k - 1))
  }

  /** The multiples of the block size are aligned. */
  lemma {:induction false} MultipleAligned(q: nat, k: nat)
    ensures Aligned(q * Pow2(k), k)
    decreases k
  {
    if k > 0 {
      MultipleAligned(q, k - 1);
      Twice(q, Pow2(k - 1));
      AlignedTwice(q * Pow2(k - 1), k - 1);
    }
  }

  lemma {:induction false} Twice(q: nat, m: nat)
    ensures q * (2 * m) == 2 * (q * m)
  {
  }

  lemma {:induction false} AlignedTwice(y: nat, k: nat)
    requires Aligned(y, k)
    ensures Aligned(2 * y, k + 1)
  {
  }

  lemma {:induction false} ShrStep(x: nat, k: nat)
    ensures Shr(x, k + 1) == Shr(x, k) / 2
  {
    if k > 0 {
      ShrStep(x / 2, k - 1);
    }
  }

  /** What two numbers share above bit `j` they share above any higher bit. */
  lemma {:induction false} ShrMono(x: nat, y: nat, j: nat, k: nat)
    requires j <= k && Shr(x, j) == Shr(y, j)
    ensures Shr(x, k) == Shr(y, k)
    decreases k
  {
    if j < k {
      ShrMono(x, y, j, k - 1);
      ShrStep(x, k - 1);
      ShrStep(y, k - 1);
    }
  }

  /** The numbers that agree with an aligned `p` above bit `k` are the `2^k` numbers from `p` on. */
  lemma {:induction false} ShrRange(p: nat, k: nat, f: nat)
    requires Aligned(p, k)
    ensures Shr(f, k) == Shr(p, k) <==> p <= f < p + Pow2(k)
    decreases k
  {
    if k > 0 {
      ShrRange(p / 2, k - 1, f / 2);
    }
  }

  lemma {:induction false} AlignedDown(p: nat, j: nat, k: nat)
    requires Aligned(p, k) && j <= k
    ensures Aligned(p, j)
    decreases k
  {
    if j > 0 {
      AlignedDown(p / 2, j - 1, k - 1);
    }
  }

  /** An aligned number is determined by what is above the alignment. */
  lemma {:induction false} AlignedSame(p: nat, q: nat, k: nat)
    requires Aligned(p, k) && Aligned(q, k) && Shr(p, k) == Shr(q, k)
    ensures p == q
    decreases k
  {
    if k > 0 {
      AlignedSame(p / 2, q / 2, k - 1);
    }
  }

  /** The second half of an aligned block of twice the size. */
  lemma {:induction false} UpperHalf(p: nat, k: nat)
    requires Aligned(p, k + 1)
    ensures Aligned(p, k) && Aligned(p + Pow2(k), k) && Flip(p, k) == p + Pow2(k) && Flip(p + Pow2(k), k) == p
    ensures Shr(p + Pow2(k), k) == Shr(p, k) + 1 && Shr(p, k) % 2 == 0
    decreases k
  {
    if k > 0 {
      UpperHalf(p / 2, k - 1);
      assert (p + Pow2(k)) / 2 == p / 2 + Pow2(k - 1) && (p + Pow2(k)) % 2 == 0;
    }
  }

  /** The buddy of an aligned block: same size, other half of the same parent block. */
  lemma {:induction false} FlipBuddy(p: nat, k: nat)
    requires Aligned(p, k)
    ensures Aligned(Flip(p, k), k) && Flip(p, k) != p && Flip(Flip(p, k), k) == p
    ensures if Flip(p, k) < p then p == Flip(p, k) + Pow2(k) && Aligned(Flip(p, k), k + 1)
            else Flip(p, k) == p + Pow2(k) && Aligned(p, k + 1)
    ensures Shr(Flip(p, k), k) != Shr(p, k) && Shr(Flip(p, k), k + 1) == Shr(p, k + 1)
    decreases k
  {
    if k > 0 {
      FlipBuddy(p / 2, k - 1);
    }
  }

  /** The two halves of a block make it up. */
  lemma {:induction false} Halves(p: nat, k: nat, f: nat)
    requires Aligned(p, k)
    ensures Shr(f, k + 1) == Shr(p, k + 1) <==> Shr(f, k) == Shr(p, k) || Shr(f, k) == Shr(Flip(p, k), k)
  {
    FlipBuddy(p, k);
    ShrStep(f, k);
    ShrStep(p, k);
    ShrStep(Flip(p, k), k);
  }

  lemma {:induction false} Pow2Mono(j: nat, k: nat)
    requires j <= k
    ensures Pow2(j) <= Pow2(k)
  {
    if j < k {
      Pow2Mono(j, k - 1);
    }
  }
}
