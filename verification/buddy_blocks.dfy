/** Sets of free blocks of the buddy allocator, as maps from a block's first frame to its order.

    A block of order `k` at an aligned frame `p` is the set of frames that agree with `p` above bit
    `k`. The main result is `Unique`: a fully coalesced set of blocks is determined by the frames it
    covers.
 */
module BuddyBlocks {
  import opened Bits

  type Blocks = map<nat, nat>

  predicate Within(f: nat, p: nat, k: nat) {
    Shr(f, k) == Shr(p, k)
  }

  ghost predicate Covers(F: Blocks, f: nat) {
    exists p | p in F :: Within(f, p, F[p])
  }

  /** Blocks are aligned, not at frame 0, of order at most `M`, and end at or before `n`. */
  ghost predicate Proper(F: Blocks, n: nat, M: nat) {
    forall p | p in F :: p > 0 && F[p] <= M && Aligned(p, F[p]) && p + Pow2(F[p]) <= n
  }

  ghost predicate Apart(F: Blocks) {
    forall p, q | p in F && q in F && p != q :: !Within(q, p, F[p])
  }

  /** No block below the largest order is free together with its buddy. */
  ghost predicate Coalesced(F: Blocks, M: nat) {
    forall p | p in F && F[p] < M :: Flip(p, F[p]) in F ==> F[Flip(p, F[p])] != F[p]
  }

  ghost predicate Canonical(F: Blocks, n: nat, M: nat) {
    Proper(F, n, M) && Apart(F) && Coalesced(F, M)
  }

  /** The frames of a block. */
  function Range(p: nat, k: nat): set<nat> {
    set f | 0 <= f < p + Pow2(k) && Within(f, p, k)
  }

  /** A block in hand: aligned, in bounds, and none of its frames covered by `F`. */
  ghost predicate InHand(F: Blocks, p: nat, k: nat, n: nat, M: nat) {
    && Canonical(F, n, M) && p > 0 && k <= M && Aligned(p, k) && p + Pow2(k) <= n
    && forall f: nat | Within(f, p, k) :: !Covers(F, f)
  }

  /** `F` with the block `(p, k)` covers the same frames as `G` with the block `(q, j)`. */
  ghost predicate SameCover(F: Blocks, p: nat, k: nat, G: Blocks, q: nat, j: nat) {
    forall f: nat :: Covers(F, f) || Within(f, p, k) <==> Covers(G, f) || Within(f, q, j)
  }

  lemma {:induction false} SameTrans(F: Blocks, p: nat, k: nat, G: Blocks, q: nat, j: nat, H: Blocks, r: nat, i: nat)
    requires SameCover(F, p, k, G, q, j) && SameCover(G, q, j, H, r, i)
    ensures SameCover(F, p, k, H, r, i)
  {
  }

  /** A frame lies in at most one block. */
  lemma {:induction false} OneBlock(F: Blocks, p: nat, q: nat, f: nat)
    requires Apart(F) && p in F && q in F && Within(f, p, F[p]) && Within(f, q, F[q])
    ensures p == q
  {
    if F[p] <= F[q] {
      ShrMono(f, p, F[p], F[q]);
    } else {
      ShrMono(f, q, F[q], F[p]);
    }
  }

  /** Disjointness in the plain sense. */
  lemma {:induction false} BlocksDisjoint(F: Blocks, n: nat, M: nat, p: nat, q: nat)
    requires Proper(F, n, M) && Apart(F) && p in F && q in F && p != q
    ensures p + Pow2(F[p]) <= q || q + Pow2(F[q]) <= p
  {
    ShrRange(p, F[p], q);
    ShrRange(q, F[q], p);
  }

  /** In a coalesced set, an aligned block whose frames are all free lies inside one free block. */
  lemma {:induction false} Absorb(F: Blocks, n: nat, M: nat, q: nat, j: nat) returns (p: nat)
    requires Canonical(F, n, M) && Aligned(q, j) && j <= M
    requires forall f: nat | Within(f, q, j) :: Covers(F, f)
    ensures p in F && F[p] >= j && Within(q, p, F[p])
    decreases j
  {
    if j == 0 {
      assert Within(q, q, 0);
      p :| p in F && Within(q, p, F[p]);
    } else {
      var u := q + Pow2(j - 1);
      UpperHalf(q, j - 1);
      forall f: nat | Within(f, q, j - 1) || Within(f, u, j - 1)
        ensures Within(f, q, j)
      {
        Halves(q, j - 1, f);
      }
      p := Absorb(F, n, M, q, j - 1);
      var p2 := Absorb(F, n, M, u, j - 1);
      if F[p] == j - 1 {
        AlignedSame(p, q, j - 1);
        if F[p2] == j - 1 {
          AlignedSame(p2, u, j - 1);
          assert false;
        }
        Halves(q, j - 1, u);
        ShrMono(q, u, j, F[p2]);
        p := p2;
      }
    }
  }

  /** The order of a block is the same in both of two coalesced sets that cover the same frames. */
  lemma {:induction false} SameBlock(F: Blocks, G: Blocks, n: nat, M: nat, p: nat)
    requires Canonical(F, n, M) && Canonical(G, n, M) && p in F
    requires forall f: nat :: Covers(F, f) <==> Covers(G, f)
    ensures p in G && G[p] == F[p]
  {
    forall f: nat | Within(f, p, F[p])
      ensures Covers(G, f)
    {
      assert Covers(F, f);
    }
    var q := Absorb(G, n, M, p, F[p]);
    forall f: nat | Within(f, q, G[q])
      ensures Covers(F, f)
    {
      assert Covers(G, f);
    }
    var p2 := Absorb(F, n, M, q, G[q]);
    ShrMono(p, q, G[q], F[p2]);
    assert Within(p, p, F[p]);
    OneBlock(F, p, p2, p);
    AlignedSame(p, q, G[q]);
  }

  /** A coalesced set of free blocks is determined by the free frames. */
  lemma {:induction false} Unique(F: Blocks, G: Blocks, n: nat, M: nat)
    requires Canonical(F, n, M) && Canonical(G, n, M)
    requires forall f: nat :: Covers(F, f) <==> Covers(G, f)
    ensures F == G
  {
    forall p | p in F
      ensures p in G && G[p] == F[p]
    {
      SameBlock(F, G, n, M, p);
    }
    forall p | p in G
      ensures p in F && G[p] == F[p]
    {
      SameBlock(G, F, n, M, p);
    }
  }

  // ------------------------------------------------------------------ the four steps

  /** Taking a free block. */
  lemma {:induction false} Take(F: Blocks, n: nat, M: nat, p: nat)
    requires Canonical(F, n, M) && p in F
    ensures InHand(F - {p}, p, F[p], n, M)
    ensures forall f: nat :: Covers(F, f) <==> Covers(F - {p}, f) || Within(f, p, F[p])
  {
    var F' := F - {p};
    forall f: nat | Within(f, p, F[p])
      ensures !Covers(F', f)
    {
      if Covers(F', f) {
        var q :| q in F' && Within(f, q, F'[q]);
        OneBlock(F, p, q, f);
      }
    }
    forall f: nat
      ensures Covers(F, f) <==> Covers(F', f) || Within(f, p, F[p])
    {
      if Covers(F, f) {
        var q :| q in F && Within(f, q, F[q]);
        assert q != p ==> q in F' && Within(f, q, F'[q]);
      }
      if Covers(F', f) {
        var q :| q in F' && Within(f, q, F'[q]);
        assert q in F && Within(f, q, F[q]);
      }
    }
  }

  lemma {:induction false} CoversAdd(F: Blocks, p: nat, k: nat, f: nat)
    requires p !in F
    ensures Covers(F[p := k], f) <==> Covers(F, f) || Within(f, p, k)
  {
    var F' := F[p := k];
    if Covers(F, f) {
      var q :| q in F && Within(f, q, F[q]);
      assert q in F' && Within(f, q, F'[q]);
    }
    if Within(f, p, k) {
      assert p in F' && Within(f, p, F'[p]);
    }
    if Covers(F', f) {
      var q :| q in F' && Within(f, q, F'[q]);
      assert q != p ==> q in F && Within(f, q, F[q]);
    }
  }

  /** Adding a block none of whose frames is covered keeps blocks apart. */
  lemma {:induction false} AddApart(F: Blocks, p: nat, k: nat)
    requires Apart(F) && forall f: nat | Within(f, p, k) :: !Covers(F, f)
    ensures p !in F && Apart(F[p := k])
  {
    var F' := F[p := k];
    assert Within(p, p, k);
    forall a, b | a in F' && b in F' && a != b
      ensures !Within(b, a, F'[a])
    {
      if a == p {
        assert Within(b, b, F[b]);
      }
    }
    if p in F {
      assert Within(p, p, F[p]);
    }
  }

  /** Putting the block in hand back, when its buddy is not free at the same order. */
  lemma {:induction false} Put(F: Blocks, p: nat, k: nat, n: nat, M: nat)
    requires InHand(F, p, k, n, M)
    requires k < M ==> !(Flip(p, k) in F && F[Flip(p, k)] == k)
    ensures p !in F && Canonical(F[p := k], n, M)
    ensures forall f: nat :: Covers(F[p := k], f) <==> Covers(F, f) || Within(f, p, k)
  {
    AddApart(F, p, k);
    forall f: nat {
      CoversAdd(F, p, k, f);
    }
    var F' := F[p := k];
    forall q | q in F' && F'[q] < M
      ensures Flip(q, F'[q]) in F' ==> F'[Flip(q, F'[q])] != F'[q]
    {
      FlipBuddy(q, F'[q]);
    }
  }

  /** Splitting the block in hand: the upper half is freed, the lower half stays in hand. */
  lemma {:induction false} Split(F: Blocks, p: nat, k: nat, n: nat, M: nat)
    requires InHand(F, p, k + 1, n, M)
    ensures p + Pow2(k) !in F && InHand(F[p + Pow2(k) := k], p, k, n, M)
    ensures SameCover(F[p + Pow2(k) := k], p, k, F, p, k + 1)
  {
    var u := p + Pow2(k);
    UpperHalf(p, k);
    forall f: nat
      ensures Within(f, p, k + 1) <==> Within(f, p, k) || Within(f, u, k)
    {
      Halves(p, k, f);
    }
    assert !Covers(F, p) by { assert Within(p, p, k + 1); }
    if p in F {
      assert Within(p, p, F[p]);
    }
    assert InHand(F, u, k, n, M);
    Put(F, u, k, n, M);
  }

  /** Merging the block in hand with its free buddy. */
  lemma {:induction false} Merge(F: Blocks, p: nat, k: nat, n: nat, M: nat)
    requires InHand(F, p, k, n, M) && k < M && Flip(p, k) in F && F[Flip(p, k)] == k
    ensures var b := Flip(p, k);
            var p' := if b < p then b else p;
            InHand(F - {b}, p', k + 1, n, M) && SameCover(F - {b}, p', k + 1, F, p, k)
  {
    var b := Flip(p, k);
    FlipBuddy(p, k);
    Take(F, n, M, b);
    var p' := if b < p then b else p;
    var F' := F - {b};
    forall f: nat
      ensures Within(f, p', k + 1) <==> Within(f, p, k) || Within(f, b, k)
    {
      Halves(p, k, f);
    }
    forall f: nat | Within(f, p', k + 1)
      ensures !Covers(F', f)
    {
      assert Covers(F', f) ==> Covers(F, f);
    }
  }

  // ------------------------------------------------------------------ runs of splits and merges

  /** The free blocks and the block in hand. */
  datatype Hand = Hand(F: Blocks, p: nat, k: nat)

  ghost predicate Ok(h: Hand, n: nat, M: nat) {
    InHand(h.F, h.p, h.k, n, M)
  }

  ghost predicate SameFrames(g: Hand, h: Hand) {
    SameCover(g.F, g.p, g.k, h.F, h.p, h.k)
  }

  /** The upper halves given back while the block in hand goes from its order down to `k`. */
  function SplitTo(h: Hand, k: nat): Hand
    requires k <= h.k
    decreases h.k - k
  {
    if k == h.k then h else
      var g := SplitTo(h, k + 1);
      Hand(g.F[h.p + Pow2(k) := k], h.p, k)
  }

  lemma {:induction false} SplitToOk(h: Hand, k: nat, n: nat, M: nat)
    requires k <= h.k && Ok(h, n, M)
    ensures Ok(SplitTo(h, k), n, M) && SameFrames(SplitTo(h, k), h) && SplitTo(h, k).p == h.p && SplitTo(h, k).k == k
    decreases h.k - k
  {
    if k == h.k {
      assert SplitTo(h, k) == h;
    } else {
      SplitToOk(h, k + 1, n, M);
      var g := SplitTo(h, k + 1);
      SplitHand(g, k, h, n, M);
      assert SplitTo(h, k) == Hand(g.F[g.p + Pow2(k) := k], g.p, k);
    }
  }

  lemma {:induction false} SplitHand(g: Hand, k: nat, h: Hand, n: nat, M: nat)
    requires g.k == k + 1 && Ok(g, n, M) && SameFrames(g, h)
    ensures var g' := Hand(g.F[g.p + Pow2(k) := k], g.p, k); Ok(g', n, M) && SameFrames(g', h)
  {
    Split(g.F, g.p, k, n, M);
    SameTrans(g.F[g.p + Pow2(k) := k], g.p, k, g.F, g.p, k + 1, h.F, h.p, h.k);
  }

  /** What one more split needs to know. */
  lemma {:induction false} SplitToNext(h: Hand, k: nat, n: nat, M: nat)
    requires k < h.k && Ok(h, n, M)
    ensures var b := h.p + Pow2(k);
            && b !in SplitTo(h, k + 1).F && 0 < b < n && k <= M && Aligned(h.p, k + 1)
            && SplitTo(h, k).F == SplitTo(h, k + 1).F[b := k]
  {
    SplitToOk(h, k + 1, n, M);
    var g := SplitTo(h, k + 1);
    Split(g.F, g.p, k, n, M);
  }

  predicate Mergeable(h: Hand, M: nat) {
    h.k < M && Flip(h.p, h.k) in h.F && h.F[Flip(h.p, h.k)] == h.k
  }

  function MergeOnce(h: Hand): Hand {
    var b := Flip(h.p, h.k);
    Hand(h.F - {b}, if b < h.p then b else h.p, h.k + 1)
  }

  /** `i` merges with a free buddy. */
  function Merged(h: Hand, i: nat): Hand {
    if i == 0 then h else MergeOnce(Merged(h, i - 1))
  }

  /** Each of them was possible. */
  predicate MergeRun(h: Hand, i: nat, M: nat) {
    i == 0 || (MergeRun(h, i - 1, M) && Mergeable(Merged(h, i - 1), M))
  }

  lemma {:induction false} MergedOk(h: Hand, i: nat, n: nat, M: nat)
    requires Ok(h, n, M) && MergeRun(h, i, M)
    ensures Ok(Merged(h, i), n, M) && SameFrames(Merged(h, i), h) && Merged(h, i).k == h.k + i
  {
    if i > 0 {
      MergedOk(h, i - 1, n, M);
      var g := Merged(h, i - 1);
      var g' := Merged(h, i);
      Merge(g.F, g.p, g.k, n, M);
      SameTrans(g'.F, g'.p, g'.k, g.F, g.p, g.k, h.F, h.p, h.k);
    }
  }

  /** What the merging loop needs to know of the block in hand. */
  lemma {:induction false} MergedNext(h: Hand, i: nat, n: nat, M: nat)
    requires Ok(h, n, M) && MergeRun(h, i, M)
    ensures var g := Merged(h, i);
            && g.k == h.k + i <= M && g.p > 0 && Aligned(g.p, g.k) && g.p + Pow2(g.k) <= n && g.p !in g.F
            && (Mergeable(g, M) ==>
                  var b := Flip(g.p, g.k);
                  var p' := if b < g.p then b else g.p;
                  b < n && p' > 0 && Aligned(p', g.k + 1) && p' + Pow2(g.k + 1) <= n && Within(b, g.p, g.k + 1))
  {
    MergedOk(h, i, n, M);
    var g := Merged(h, i);
    assert Within(g.p, g.p, g.k);
    assert g.p in g.F ==> Within(g.p, g.p, g.F[g.p]);
    if Mergeable(g, M) {
      Merge(g.F, g.p, g.k, n, M);
      FlipBuddy(g.p, g.k);
      Halves(g.p, g.k, Flip(g.p, g.k));
    }
  }

  /** Freeing what the last merge left in hand. */
  lemma {:induction false} MergedPut(h: Hand, i: nat, n: nat, M: nat)
    requires Ok(h, n, M) && MergeRun(h, i, M) && !Mergeable(Merged(h, i), M)
    ensures var g := Merged(h, i);
            && Canonical(g.F[g.p := g.k], n, M)
            && forall f: nat :: Covers(g.F[g.p := g.k], f) <==> Covers(h.F, f) || Within(f, h.p, h.k)
  {
    MergedOk(h, i, n, M);
    var g := Merged(h, i);
    Put(g.F, g.p, g.k, n, M);
  }
}
