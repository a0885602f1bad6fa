/** Free blocks, held blocks and managed frames: what allocation and freeing do to the three. */
module BuddyHeld {
  import opened Bits
  import opened BuddyBlocks
  import opened BuddyLists

  /** Held blocks are proper and apart; free and held blocks share no frame and make up `managed`. */
  ghost predicate Partition(F: Blocks, H: Blocks, managed: set<nat>, n: nat, M: nat) {
    && Proper(H, n, M) && Apart(H)
    && (forall f: nat :: !(Covers(F, f) && Covers(H, f)))
    && (forall f: nat :: Covers(F, f) || Covers(H, f) <==> f in managed)
  }

  /** The frames of a block have moved out of `F`. */
  ghost predicate Removed(F: Blocks, F': Blocks, p: nat, k: nat) {
    && (forall f: nat :: Covers(F, f) <==> Covers(F', f) || Within(f, p, k))
    && (forall f: nat :: !(Covers(F', f) && Within(f, p, k)))
  }

  ghost function ManagedIn(managed: set<nat>, z: nat): set<nat> {
    set f | f in managed && ZoneOf(f) == z
  }

  predicate WatermarksOk(zone: Zone) {
    |zone.watermark| == 3 && zone.watermark[0] <= zone.watermark[1] <= zone.watermark[2]
  }

  /** Only reference counts differ. */
  ghost predicate RefsOnly(pages: seq<Page>, pages': seq<Page>) {
    |pages'| == |pages| && forall p | 0 <= p < |pages| :: pages'[p] == pages[p].(refcount := pages'[p].refcount)
  }

  lemma {:induction false} RefsKeep(next: seq<int>, pages: seq<Page>, pages': seq<Page>, zones: seq<Zone>,
                                    lists: seq<seq<seq<nat>>>)
    requires ListsOk(next, pages, zones, lists) && RefsOnly(pages, pages')
    ensures ListsOk(next, pages', zones, lists) && FreeOf(pages') == FreeOf(pages)
  {
  }

  lemma {:induction false} HoldOk(F: Blocks, F': Blocks, H: Blocks, managed: set<nat>, p: nat, k: nat, n: nat, M: nat)
    requires Partition(F, H, managed, n, M) && InHand(F', p, k, n, M)
    requires forall f: nat :: Covers(F, f) <==> Covers(F', f) || Within(f, p, k)
    ensures p !in H && Partition(F', H[p := k], managed, n, M) && Removed(F, F', p, k)
  {
    forall f: nat | Within(f, p, k)
      ensures !Covers(H, f)
    {
      assert Covers(F, f);
    }
    AddApart(H, p, k);
    forall f: nat {
      CoversAdd(H, p, k, f);
    }
  }

  /** A held block may be freed. */
  lemma {:induction false} HeldInHand(F: Blocks, H: Blocks, managed: set<nat>, p: nat, n: nat, M: nat)
    requires Canonical(F, n, M) && Partition(F, H, managed, n, M) && p in H
    ensures InHand(F, p, H[p], n, M)
  {
  }

  lemma {:induction false} DropOk(F: Blocks, F': Blocks, H: Blocks, managed: set<nat>, p: nat, n: nat, M: nat)
    requires Partition(F, H, managed, n, M) && p in H
    requires forall f: nat :: Covers(F', f) <==> Covers(F, f) || Within(f, p, H[p])
    ensures Partition(F', H - {p}, managed, n, M) && Removed(F', F, p, H[p])
  {
    var H' := H - {p};
    forall f: nat
      ensures Covers(H, f) <==> Covers(H', f) || Within(f, p, H[p])
      ensures !(Covers(H', f) && Within(f, p, H[p]))
    {
      if Covers(H, f) {
        var q :| q in H && Within(f, q, H[q]);
        assert q != p ==> q in H' && Within(f, q, H'[q]);
      }
      if Covers(H', f) {
        var q :| q in H' && Within(f, q, H'[q]);
        assert q in H && Within(f, q, H[q]);
        if Within(f, p, H[p]) {
          OneBlock(H, p, q, f);
        }
      }
    }
  }

  /** Freeing what was allocated brings back exactly the previous free blocks. */
  lemma {:induction false} FreeRestores(F: Blocks, F': Blocks, F'': Blocks, p: nat, k: nat, n: nat, M: nat)
    requires Canonical(F, n, M) && Canonical(F'', n, M)
    requires Removed(F, F', p, k) && Removed(F'', F', p, k)
    ensures F'' == F
  {
    Unique(F, F'', n, M);
  }

  /** Zone fields other than the lists do not matter to the lists. */
  lemma {:induction false} ZonesKeep(next: seq<int>, pages: seq<Page>, zones: seq<Zone>, zones': seq<Zone>,
                                     lists: seq<seq<seq<nat>>>)
    requires ListsOk(next, pages, zones, lists) && |zones'| == 2 && zones'[0].area == zones[0].area
    requires zones'[1].area == zones[1].area
    ensures ListsOk(next, pages, zones', lists)
  {
  }

  /** A frame not yet covered is a block of order 0 in hand. */
  lemma {:induction false} FrameInHand(F: Blocks, i: nat, n: nat, M: nat)
    requires Canonical(F, n, M) && 0 < i < n && !Covers(F, i)
    ensures i !in F && InHand(F, i, 0, n, M) && forall f: nat :: Within(f, i, 0) <==> f == i
  {
  }

  lemma {:induction false} ManagedGrow(managed: set<nat>, i: nat, z: nat)
    requires i !in managed && z < 2
    ensures |ManagedIn(managed + {i}, z)| == |ManagedIn(managed, z)| + if ZoneOf(i) == z then 1 else 0
  {
    if ZoneOf(i) == z {
      assert ManagedIn(managed + {i}, z) == ManagedIn(managed, z) + {i};
    } else {
      assert ManagedIn(managed + {i}, z) == ManagedIn(managed, z);
    }
  }

  lemma {:induction false} SameElseFields(pages: seq<Page>, pages': seq<Page>, zones: seq<Zone>, zones': seq<Zone>)
    requires SameElse(pages, pages', zones, zones')
    ensures forall z | 0 <= z < |zones| ::
              zones'[z].managed == zones[z].managed && zones'[z].watermark == zones[z].watermark
    ensures forall p | 0 <= p < |pages| ::
              pages'[p].reserved == pages[p].reserved && pages'[p].refcount == pages[p].refcount
  {
  }

  lemma {:induction false} PartitionStart(F: Blocks, managed: set<nat>, n: nat, M: nat)
    requires Canonical(F, n, M) && forall f: nat :: Covers(F, f) <==> f in managed
    ensures Partition(F, map[], managed, n, M)
  {
  }
}
