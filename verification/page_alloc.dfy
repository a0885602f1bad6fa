/** mm/page_alloc.c and mm/mmzone.c: the buddy page allocator over two zones. */
module PageAlloc {
  import opened Bits
  import opened BuddyBlocks
  import opened BuddyLists
  import opened BuddyZones
  import opened BuddyCount
  import opened BuddyHeld
  import opened PageOutcome

  /** The loop of free_area_init_core that finds buddy_max_order. */
  method FitOrder(n: nat) returns (m: nat)
    requires n > 0
    ensures TopOrder(m, n)
  {
    m := MAX_ORDER - 1;
    while m > 0 && Pow2(m) > n
      invariant m < MAX_ORDER && forall o: nat | m < o <= 10 :: Pow2(o) > n
    {
      m := m - 1;
    }
  }

  class PageAllocator {
    var next: seq<int>
    var pages: seq<Page>
    var zones: seq<Zone>
    var maxOrder: nat
    ghost var lists: seq<seq<seq<nat>>>
    ghost var held: Blocks
    ghost var managed: set<nat>

    /** Zone layout of init_zones. */
    ghost predicate Layout()
      reads this
    {
      && maxOrder < MAX_ORDER && |zones| == 2
      && zones[0].start == 0 && ZoneEnd(zones[0]) == zones[1].start
      && ZoneEnd(zones[0]) == (if |pages| < MAX_DMA_PFN then |pages| else MAX_DMA_PFN)
      && ZoneEnd(zones[1]) == |pages|
      && ListsOk(next, pages, zones, lists)
    }

    ghost function Free(): Blocks
      reads this
    {
      FreeOf(pages)
    }

    ghost predicate Sound()
      reads this
    {
      Layout() && Canonical(Free(), |pages|, maxOrder)
    }

    /** Everything but the lists and the buddy marks is as before. */
    twostate predicate OnlyLists()
      reads this
    {
      maxOrder == old(maxOrder) && SameElse(old(pages), pages, old(zones), zones)
    }

    ghost function Now(): Snap
      reads this
    {
      Snap(held, pages, zones)
    }

    function ZoneFree(z: nat): nat
      requires z < |zones|
      reads this
    {
      FreePages(zones[z].area, |zones[z].area|)
    }

    /** init_zones and free_area_init_core: empty lists over `|reserved|` frames. */
    constructor (reserved: seq<bool>)
      requires |reserved| > 0
      ensures Sound() && Free() == map[] && held == map[] && TopOrder(maxOrder, |pages|)
      ensures |pages| == |reserved| && forall p | 0 <= p < |pages| :: pages[p] == Page(false, reserved[p], 0, 0)
    {
      var n := |reserved|;
      var dma := if n < MAX_DMA_PFN then n else MAX_DMA_PFN;
      next := seq(n, i => -1);
      pages := seq(n, i requires 0 <= i < n => Page(false, reserved[i], 0, 0));
      var empty := seq(MAX_ORDER, i => FreeArea(-1, 0));
      zones := [Zone(0, dma, 0, [0, 0, 0], empty), Zone(dma, n - dma, 0, [0, 0, 0], empty)];
      lists := [seq(MAX_ORDER, i => []), seq(MAX_ORDER, i => [])];
      held, managed := map[], {};
      var m := FitOrder(n);
      maxOrder := m;
    }

    /** buddy_list_add */
    method ListAdd(z: nat, o: nat, page: nat)
      requires Layout() && z == ZoneOf(page) && o < MAX_ORDER && page < |pages| && !pages[page].buddy
      modifies this`next, this`pages, this`zones, this`lists
      ensures Layout() && OnlyLists()
      ensures Free() == if page == 0 then old(Free()) else old(Free())[page := o]
      ensures Shifted(old(zones), zones, z, o, o + 1, if page == 0 then 0 else 1)
    {
      if page == 0 {
        return;
      }
      AddOk(next, pages, zones, lists, z, o, page);
      var a := zones[z].area[o];
      next := next[page := a.freeList];
      zones := SetArea(zones, z, o, FreeArea(page, a.nrFree + 1));
      pages := pages[page := pages[page].(buddy := true, order := o)];
      lists := SetList(lists, z, o, [page] + lists[z][o]);
    }

    /** Unlinking `cur`, which follows `prev` (or the head, if `prev` is -1) in a free list. */
    method Unlink(z: nat, o: nat, prev: int, cur: nat, ghost i: nat)
      requires Layout() && z < 2 && o < MAX_ORDER && i < |lists[z][o]| && cur == lists[z][o][i]
      requires prev == if i == 0 then -1 else lists[z][o][i - 1]
      modifies this`next, this`pages, this`zones, this`lists
      ensures Layout() && OnlyLists() && cur in old(Free()) && Free() == old(Free()) - {cur}
      ensures Shifted(old(zones), zones, z, o, o + 1, -1)
    {
      ghost var l := lists[z][o];
      Listed(next, pages, zones, lists, z, o, i);
      Listed(next, pages, zones, lists, z, o, if i == 0 then 0 else i - 1);
      var a := zones[z].area[o];
      var a' := FreeArea(if prev < 0 then next[cur] else a.freeList, a.nrFree - 1);
      RemoveOk(next, pages, zones, lists, z, o, i, cur, l[if i == 0 then 0 else i - 1], a');
      if prev >= 0 {
        next := next[prev := next[cur]];
      }
      next := next[cur := -1];
      zones := SetArea(zones, z, o, a');
      pages := pages[cur := pages[cur].(buddy := false)];
      lists := SetList(lists, z, o, DropAt(l, i));
    }

    /** buddy_list_remove */
    method ListRemove(z: nat, o: nat, page: nat)
      requires Layout() && z < 2 && o < MAX_ORDER && page < |pages|
      modifies this`next, this`pages, this`zones, this`lists
      ensures Layout() && OnlyLists()
      ensures var present := old(pages[page].buddy && pages[page].order == o && ZoneOf(page) == z);
              && Free() == (if present then old(Free()) - {page} else old(Free()))
              && Shifted(old(zones), zones, z, o, o + 1, if present then -1 else 0)
    {
      ghost var l := lists[z][o];
      ghost var i := 0;
      var prev, cur := -1, zones[z].area[o].freeList;
      assert AreaOk(next, pages, zones[z].area[o], l, z, o);
      assert l[0..] == l;
      while cur >= 0
        invariant 0 <= i <= |l| && Chain(next, cur, l[i..])
        invariant prev == if i == 0 then -1 else l[i - 1]
        invariant page !in l[..i]
        invariant unchanged(this)
        decreases |l| - i
      {
        assert i < |l| && cur == l[i] by { assert l[i..] != []; }
        if cur == page {
          Unlink(z, o, prev, cur, i);
          return;
        }
        prev, cur := cur, next[cur];
        assert l[i..][1..] == l[i + 1..] && l[..i + 1] == l[..i] + [l[i]];
        i := i + 1;
      }
      assert l[..i] == l;
    }

    /** buddy_alloc: -1 or the first frame of a block of `order`, taken from the free frames of zone `z`. */
    method BuddyAlloc(z: nat, order: nat) returns (page: int)
      requires Sound() && z < 2
      modifies this`next, this`pages, this`zones, this`lists
      ensures Sound() && OnlyLists()
      ensures page == -1 <==> forall p | p in old(Free()) && ZoneOf(p) == z :: old(Free())[p] < order
      ensures page == -1 ==> pages == old(pages) && zones == old(zones) && next == old(next) && lists == old(lists)
      ensures page != -1 ==>
                && page > 0 && InHand(Free(), page, order, |pages|, maxOrder) && ZoneOf(page) == z
                && (forall f: nat :: old(Covers(Free(), f)) <==> Covers(Free(), f) || Within(f, page, order))
                && Gained(old(zones), zones, z, 0 - Pow2(order))
                && BestFit(old(Free()), Free(), z, page, order)
    {
      var o := order;
      while o <= maxOrder
        invariant Sound() && unchanged(this) && order <= o
        invariant forall p | p in Free() && ZoneOf(p) == z :: Free()[p] < order || o <= Free()[p]
      {
        ghost var l := lists[z][o];
        assert AreaOk(next, pages, zones[z].area[o], l, z, o);
        page := zones[z].area[o].freeList;
        if page < 0 {
          o := o + 1;
          continue;
        }
        assert l != [] && page in l;
        if page == 0 {
          assert false;
        }
        Take(Free(), |pages|, maxOrder, page);
        Unlink(z, o, -1, page, 0);
        ghost var h, zs := Hand(Free(), page, o), zones;
        SplitDown(z, page, o, order);
        SplitToOk(h, order, |pages|, maxOrder);
        GainedSplit(old(zones), zs, zones, z, order, o);
        return;
      }
      page := -1;
    }

    /** buddy_alloc's inner loop: gives back the upper half until the block in hand has order `order`. */
    method SplitDown(z: nat, page: nat, o0: nat, order: nat)
      requires Layout() && Ok(Hand(Free(), page, o0), |pages|, maxOrder) && ZoneOf(page) == z && order <= o0
      modifies this`next, this`pages, this`zones, this`lists
      ensures Layout() && OnlyLists() && Free() == SplitTo(Hand(old(Free()), page, o0), order).F
      ensures Shifted(old(zones), zones, z, order, o0, 1)
    {
      var o := o0;
      ghost var h := Hand(Free(), page, o0);
      while o > order
        invariant order <= o <= o0 && Layout() && OnlyLists() && Free() == SplitTo(h, o).F
        invariant Shifted(old(zones), zones, z, o, o0, 1)
      {
        o := o - 1;
        GiveHalf(z, page, o, h, old(zones));
      }
    }

    /** One turn of that loop: the upper half, of order `o`, goes back. */
    method GiveHalf(z: nat, page: nat, o: nat, ghost h: Hand, ghost zs: seq<Zone>)
      requires Layout() && Ok(h, |pages|, maxOrder) && ZoneOf(page) == z && h.p == page && o < h.k
      requires Free() == SplitTo(h, o + 1).F && Shifted(zs, zones, z, o + 1, h.k, 1)
      modifies this`next, this`pages, this`zones, this`lists
      ensures Layout() && OnlyLists() && Free() == SplitTo(h, o).F && Shifted(zs, zones, z, o, h.k, 1)
    {
      SplitToNext(h, o, |pages|, maxOrder);
      UpperZone(page, o + 1);
      var buddy := page + Pow2(o);
      assert !pages[buddy].buddy by {
        assert buddy !in Free();
      }
      ListAdd(z, o, buddy);
      ShiftedDown(zs, old(zones), zones, z, o, o + 1, h.k, 1);
    }

    /** The last loop of buddy_free_block: the order is lowered while the block sticks out of the zone. */
    method Clamp(page: nat, order: nat, zoneEnd: nat) returns (o: nat)
      ensures o <= order && (o == 0 || page + Pow2(o) <= zoneEnd)
      ensures page + Pow2(order) <= zoneEnd ==> o == order
    {
      o := order;
      while o > 0 && page + Pow2(o) > zoneEnd
        invariant o <= order && (page + Pow2(order) <= zoneEnd ==> o == order)
      {
        o := o - 1;
      }
    }

    /** The tests at the top of buddy_free_block's loop body: is the buddy a free block of this order in this zone? */
    method BuddyIsFree(z: nat, page: nat, order: nat, ghost h: Hand, ghost i: nat) returns (yes: bool)
      requires Layout() && Ok(h, |pages|, maxOrder) && MergeRun(h, i, maxOrder)
      requires Hand(Free(), page, order) == Merged(h, i) && z == ZoneOf(page) && order < maxOrder
      ensures yes <==> Mergeable(Hand(Free(), page, order), maxOrder)
      ensures yes ==> Flip(page, order) < |pages| && ZoneOf(Flip(page, order)) == z
    {
      MergedZone(h, i, |pages|, maxOrder);
      var zoneEnd := zones[z].start + zones[z].spanned;
      var buddy := Flip(page, order);
      if buddy < zones[z].start || buddy >= zoneEnd {
        return false;
      }
      var newBase := if buddy < page then buddy else page;
      if newBase + Pow2(order + 1) > zoneEnd {
        return false;
      }
      yes := pages[buddy].buddy && pages[buddy].order == order;
    }

    /** buddy_free_block's merging loop. */
    method MergeUp(z: nat, page0: nat, order0: nat) returns (page: nat, order: nat, ghost i: nat)
      requires Layout() && Ok(Hand(Free(), page0, order0), |pages|, maxOrder) && z == ZoneOf(page0)
      modifies this`next, this`pages, this`zones, this`lists
      ensures Layout() && OnlyLists() && ZoneOf(page) == z
      ensures MergeRun(Hand(old(Free()), page0, order0), i, maxOrder)
      ensures Hand(Free(), page, order) == Merged(Hand(old(Free()), page0, order0), i)
      ensures !Mergeable(Hand(Free(), page, order), maxOrder)
      ensures order0 <= order && Shifted(old(zones), zones, z, order0, order, -1)
    {
      page, order := page0, order0;
      ghost var h := Hand(Free(), page0, order0);
      i := 0;
      while order < maxOrder
        invariant Layout() && OnlyLists() && ZoneOf(page) == z && MergeRun(h, i, maxOrder)
        invariant Hand(Free(), page, order) == Merged(h, i)
        invariant order0 <= order && Shifted(old(zones), zones, z, order0, order, -1)
      {
        var yes, page' := MergeOne(z, page, order, h, i, old(zones), order0);
        if !yes {
          break;
        }
        page, order, i := page', order + 1, i + 1;
      }
    }

    /** One turn of that loop: the buddy, if it is free, leaves its list. */
    method MergeOne(z: nat, page: nat, order: nat, ghost h: Hand, ghost i: nat, ghost zs: seq<Zone>, ghost order0: nat)
      returns (yes: bool, page': nat)
      requires Layout() && Ok(h, |pages|, maxOrder) && MergeRun(h, i, maxOrder)
      requires Hand(Free(), page, order) == Merged(h, i) && z == ZoneOf(page) && order0 <= order < maxOrder
      requires Shifted(zs, zones, z, order0, order, -1)
      modifies this`next, this`pages, this`zones, this`lists
      ensures Layout() && (yes <==> old(Mergeable(Hand(Free(), page, order), maxOrder)))
      ensures !yes ==> pages == old(pages) && zones == old(zones)
      ensures yes ==> OnlyLists() && ZoneOf(page') == z && MergeRun(h, i + 1, maxOrder)
      ensures yes ==> Hand(Free(), page', order + 1) == Merged(h, i + 1)
      ensures yes ==> Shifted(zs, zones, z, order0, order + 1, -1)
    {
      page' := page;
      yes := BuddyIsFree(z, page, order, h, i);
      if yes {
        var buddy := Flip(page, order);
        ghost var zs' := zones;
        ListRemove(z, order, buddy);
        ShiftedStep(zs, zs', zones, z, order0, order, order + 1, -1);
        if buddy < page {
          page' := buddy;
        }
      }
    }

    /** buddy_free_block: the block's frames become free, and free blocks stay coalesced. */
    method BuddyFreeBlock(z: nat, page0: nat, order0: nat)
      requires Sound() && InHand(Free(), page0, order0, |pages|, maxOrder) && z == ZoneOf(page0)
      modifies this`next, this`pages, this`zones, this`lists
      ensures Sound() && OnlyLists()
      ensures forall f: nat :: Covers(Free(), f) <==> old(Covers(Free(), f)) || Within(f, page0, order0)
      ensures Gained(old(zones), zones, z, Pow2(order0))
    {
      ghost var h, i := Hand(Free(), page0, order0), 0;
      var page, order;
      page, order, i := MergeUp(z, page0, order0);
      MergedZone(h, i, |pages|, maxOrder);
      ghost var zs := zones;
      order := Clamp(page, order, zones[z].start + zones[z].spanned);
      ListAdd(z, order, page);
      MergedPut(h, i, |pages|, maxOrder);
      GainedMerge(old(zones), zs, zones, z, order0, order);
    }

    // ------------------------------------------------------------------ the allocator as its callers see it

    /** Free and held blocks share no frame and together are the managed frames. */
    ghost predicate Valid()
      reads this
    {
      && Sound() && TopOrder(maxOrder, |pages|) && Partition(Free(), held, managed, |pages|, maxOrder)
      && (forall z | 0 <= z < 2 :: WatermarksOk(zones[z]) && zones[z].managed == |ManagedIn(managed, z)|)
    }

    /** zone_free_pages */
    method ZoneFreePages(z: nat) returns (free: nat)
      requires z < |zones|
      ensures free == ZoneFree(z)
    {
      free := 0;
      var order := 0;
      while order < |zones[z].area|
        invariant order <= |zones[z].area| && free == FreePages(zones[z].area, order)
      {
        free := free + Shl(zones[z].area[order].nrFree, order);
        order := order + 1;
      }
    }

    /** zone_watermark_ok */
    method ZoneWatermarkOk(z: nat, order: nat, mark: nat) returns (ok: bool)
      requires z < |zones| && mark < |zones[z].watermark|
      ensures ok <==> ZoneFree(z) > Pow2(order) + zones[z].watermark[mark]
    {
      var free := ZoneFreePages(z);
      var needed := Pow2(order);
      if free < needed {
        return false;
      }
      ok := free - needed > zones[z].watermark[mark];
    }

    /** Sets the reference counts of the frames of a block just allocated. */
    method SetRefs(frame: nat, order: nat)
      requires frame + Pow2(order) <= |pages|
      modifies this`pages
      ensures RefsOnly(old(pages), pages) && RefsSet(old(pages), pages, frame, order)
    {
      var run, j := Pow2(order), 0;
      while j < run
        invariant j <= run && RefsOnly(old(pages), pages)
        invariant forall f | 0 <= f < |pages| ::
                    pages[f].refcount == if frame <= f < frame + j then 1 else old(pages[f].refcount)
      {
        pages := pages[frame + j := pages[frame + j].(refcount := 1)];
        j := j + 1;
      }
    }

    /** What a successful allocation of `frame` does. */
    twostate predicate Got(frame: nat, order: nat)
      reads this
    {
      GotFrom(old(Now()), Now(), frame, order)
    }

    /** One attempt of __alloc_pages_nodemask in zone `z`: buddy_alloc, then reference counts of 1. */
    method AllocIn(z: nat, order: nat) returns (frame: int)
      requires Valid() && z < 2
      modifies this`next, this`pages, this`zones, this`lists, this`held
      ensures Valid() && -1 <= frame
      ensures frame == -1 ==> unchanged(this)
      ensures frame == -1 <==> !HasBlock(old(Free()), z, order)
      ensures frame != -1 ==> Got(frame, order) && ZoneOf(frame) == z
    {
      frame := BuddyAlloc(z, order);
      if frame >= 0 {
        ghost var zs, ps := zones, pages;
        SameElseFields(old(pages), ps, old(zones), zs);
        HoldOk(old(Free()), Free(), held, managed, frame, order, |pages|, maxOrder);
        Claim(frame, order);
        GotIt(old(Now()), ps, pages, zs, frame, order);
      }
    }

    /** The block is held now, and each of its frames has one reference. */
    method Claim(frame: nat, order: nat)
      requires Sound() && TopOrder(maxOrder, |pages|)
      requires Partition(Free(), held[frame := order], managed, |pages|, maxOrder)
      requires frame + Pow2(order) <= |pages|
      requires forall z | 0 <= z < 2 :: WatermarksOk(zones[z]) && zones[z].managed == |ManagedIn(managed, z)|
      modifies this`pages, this`held
      ensures Valid() && held == old(held)[frame := order] && Free() == old(Free())
      ensures RefsSet(old(pages), pages, frame, order)
    {
      held := held[frame := order];
      SetRefs(frame, order);
      RefsKeep(next, old(pages), pages, zones, lists);
    }

    /** One zone of a pass. */
    method TryZone(z: nat, order: nat, mark: nat) returns (frame: int, ok: bool)
      requires Valid() && z < 2 && mark < 3
      modifies this`next, this`pages, this`zones, this`lists, this`held
      ensures Valid() && -1 <= frame && ok == old(ZoneFree(z) > Pow2(order) + zones[z].watermark[mark])
      ensures frame == -1 ==> unchanged(this) && !CanServe(Now(), z, order, mark)
      ensures frame != -1 ==> ZoneOf(frame) == z && Taken(old(Now()), Now(), frame, order, mark)
    {
      frame := -1;
      ok := ZoneWatermarkOk(z, order, mark);
      if ok {
        frame := AllocIn(z, order);
      }
    }

    /** A pass of __alloc_pages_nodemask over the zone list, against the high or the low mark. */
    method AllocPass(order: nat, zonelist: seq<nat>, mark: nat, ghost victims: seq<nat>, ghost s: Snap)
      returns (frame: int, ghost i: nat)
      requires Valid() && 0 < mark < 3 && |victims| == |zonelist| && forall i | 0 <= i < |zonelist| :: zonelist[i] < 2
      requires s == Now() && NoneAbove(s, zonelist, order, mark)
      modifies this`next, this`pages, this`zones, this`lists, this`held
      ensures Valid() && -1 <= frame
      ensures if frame == -1 then unchanged(this) && NoneAbove(s, zonelist, order, mark - 1)
              else Outcome(s, s, Now(), frame, order, zonelist, victims, i, mark)
    {
      DrainNone(s);
      i := 0;
      var n := 0;
      while n < |zonelist|
        invariant i == n <= |zonelist| && unchanged(this) && NoneServes(s, zonelist, n, order, mark)
      {
        var ok;
        frame, ok := TryZone(zonelist[n], order, mark);
        if frame >= 0 {
          return;
        }
        NoneMore(s, zonelist, n, order, mark);
        n := n + 1;
        i := n;
      }
      NoneLower(s, zonelist, order, mark);
      frame := -1;
    }

    /** The passes against the high and the low mark. */
    method EarlyPasses(order: nat, zonelist: seq<nat>, ghost victims: seq<nat>, ghost s: Snap)
      returns (frame: int, ghost i: nat, ghost mark: nat)
      requires Valid() && |victims| == |zonelist| && (forall i | 0 <= i < |zonelist| :: zonelist[i] < 2) && s == Now()
      modifies this`next, this`pages, this`zones, this`lists, this`held
      ensures Valid() && -1 <= frame
      ensures if frame == -1 then unchanged(this) && NoneAbove(s, zonelist, order, 0)
              else Outcome(s, s, Now(), frame, order, zonelist, victims, i, mark)
    {
      var pass, m := 0, 2;
      i, mark := 0, 2;
      while pass < 2
        invariant pass <= 2 && unchanged(this) && m == 2 - pass && NoneAbove(s, zonelist, order, m)
      {
        frame, i := AllocPass(order, zonelist, m, victims, s);
        if frame >= 0 {
          mark := m;
          return;
        }
        pass := pass + 1;
        m := m - 1;
      }
      frame := -1;
    }

    /** alloc_reclaim_slowpath: shrink_zone gives back the page `victim`, or none if it is 0. */
    method Reclaim(victim: nat, ghost victims: seq<nat>, ghost i: nat)
      requires Valid() && i < |victims| && victim == victims[i] && Spare(held, pages, victims, i) && Distinct(victims)
      modifies this`next, this`pages, this`zones, this`lists, this`held
      ensures Valid() && Spare(held, pages, victims, i + 1)
      ensures if victim == 0 then unchanged(this)
              else More(old(Now()), Now()) && victim in old(held) && held == old(held) - {victim}
      ensures victim != 0 ==> Gained(old(zones), zones, ZoneOf(victim), 1)
    {
      if victim != 0 {
        FreePagesOf(victim, 0);
        Returned(old(held), old(pages), pages, victim, victims, i);
      }
    }

    /** One zone of the last pass, which began in state `s`. */
    method LastZone(order: nat, zonelist: seq<nat>, victims: seq<nat>, i: nat, ghost s: Snap, ghost ns: seq<int>,
                    ghost ls: seq<seq<seq<nat>>>)
      returns (frame: int)
      requires Valid() && i < |zonelist| == |victims| && zonelist[i] < 2
      requires Spare(held, pages, victims, i) && Distinct(victims)
      requires Drain(s, Now(), Drained(s, zonelist, victims, order, i))
      requires ListsOk(ns, s.pages, s.zones, ls) && Canonical(FreeOf(s.pages), |s.pages|, maxOrder)
      modifies this`next, this`pages, this`zones, this`lists, this`held
      ensures Valid() && -1 <= frame
      ensures frame == -1 ==> Spare(held, pages, victims, i + 1) && !CanServe(s, zonelist[i], order, 0)
      ensures frame == -1 ==> Drain(s, Now(), Drained(s, zonelist, victims, order, i + 1))
      ensures frame != -1 ==> ZoneOf(frame) == zonelist[i] && Taken(old(Now()), Now(), frame, order, 0)
    {
      var ok;
      frame, ok := TryZone(zonelist[i], order, 0);
      if frame >= 0 {
        return;
      }
      MoreServe(ns, s, ls, next, Now(), lists, maxOrder, zonelist[i], order);
      ghost var t, D := Now(), Drained(s, zonelist, victims, order, i);
      assert ok <==> !Short(s, D, zonelist[i], order);
      if !ok {
        Reclaim(victims[i], victims, i);
        if victims[i] != 0 {
          DrainOne(s, t, Now(), D, victims[i]);
        }
      }
    }

    /** The last pass: where a zone would fall to its min mark reclaim runs, and the pass goes on with the next zone. */
    method LastPass(order: nat, zonelist: seq<nat>, victims: seq<nat>, ghost s: Snap)
      returns (frame: int, ghost from: Snap, ghost i: nat)
      requires Valid() && forall i | 0 <= i < |zonelist| :: zonelist[i] < 2
      requires |victims| == |zonelist| && Spare(held, pages, victims, 0) && Distinct(victims)
      requires s == Now() && NoneAbove(s, zonelist, order, 0)
      modifies this`next, this`pages, this`zones, this`lists, this`held
      ensures Valid() && Canonical(FreeOf(from.pages), |from.pages|, maxOrder)
      ensures Outcome(s, from, Now(), frame, order, zonelist, victims, i, 0)
    {
      i := 0;
      var n := 0;
      DrainNone(s);
      while n < |zonelist|
        invariant i == n <= |zonelist| && Valid() && Spare(held, pages, victims, n)
        invariant Drain(s, Now(), Drained(s, zonelist, victims, order, n))
        invariant NoneServes(s, zonelist, n, order, 0)
      {
        from := Now();
        frame := LastZone(order, zonelist, victims, n, s, old(next), old(lists));
        if frame >= 0 {
          return;
        }
        NoneMore(s, zonelist, n, order, 0);
        n := n + 1;
        i := n;
      }
      from, frame := Now(), -1;
    }

    /** __alloc_pages_nodemask once buddy_ready is set; -1 for NULL. */
    method AllocPages(order: nat, zonelist: seq<nat>, victims: seq<nat>)
      returns (frame: int, ghost from: Snap, ghost i: nat, ghost mark: nat)
      requires Valid() && forall i | 0 <= i < |zonelist| :: zonelist[i] < 2
      requires |victims| == |zonelist| && Spare(held, pages, victims, 0) && Distinct(victims)
      modifies this`next, this`pages, this`zones, this`lists, this`held
      ensures Valid() && Canonical(FreeOf(from.pages), |from.pages|, maxOrder)
      ensures Outcome(old(Now()), from, Now(), frame, order, zonelist, victims, i, mark)
    {
      from := Now();
      frame, i, mark := EarlyPasses(order, zonelist, victims, from);
      if frame < 0 {
        mark := 0;
        frame, from, i := LastPass(order, zonelist, victims, from);
      }
    }

    /** The loop of free_pages: drops one reference of every frame of the block. */
    method DropRefs(frame: nat, order: nat) returns (canFree: bool)
      requires frame + Pow2(order) <= |pages|
      modifies this`pages
      ensures RefsOnly(old(pages), pages)
      ensures canFree <==> forall f | frame <= f < frame + Pow2(order) :: old(pages[f].refcount) <= 1
      ensures forall f | 0 <= f < |pages| :: pages[f].refcount ==
                if !(frame <= f < frame + Pow2(order)) then old(pages[f].refcount)
                else if old(pages[f].refcount) > 1 then old(pages[f].refcount) - 1 else 0
    {
      var run, i := Pow2(order), 0;
      canFree := true;
      while i < run
        invariant i <= run && RefsOnly(old(pages), pages)
        invariant canFree <==> forall f | frame <= f < frame + i :: old(pages[f].refcount) <= 1
        invariant forall f | 0 <= f < |pages| :: pages[f].refcount ==
                    if !(frame <= f < frame + i) then old(pages[f].refcount)
                    else if old(pages[f].refcount) > 1 then old(pages[f].refcount) - 1 else 0
      {
        var pg := pages[frame + i];
        if pg.refcount > 1 {
          pages := pages[frame + i := pg.(refcount := pg.refcount - 1)];
          canFree := false;
        } else if pg.refcount == 1 {
          pages := pages[frame + i := pg.(refcount := 0)];
        }
        i := i + 1;
      }
    }

    /** free_pages on a block its caller holds: freed exactly when no frame has another reference. */
    method FreePagesOf(frame: nat, order: nat)
      requires Valid() && frame in held && held[frame] == order
      modifies this`next, this`pages, this`zones, this`lists, this`held
      ensures Valid() && maxOrder == old(maxOrder) && |pages| == old(|pages|) && SameMarks(old(zones), zones)
      ensures if OnlyRef(old(pages), frame, order)
              then held == old(held) - {frame} && Removed(Free(), old(Free()), frame, order)
                     && Gained(old(zones), zones, ZoneOf(frame), Pow2(order))
              else held == old(held) && Free() == old(Free()) && zones == old(zones)
      ensures forall f | 0 <= f < |pages| :: pages[f].refcount ==
                if !Within(f, frame, order) then old(pages[f].refcount)
                else if old(pages[f].refcount) > 1 then old(pages[f].refcount) - 1 else 0
    {
      HeldInHand(Free(), held, managed, frame, |pages|, maxOrder);
      forall f: nat {
        ShrRange(frame, order, f);
      }
      var canFree := DropRefs(frame, order);
      RefsKeep(next, old(pages), pages, zones, lists);
      if !canFree {
        return;
      }
      ReturnBlock(frame, order);
    }

    /** The end of free_pages: the block goes back to its zone. */
    method ReturnBlock(frame: nat, order: nat)
      requires Valid() && frame in held && held[frame] == order
      modifies this`next, this`pages, this`zones, this`lists, this`held
      ensures Valid() && OnlyLists() && held == old(held) - {frame} && Removed(Free(), old(Free()), frame, order)
      ensures Gained(old(zones), zones, ZoneOf(frame), Pow2(order))
    {
      var z := ZoneOf(frame);
      HeldInHand(Free(), held, managed, frame, |pages|, maxOrder);
      BuddyFreeBlock(z, frame, order);
      DropOk(old(Free()), Free(), held, managed, frame, |pages|, maxOrder);
      held := held - {frame};
    }

    /** Allocating a block and freeing it at once leaves nothing but what reclaim did in between. */
    method AllocThenFree(order: nat, zonelist: seq<nat>, victims: seq<nat>) returns (frame: int, ghost D: set<nat>)
      requires Valid() && forall i | 0 <= i < |zonelist| :: zonelist[i] < 2
      requires |victims| == |zonelist| && Spare(held, pages, victims, 0) && Distinct(victims)
      modifies this`next, this`pages, this`zones, this`lists, this`held
      ensures Valid() && held == old(held) - D && (D == {} ==> Free() == old(Free()))
      ensures D != {} ==> NoneAbove(old(Now()), zonelist, order, 0)
      ensures NoVictims(victims) || (frame != -1 && |zonelist| == 1) ==> D == {}
    {
      ghost var s, from, i, mark := Now(), Now(), 0, 0;
      frame, from, i, mark := AllocPages(order, zonelist, victims);
      D := if mark == 0 then Drained(s, zonelist, victims, order, i) else {};
      if NoVictims(victims) {
        NothingDrained(s, zonelist, victims, order, i);
      }
      if frame >= 0 {
        FreeBack(frame, order, from);
      }
    }

    /** Freeing a block just allocated gives back what was there before. */
    method FreeBack(frame: nat, order: nat, ghost from: Snap)
      requires Valid() && GotFrom(from, Now(), frame, order) && Canonical(FreeOf(from.pages), |from.pages|, maxOrder)
      modifies this`next, this`pages, this`zones, this`lists, this`held
      ensures Valid() && Free() == FreeOf(from.pages) && held == from.held
    {
      ghost var F := Free();
      JustGot(from, Now(), frame, order, maxOrder);
      FreePagesOf(frame, order);
      FreeRestores(FreeOf(from.pages), F, Free(), frame, order, |from.pages|, maxOrder);
    }

    /** get_page */
    method GetPage(frame: nat)
      requires Valid()
      modifies this`pages
      ensures Valid() && RefsOnly(old(pages), pages) && Free() == old(Free())
      ensures forall f | 0 <= f < |pages| :: pages[f].refcount ==
                if f == frame && old(pages[f].refcount) < 0xFFFF then old(pages[f].refcount) + 1
                  else old(pages[f].refcount)
    {
      if frame >= |pages| {
        return;
      }
      var pg := pages[frame];
      if pg.refcount == 0 {
        pages := pages[frame := pg.(refcount := 1)];
      } else if pg.refcount < 0xFFFF {
        pages := pages[frame := pg.(refcount := pg.refcount + 1)];
      }
      RefsKeep(next, old(pages), pages, zones, lists);
    }

    /** Exactly the managed frames are free, and the zones count them. */
    ghost predicate Counted()
      reads this
    {
      && |zones| == 2 && (forall f: nat :: Covers(Free(), f) <==> f in managed)
      && forall z | 0 <= z < 2 :: zones[z].managed == |ManagedIn(managed, z)|
    }

    /** mem_init on one frame that is not reserved. */
    method InitFrame(i: nat)
      requires Sound() && 0 < i < |pages| && i !in managed && Counted()
      modifies this`next, this`pages, this`zones, this`lists, this`managed
      ensures Sound() && managed == old(managed) + {i} && Counted() && maxOrder == old(maxOrder)
      ensures SameReserved(old(pages), pages)
    {
      var z := ZoneOf(i);
      FrameInHand(Free(), i, |pages|, maxOrder);
      CountFrame(i);
      if pages[i].buddy {
        assert false;
      }
      ghost var zs, ps := zones, pages;
      BuddyFreeBlock(z, i, 0);
      SameElseFields(ps, pages, zs, zones);
    }

    method CountFrame(i: nat)
      requires Sound() && i !in managed && forall z | 0 <= z < 2 :: zones[z].managed == |ManagedIn(managed, z)|
      modifies this`zones, this`managed
      ensures Sound() && managed == old(managed) + {i}
      ensures forall z | 0 <= z < 2 :: zones[z].managed == |ManagedIn(managed, z)|
    {
      var z := ZoneOf(i);
      ManagedGrow(managed, i, 0);
      ManagedGrow(managed, i, 1);
      zones := zones[z := zones[z].(managed := zones[z].managed + 1)];
      ZonesKeep(next, pages, old(zones), zones, lists);
      managed := managed + {i};
    }

    /** setup_per_zone_wmarks */
    method SetWatermarks()
      requires Layout()
      modifies this`zones
      ensures Layout() && zones[0] == old(zones[0]).(watermark := Marks(zones[0].managed))
      ensures zones[1] == old(zones[1]).(watermark := Marks(zones[1].managed))
    {
      zones := zones[0 := zones[0].(watermark :=
        [zones[0].managed / 64, zones[0].managed / 32, zones[0].managed / 16])];
      zones := zones[1 := zones[1].(watermark :=
        [zones[1].managed / 64, zones[1].managed / 32, zones[1].managed / 16])];
      ZonesKeep(next, pages, old(zones), zones, lists);
    }

    /** mem_init's last loop and setup_per_zone_wmarks: every frame that is not reserved becomes free. */
    method MemInit()
      requires Sound() && TopOrder(maxOrder, |pages|) && Free() == map[] && held == map[]
      requires |pages| > 0 && pages[0].reserved
      modifies this
      ensures Valid() && held == map[] && |pages| == old(|pages|)
      ensures managed == Usable(old(pages), |pages|)
      ensures AllServed(Free(), old(pages))
      ensures forall z | 0 <= z < 2 ::
                var n := |ManagedIn(managed, z)|; zones[z].watermark == [n / 64, n / 32, n / 16]
    {
      NoneManaged();
      InitFrames();
      PartitionStart(Free(), managed, |pages|, maxOrder);
      OpenBlocks(Free(), old(pages), managed, maxOrder);
      Ready();
    }

    /** With its marks set the allocator is ready. */
    method Ready()
      requires Sound() && TopOrder(maxOrder, |pages|) && Partition(Free(), held, managed, |pages|, maxOrder)
      requires forall z | 0 <= z < 2 :: zones[z].managed == |ManagedIn(managed, z)|
      modifies this`zones
      ensures Valid()
      ensures forall z | 0 <= z < 2 ::
                var n := |ManagedIn(managed, z)|; zones[z].watermark == [n / 64, n / 32, n / 16]
    {
      SetWatermarks();
    }

    /** The counts of managed pages start at 0. */
    method NoneManaged()
      requires Sound() && Free() == map[]
      modifies this`zones, this`managed
      ensures Sound() && managed == {} && Counted() && Free() == map[]
    {
      zones := zones[0 := zones[0].(managed := 0)][1 := zones[1].(managed := 0)];
      managed := {};
      ZonesKeep(next, pages, old(zones), zones, lists);
      assert ManagedIn({}, 0) == {} && ManagedIn({}, 1) == {};
    }

    method InitFrames()
      requires Sound() && |pages| > 0 && pages[0].reserved && managed == {} && Counted()
      modifies this`next, this`pages, this`zones, this`lists, this`managed
      ensures Sound() && |pages| == old(|pages|) && Counted() && maxOrder == old(maxOrder)
      ensures managed == Usable(old(pages), |pages|)
    {
      var i := 0;
      while i < |pages|
        invariant i <= |pages| && Sound() && Counted() && SameReserved(old(pages), pages)
        invariant managed == Usable(old(pages), i)
      {
        UsableNext(old(pages), i);
        if !pages[i].reserved {
          InitFrame(i);
        }
        i := i + 1;
      }
    }

    /** Free frames plus held frames are the managed frames of a zone. */
    lemma Conserved(z: nat)
      requires Valid() && z < 2
      ensures ZoneFree(z) + |ZoneFrames(held, |pages|, z)| == zones[z].managed
    {
      CountIsFrames(next, pages, zones, lists, z, maxOrder);
      var free, used := ZoneFrames(Free(), |pages|, z), ZoneFrames(held, |pages|, z);
      forall f: nat
        ensures f in free + used <==> f in ManagedIn(managed, z)
      {
        if Covers(Free(), f) { CoveredBelow(Free(), |pages|, maxOrder, f); }
        if Covers(held, f) { CoveredBelow(held, |pages|, maxOrder, f); }
      }
      assert free !! used && free + used == ManagedIn(managed, z);
    }
  }

  lemma {:induction false} CoveredBelow(F: Blocks, n: nat, M: nat, f: nat)
    requires Proper(F, n, M) && Covers(F, f)
    ensures f < n
  {
    var p :| p in F && Within(f, p, F[p]);
    ShrRange(p, F[p], f);
  }
}
