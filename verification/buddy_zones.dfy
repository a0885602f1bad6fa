/** Zones of the buddy allocator: bounds, and the page count that zone_free_pages computes. */
module BuddyZones {
  import opened Bits
  import opened BuddyBlocks
  import opened BuddyLists

  /** zone_free_pages over the first `k` orders. */
  function FreePages(area: seq<FreeArea>, k: nat): nat
    requires k <= |area|
  {
    if k == 0 then 0 else FreePages(area, k - 1) + Shl(area[k - 1].nrFree, k - 1)
  }

  lemma {:induction false} FreePagesSame(area: seq<FreeArea>, area': seq<FreeArea>, k: nat)
    requires |area| == |area'| && k <= |area| && forall i | 0 <= i < k :: area[i].nrFree == area'[i].nrFree
    ensures FreePages(area, k) == FreePages(area', k)
  {
    if k > 0 {
      FreePagesSame(area, area', k - 1);
    }
  }

  /** In zone `z` the lists of orders `lo` to `hi - 1` have each grown by `d`; the other zone is as before. */
  ghost predicate Shifted(zones: seq<Zone>, zones': seq<Zone>, z: nat, lo: nat, hi: nat, d: int) {
    && |zones| == |zones'| == 2 && z < 2 && zones'[1 - z] == zones[1 - z]
    && |zones'[z].area| == |zones[z].area|
    && forall i | 0 <= i < |zones[z].area| ::
         zones'[z].area[i].nrFree == zones[z].area[i].nrFree + if lo <= i < hi then d else 0
  }

  lemma {:induction false} ShiftedStep(a: seq<Zone>, b: seq<Zone>, c: seq<Zone>, z: nat, lo: nat, mid: nat, hi: nat,
                                       d: int)
    requires lo <= mid <= hi
    requires Shifted(a, b, z, lo, mid, d) && Shifted(b, c, z, mid, hi, d)
    ensures Shifted(a, c, z, lo, hi, d)
  {
  }

  lemma {:induction false} ShiftedDown(a: seq<Zone>, b: seq<Zone>, c: seq<Zone>, z: nat, lo: nat, mid: nat, hi: nat,
                                       d: int)
    requires lo <= mid <= hi
    requires Shifted(a, b, z, mid, hi, d) && Shifted(b, c, z, lo, mid, d)
    ensures Shifted(a, c, z, lo, hi, d)
  {
  }

  /** Zone `z` has `d` more free pages; the other zone is as before. */
  ghost predicate Gained(zones: seq<Zone>, zones': seq<Zone>, z: nat, d: int) {
    && |zones| == |zones'| == 2 && z < 2 && zones'[1 - z] == zones[1 - z]
    && FreePages(zones'[z].area, |zones'[z].area|) == FreePages(zones[z].area, |zones[z].area|) + d
  }

  /** A block of order `hi` leaves and one of each order from `lo` to `hi - 1` comes back. */
  lemma {:induction false} GainedSplit(a: seq<Zone>, b: seq<Zone>, c: seq<Zone>, z: nat, lo: nat, hi: nat)
    requires lo <= hi && Shifted(a, b, z, hi, hi + 1, -1) && Shifted(b, c, z, lo, hi, 1) && hi < |a[z].area|
    ensures Gained(a, c, z, 0 - Pow2(lo))
  {
    var k := |a[z].area|;
    FreePagesGrow(b[z].area, a[z].area, hi, k);
    FreePagesShift(b[z].area, c[z].area, lo, hi, k);
  }

  /** A block of each order from `lo` to `hi - 1` leaves and one of order `hi` comes back. */
  lemma {:induction false} GainedMerge(a: seq<Zone>, b: seq<Zone>, c: seq<Zone>, z: nat, lo: nat, hi: nat)
    requires lo <= hi && Shifted(a, b, z, lo, hi, -1) && Shifted(b, c, z, hi, hi + 1, 1) && hi < |a[z].area|
    ensures Gained(a, c, z, Pow2(lo))
  {
    var k := |a[z].area|;
    FreePagesShift(b[z].area, a[z].area, lo, hi, k);
    FreePagesGrow(b[z].area, c[z].area, hi, k);
  }

  /** One list grows by a block. */
  lemma {:induction false} FreePagesGrow(area: seq<FreeArea>, area': seq<FreeArea>, o: nat, k: nat)
    requires o < k <= |area| == |area'| && area'[o].nrFree == area[o].nrFree + 1
    requires forall i | 0 <= i < |area| && i != o :: area'[i].nrFree == area[i].nrFree
    ensures FreePages(area', k) == FreePages(area, k) + Pow2(o)
  {
    if k == o + 1 {
      FreePagesSame(area, area', k - 1);
      ShlAdd(area[o].nrFree, 1, o);
    } else {
      FreePagesGrow(area, area', o, k - 1);
    }
  }

  /** One more block of each order from `lo` up to `hi - 1` makes `2^hi - 2^lo` more pages. */
  lemma {:induction false} FreePagesShift(area: seq<FreeArea>, area': seq<FreeArea>, lo: nat, hi: nat, k: nat)
    requires lo <= hi && k <= |area| == |area'|
    requires forall i | 0 <= i < |area| :: area'[i].nrFree == area[i].nrFree + if lo <= i < hi then 1 else 0
    ensures FreePages(area', k) ==
              FreePages(area, k) + if k <= lo then 0 else Pow2(if k < hi then k else hi) - Pow2(lo)
  {
    if k > 0 {
      FreePagesShift(area, area', lo, hi, k - 1);
      ShlAdd(area[k - 1].nrFree, 1, k - 1);
    }
  }

  /** The blocks of a zone do not cross into the other. */
  lemma {:induction false} OneZone(p: nat, k: nat, f: nat)
    requires k <= 12 && Within(f, p, k)
    ensures ZoneOf(f) == ZoneOf(p)
  {
    ShrMono(f, p, k, 12);
    assert Pow2(12) == 4096 by { assert Pow2(4) == 16; assert Pow2(8) == 256; }
    assert Aligned(0, 12) by { assert Aligned(0, 6); }
    ShrRange(0, 12, f);
    ShrRange(0, 12, p);
  }

  lemma {:induction false} ZoneFit(p: nat, k: nat)
    requires k <= 12 && Aligned(p, k) && ZoneOf(p) == 0
    ensures p + Pow2(k) <= MAX_DMA_PFN
  {
    var last := p + Pow2(k) - 1;
    ShrRange(p, k, last);
    OneZone(p, k, last);
  }

  function ZoneEnd(zone: Zone): nat {
    zone.start + zone.spanned
  }

  lemma {:induction false} UpperZone(p: nat, o: nat)
    requires 0 < o < MAX_ORDER && Aligned(p, o)
    ensures ZoneOf(p + Pow2(o - 1)) == ZoneOf(p)
  {
    UpperHalf(p, o - 1);
    Halves(p, o - 1, p + Pow2(o - 1));
    OneZone(p, o, p + Pow2(o - 1));
  }

  function ZoneStartOf(z: nat, n: nat): nat {
    if z == 0 then 0 else if n < MAX_DMA_PFN then n else MAX_DMA_PFN
  }

  function ZoneEndOf(z: nat, n: nat): nat {
    if z == 0 && MAX_DMA_PFN < n then MAX_DMA_PFN else n
  }

  lemma {:induction false} InZone(p: nat, k: nat, n: nat)
    requires Aligned(p, k) && k <= 12 && p + Pow2(k) <= n
    ensures ZoneStartOf(ZoneOf(p), n) <= p && p + Pow2(k) <= ZoneEndOf(ZoneOf(p), n)
  {
    if ZoneOf(p) == 0 {
      ZoneFit(p, k);
    }
  }

  /** The zone checks of the merging loop never stop a merge that the marks allow. */
  lemma {:induction false} MergedZone(h: Hand, i: nat, n: nat, M: nat)
    requires Ok(h, n, M) && MergeRun(h, i, M) && M < MAX_ORDER
    ensures var g := Merged(h, i);
            && g.k == h.k + i <= M && 0 < g.p < n && g.p !in g.F && g.p + Pow2(g.k) <= ZoneEndOf(ZoneOf(g.p), n)
            && (Mergeable(g, M) ==>
                  var b := Flip(g.p, g.k);
                  var p' := if b < g.p then b else g.p;
                  && ZoneStartOf(ZoneOf(g.p), n) <= b < ZoneEndOf(ZoneOf(g.p), n) <= n && ZoneOf(b) == ZoneOf(g.p)
                  && p' + Pow2(g.k + 1) <= ZoneEndOf(ZoneOf(g.p), n))
  {
    var g := Merged(h, i);
    MergedNext(h, i, n, M);
    InZone(g.p, g.k, n);
    if Mergeable(g, M) {
      var b := Flip(g.p, g.k);
      OneZone(g.p, g.k + 1, b);
      InZone(if b < g.p then b else g.p, g.k + 1, n);
    }
  }

  /** The watermarks of a zone with `managed` pages: min, low and high. */
  function Marks(managed: nat): (r: seq<nat>)
    ensures |r| == 3 && r[0] <= r[1] <= r[2]
  {
    [managed / 64, managed / 32, managed / 16]
  }
}
