/** zone_free_pages counts frames: the sum over the lists is the number of frames the free blocks cover. */
module BuddyCount {
  import opened Bits
  import opened Lists
  import opened BuddyBlocks
  import opened BuddyLists
  import opened BuddyZones

  /** The `n` numbers from `lo` on. */
  function Span(lo: nat, n: nat): set<nat> {
    if n == 0 then {} else Span(lo, n - 1) + {lo + n - 1}
  }

  lemma {:induction false} SpanIs(lo: nat, n: nat)
    ensures |Span(lo, n)| == n && forall f: nat :: f in Span(lo, n) <==> lo <= f < lo + n
  {
    if n > 0 {
      SpanIs(lo, n - 1);
    }
  }

  lemma {:induction false} RangeCard(p: nat, k: nat)
    requires Aligned(p, k)
    ensures |Range(p, k)| == Pow2(k)
  {
    SpanIs(p, Pow2(k));
    forall f: nat
      ensures f in Range(p, k) <==> f in Span(p, Pow2(k))
    {
      ShrRange(p, k, f);
    }
    assert Range(p, k) == Span(p, Pow2(k));
  }

  /** The frames of the blocks of order `o` in list `l`. */
  ghost function ListFrames(l: seq<nat>, o: nat): set<nat> {
    if l == [] then {} else Range(l[0], o) + ListFrames(l[1..], o)
  }

  lemma {:induction false} ListFramesHas(l: seq<nat>, o: nat, f: nat)
    ensures f in ListFrames(l, o) <==> exists p | p in l :: f in Range(p, o)
  {
    if l != [] {
      ListFramesHas(l[1..], o, f);
      if f in Range(l[0], o) {
        assert l[0] in l;
      }
      if f in ListFrames(l[1..], o) {
        var p :| p in l[1..] && f in Range(p, o);
        assert p in l;
      }
      if p :| p in l && f in Range(p, o) {
        assert p == l[0] || p in l[1..];
      }
    }
  }

  /** A list of free blocks of one order, none twice. */
  ghost predicate ListOf(F: Blocks, l: seq<nat>, o: nat) {
    NoDup(l) && forall p | p in l :: p in F && F[p] == o
  }

  lemma {:induction false} ListFramesCard(F: Blocks, l: seq<nat>, o: nat, n: nat, M: nat)
    requires Canonical(F, n, M) && ListOf(F, l, o)
    ensures |ListFrames(l, o)| == Shl(|l|, o)
    decreases l
  {
    if l == [] {
      ShlAdd(0, 0, o);
    } else {
      assert l[0] in l;
      ListFramesCard(F, l[1..], o, n, M);
      RangeCard(l[0], o);
      ShlAdd(1, |l| - 1, o);
      forall f | f in Range(l[0], o)
        ensures f !in ListFrames(l[1..], o)
      {
        ListApart(F, l, o, f);
      }
      CardSum(Range(l[0], o), ListFrames(l[1..], o));
    }
  }

  lemma {:induction false} ListApart(F: Blocks, l: seq<nat>, o: nat, f: nat)
    requires Apart(F) && l != [] && ListOf(F, l, o)
    ensures !(f in Range(l[0], o) && f in ListFrames(l[1..], o))
  {
    ListFramesHas(l[1..], o, f);
    if f in Range(l[0], o) && f in ListFrames(l[1..], o) {
      var q :| q in l[1..] && f in Range(q, o);
      assert l[0] in l && q in l;
      OneBlock(F, l[0], q, f);
    }
  }

  /** The frames of all lists below order `k`. */
  ghost function Union(ls: seq<seq<nat>>, k: nat): set<nat>
    requires k <= |ls|
  {
    if k == 0 then {} else Union(ls, k - 1) + ListFrames(ls[k - 1], k - 1)
  }

  lemma {:induction false} UnionHas(ls: seq<seq<nat>>, k: nat, f: nat)
    requires k <= |ls|
    ensures f in Union(ls, k) <==> exists o | 0 <= o < k :: f in ListFrames(ls[o], o)
  {
    if k > 0 {
      UnionHas(ls, k - 1, f);
    }
  }

  lemma {:induction false} UnionCard(F: Blocks, area: seq<FreeArea>, ls: seq<seq<nat>>, k: nat, n: nat, M: nat)
    requires Canonical(F, n, M) && k <= |ls| == |area|
    requires forall o | 0 <= o < |ls| :: area[o].nrFree == |ls[o]| && ListOf(F, ls[o], o)
    ensures |Union(ls, k)| == FreePages(area, k)
  {
    forall j | 0 <= j < k
      ensures Summand(area, ls, j)
    {
      ListFramesCard(F, ls[j], j, n, M);
      UnionDisjoint(F, ls, j);
    }
    UnionSum(area, ls, k);
  }

  /** The frames on the list of order `j`: as many as counted, and none on a list of a lower order. */
  ghost predicate Summand(area: seq<FreeArea>, ls: seq<seq<nat>>, j: nat)
    requires j < |ls| == |area|
  {
    |ListFrames(ls[j], j)| == Shl(area[j].nrFree, j) && Union(ls, j) !! ListFrames(ls[j], j)
  }

  lemma {:induction false} UnionSum(area: seq<FreeArea>, ls: seq<seq<nat>>, k: nat)
    requires k <= |ls| == |area| && forall j | 0 <= j < k :: Summand(area, ls, j)
    ensures |Union(ls, k)| == FreePages(area, k)
  {
    if k > 0 {
      UnionSum(area, ls, k - 1);
      assert Summand(area, ls, k - 1);
      CardSum(Union(ls, k - 1), ListFrames(ls[k - 1], k - 1));
    }
  }

  lemma {:induction false} CardSum(a: set<nat>, b: set<nat>)
    requires a !! b
    ensures |a + b| == |a| + |b|
  {
  }

  lemma {:induction false} UnionDisjoint(F: Blocks, ls: seq<seq<nat>>, j: nat)
    requires Apart(F) && j < |ls| && forall o | 0 <= o < |ls| :: ListOf(F, ls[o], o)
    ensures Union(ls, j) !! ListFrames(ls[j], j)
  {
    forall f | f in Union(ls, j)
      ensures f !in ListFrames(ls[j], j)
    {
      UnionApart(F, ls, j, f);
    }
  }

  lemma {:induction false} UnionApart(F: Blocks, ls: seq<seq<nat>>, j: nat, f: nat)
    requires Apart(F) && j < |ls| && forall o | 0 <= o < |ls| :: ListOf(F, ls[o], o)
    ensures !(f in Union(ls, j) && f in ListFrames(ls[j], j))
  {
    UnionHas(ls, j, f);
    ListFramesHas(ls[j], j, f);
    if f in Union(ls, j) && f in ListFrames(ls[j], j) {
      var o :| 0 <= o < j && f in ListFrames(ls[o], o);
      ListFramesHas(ls[o], o, f);
      var p :| p in ls[o] && f in Range(p, o);
      var q :| q in ls[j] && f in Range(q, j);
      OneBlock(F, p, q, f);
    }
  }

  /** The free frames of zone `z`. */
  ghost function ZoneFrames(F: Blocks, n: nat, z: nat): set<nat> {
    set f | 0 <= f < n && Covers(F, f) && ZoneOf(f) == z
  }

  lemma {:induction false} UnionIs(next: seq<int>, pages: seq<Page>, zones: seq<Zone>, lists: seq<seq<seq<nat>>>,
                                   z: nat, M: nat, f: nat)
    requires ListsOk(next, pages, zones, lists) && Canonical(FreeOf(pages), |pages|, M) && M < MAX_ORDER && z < 2
    ensures f in Union(lists[z], MAX_ORDER) <==> f in ZoneFrames(FreeOf(pages), |pages|, z)
  {
    var F := FreeOf(pages);
    UnionHas(lists[z], MAX_ORDER, f);
    if f in Union(lists[z], MAX_ORDER) {
      var o :| 0 <= o < MAX_ORDER && f in ListFrames(lists[z][o], o);
      ListFramesHas(lists[z][o], o, f);
      var p :| p in lists[z][o] && f in Range(p, o);
      assert AreaOk(next, pages, zones[z].area[o], lists[z][o], z, o);
      assert p in F && Within(f, p, F[p]);
      OneZone(p, o, f);
    }
    if f in ZoneFrames(F, |pages|, z) {
      var p :| p in F && Within(f, p, F[p]);
      OneZone(p, F[p], f);
      var o := F[p];
      assert AreaOk(next, pages, zones[z].area[o], lists[z][o], z, o);
      assert p in lists[z][o];
      ShrRange(p, o, f);
      assert f in Range(p, o);
      ListFramesHas(lists[z][o], o, f);
    }
  }

  /** zone_free_pages is the number of free frames of the zone. */
  lemma {:induction false} CountIsFrames(next: seq<int>, pages: seq<Page>, zones: seq<Zone>, lists: seq<seq<seq<nat>>>,
                                         z: nat, M: nat)
    requires ListsOk(next, pages, zones, lists) && Canonical(FreeOf(pages), |pages|, M) && M < MAX_ORDER && z < 2
    ensures FreePages(zones[z].area, |zones[z].area|) == |ZoneFrames(FreeOf(pages), |pages|, z)|
  {
    forall o | 0 <= o < MAX_ORDER
      ensures zones[z].area[o].nrFree == |lists[z][o]| && ListOf(FreeOf(pages), lists[z][o], o)
    {
      assert AreaOk(next, pages, zones[z].area[o], lists[z][o], z, o);
    }
    var k := |zones[z].area|;
    UnionCard(FreeOf(pages), zones[z].area, lists[z], k, |pages|, M);
    forall f: nat {
      UnionIs(next, pages, zones, lists, z, M, f);
    }
    assert Union(lists[z], k) == ZoneFrames(FreeOf(pages), |pages|, z);
  }
}
