/** The intrusive free lists of mm/page_alloc.c: `buddy_next[]` threads one singly linked list per zone
    and order through the free blocks' first frames, and PG_BUDDY with `order` marks exactly those frames.
 */
module BuddyLists {
  import opened Lists
  import opened BuddyBlocks

  const MAX_ORDER: nat := 11
  const MAX_DMA_PFN: nat := 4096

  datatype Page = Page(buddy: bool, reserved: bool, refcount: nat, order: nat)
  datatype FreeArea = FreeArea(freeList: int, nrFree: nat)
  datatype Zone = Zone(start: nat, spanned: nat, managed: nat, watermark: seq<nat>, area: seq<FreeArea>)

  /** pfn_to_zone: 0 is ZONE_DMA, 1 is ZONE_NORMAL. */
  function ZoneOf(pfn: nat): nat {
    if pfn < MAX_DMA_PFN then 0 else 1
  }

  /** Following `next` from `head` visits exactly `l`. */
  ghost predicate Chain(next: seq<int>, head: int, l: seq<nat>)
    decreases l
  {
    if l == [] then head == -1 else head == l[0] && l[0] < |next| && Chain(next, next[l[0]], l[1..])
  }

  /** The free list of zone `z` at order `o` holds exactly the frames marked so. */
  ghost predicate AreaOk(next: seq<int>, pages: seq<Page>, a: FreeArea, l: seq<nat>, z: nat, o: nat) {
    && Chain(next, a.freeList, l) && a.nrFree == |l| && NoDup(l)
    && forall p: nat :: p in l <==> p < |pages| && pages[p].buddy && pages[p].order == o && ZoneOf(p) == z
  }

  ghost predicate ListsOk(next: seq<int>, pages: seq<Page>, zones: seq<Zone>, lists: seq<seq<seq<nat>>>) {
    && |next| == |pages| && |zones| == 2 && |lists| == 2
    && (forall z | 0 <= z < 2 :: |zones[z].area| == MAX_ORDER && |lists[z]| == MAX_ORDER)
    && (forall z, o | 0 <= z < 2 && 0 <= o < MAX_ORDER :: AreaOk(next, pages, zones[z].area[o], lists[z][o], z, o))
    && (forall p | 0 <= p < |pages| && pages[p].buddy :: pages[p].order < MAX_ORDER)
  }

  /** The free blocks, as the page flags show them. */
  function FreeOf(pages: seq<Page>): Blocks {
    map p: nat | p < |pages| && pages[p].buddy :: pages[p].order
  }

  function SetArea(zones: seq<Zone>, z: nat, o: nat, a: FreeArea): seq<Zone>
    requires z < |zones| && o < |zones[z].area|
  {
    zones[z := zones[z].(area := zones[z].area[o := a])]
  }

  ghost function SetList(lists: seq<seq<seq<nat>>>, z: nat, o: nat, l: seq<nat>): seq<seq<seq<nat>>>
    requires z < |lists| && o < |lists[z]|
  {
    lists[z := lists[z][o := l]]
  }

  /** Everything but the lists and the buddy marks agrees. */
  ghost predicate SameElse(pages: seq<Page>, pages': seq<Page>, zones: seq<Zone>, zones': seq<Zone>) {
    && |zones'| == |zones| && |pages'| == |pages|
    && (forall z | 0 <= z < |zones| :: zones'[z].(area := []) == zones[z].(area := []))
    && (forall p | 0 <= p < |pages| :: pages'[p].(buddy := false, order := 0) == pages[p].(buddy := false, order := 0))
  }

  // ------------------------------------------------------------------ chains

  lemma {:induction false} ChainFrame(next: seq<int>, next': seq<int>, head: int, l: seq<nat>)
    requires Chain(next, head, l) && |next'| == |next|
    requires forall p | p in l && p < |next| :: next'[p] == next[p]
    ensures Chain(next', head, l)
    decreases l
  {
    if l != [] {
      assert l[0] in l;
      ChainFrame(next, next', next[l[0]], l[1..]);
    }
  }

  lemma {:induction false} ChainBound(next: seq<int>, head: int, l: seq<nat>, i: nat)
    requires Chain(next, head, l) && i < |l|
    ensures l[i] < |next| && Chain(next, l[i], l[i..])
    ensures next[l[i]] == (if i + 1 < |l| then l[i + 1] as int else -1) && Chain(next, next[l[i]], l[i + 1..])
    decreases l
  {
    if i > 0 {
      ChainBound(next, next[l[0]], l[1..], i - 1);
      assert l[1..][i - 1..] == l[i..] && l[1..][i..] == l[i + 1..];
    } else {
      assert l[0..] == l;
      if |l| > 1 {
        assert l[1..][0] == l[1];
      }
    }
  }

  function DropAt(l: seq<nat>, i: nat): seq<nat>
    requires i < |l|
  {
    l[..i] + l[i + 1..]
  }

  lemma {:induction false} DropAtStep(l: seq<nat>, i: nat)
    requires 0 < i < |l|
    ensures DropAt(l, i) == [l[0]] + DropAt(l[1..], i - 1) && DropAt(l, i)[1..] == DropAt(l[1..], i - 1)
  {
  }

  lemma {:induction false} DropAtHas(l: seq<nat>, i: nat, p: nat)
    requires NoDup(l) && i < |l|
    ensures p in DropAt(l, i) <==> p in l && p != l[i]
  {
  }

  lemma {:induction false} DropAtNoDup(l: seq<nat>, i: nat)
    requires NoDup(l) && i < |l|
    ensures NoDup(DropAt(l, i))
  {
  }

  /** Unlinking the element at `i`: its predecessor, or the head, skips it. */
  lemma {:induction false} ChainRemove(next: seq<int>, next': seq<int>, head: int, head': int, l: seq<nat>, i: nat)
    requires Chain(next, head, l) && i < |l| && |next'| == |next|
    requires forall k | 0 <= k < |l| && k != i && k + 1 != i :: l[k] < |next| ==> next'[l[k]] == next[l[k]]
    requires l[i] < |next| && (i > 0 ==> l[i - 1] < |next| && next'[l[i - 1]] == next[l[i]])
    requires head' == if i == 0 then next[l[0]] else head
    ensures Chain(next', head', DropAt(l, i))
    decreases l
  {
    var l' := l[1..];
    if i == 0 {
      assert DropAt(l, 0) == l';
      forall p | p in l' && p < |next|
        ensures next'[p] == next[p]
      {
        var k :| 0 <= k < |l'| && l'[k] == p;
        assert l[k + 1] == p;
      }
      ChainFrame(next, next', next[l[0]], l');
    } else {
      forall k | 0 <= k < |l'| && k != i - 1 && k + 1 != i - 1
        ensures l'[k] < |next| ==> next'[l'[k]] == next[l'[k]]
      {
        assert l'[k] == l[k + 1];
      }
      DropAtStep(l, i);
      ChainRemove(next, next', next[l[0]], next'[l[0]], l', i - 1);
    }
  }

  // ------------------------------------------------------------------ the invariant under one update

  lemma {:induction false} AddOk(next: seq<int>, pages: seq<Page>, zones: seq<Zone>, lists: seq<seq<seq<nat>>>, z: nat,
                                 o: nat, p: nat)
    requires ListsOk(next, pages, zones, lists) && z < 2 && o < MAX_ORDER
    requires p < |pages| && !pages[p].buddy && ZoneOf(p) == z
    ensures var a := zones[z].area[o];
            ListsOk(next[p := a.freeList], pages[p := pages[p].(buddy := true, order := o)],
                    SetArea(zones, z, o, FreeArea(p, a.nrFree + 1)), SetList(lists, z, o, [p] + lists[z][o]))
    ensures FreeOf(pages[p := pages[p].(buddy := true, order := o)]) == FreeOf(pages)[p := o]
    ensures SameElse(pages, pages[p := pages[p].(buddy := true, order := o)],
                     zones, SetArea(zones, z, o, FreeArea(p, zones[z].area[o].nrFree + 1)))
  {
    var a, l := zones[z].area[o], lists[z][o];
    var next', pages' := next[p := a.freeList], pages[p := pages[p].(buddy := true, order := o)];
    var zones', lists' := SetArea(zones, z, o, FreeArea(p, a.nrFree + 1)), SetList(lists, z, o, [p] + l);
    forall y, x | 0 <= y < 2 && 0 <= x < MAX_ORDER
      ensures AreaOk(next', pages', zones'[y].area[x], lists'[y][x], y, x)
    {
      assert AreaOk(next, pages, zones[y].area[x], lists[y][x], y, x);
      ChainFrame(next, next', zones[y].area[x].freeList, lists[y][x]);
      if y == z && x == o {
        assert ([p] + l)[1..] == l;
      }
    }
  }

  /** Every element of a list is a frame, free at this zone and order. */
  lemma {:induction false} Listed(next: seq<int>, pages: seq<Page>, zones: seq<Zone>, lists: seq<seq<seq<nat>>>, z: nat,
                                  o: nat, i: nat)
    requires ListsOk(next, pages, zones, lists) && z < 2 && o < MAX_ORDER && i < |lists[z][o]|
    ensures var p := lists[z][o][i];
            p < |pages| && p in FreeOf(pages) && FreeOf(pages)[p] == o && ZoneOf(p) == z
    ensures zones[z].area[o].freeList == lists[z][o][0] && zones[z].area[o].nrFree > 0
  {
    assert AreaOk(next, pages, zones[z].area[o], lists[z][o], z, o);
    assert lists[z][o][i] in lists[z][o];
  }

  /** The heads and links after unlinking the element at `i`. */
  function NextCut(next: seq<int>, l: seq<nat>, i: nat): seq<int>
    requires i < |l| && l[i] < |next| && (i > 0 ==> l[i - 1] < |next|)
  {
    (if i == 0 then next else next[l[i - 1] := next[l[i]]])[l[i] := -1]
  }

  lemma {:induction false} CutChain(next: seq<int>, head: int, l: seq<nat>, i: nat)
    requires Chain(next, head, l) && NoDup(l) && i < |l| && l[i] < |next| && (i > 0 ==> l[i - 1] < |next|)
    ensures Chain(NextCut(next, l, i), if i == 0 then next[l[0]] else head, DropAt(l, i))
  {
    var next' := NextCut(next, l, i);
    forall k | 0 <= k < |l| && k != i && k + 1 != i
      ensures l[k] < |next| ==> next'[l[k]] == next[l[k]]
    {
      assert l[k] != l[i] && (i > 0 && k != i - 1 ==> l[k] != l[i - 1]);
    }
    if i > 0 {
      assert l[i - 1] != l[i];
    }
    ChainRemove(next, next', head, if i == 0 then next[l[0]] else head, l, i);
  }

  lemma {:induction false} RemoveOk(next: seq<int>, pages: seq<Page>, zones: seq<Zone>, lists: seq<seq<seq<nat>>>,
                                    z: nat, o: nat, i: nat, p: nat, q: nat, a': FreeArea)
    requires ListsOk(next, pages, zones, lists) && z < 2 && o < MAX_ORDER && i < |lists[z][o]|
    requires p == lists[z][o][i] && q == lists[z][o][if i == 0 then 0 else i - 1] && p < |pages| && q < |pages|
    requires zones[z].area[o].nrFree > 0
    requires a' == FreeArea(if i == 0 then next[p] else zones[z].area[o].freeList, zones[z].area[o].nrFree - 1)
    ensures ListsOk(NextCut(next, lists[z][o], i), pages[p := pages[p].(buddy := false)],
                    SetArea(zones, z, o, a'), SetList(lists, z, o, DropAt(lists[z][o], i)))
    ensures FreeOf(pages[p := pages[p].(buddy := false)]) == FreeOf(pages) - {p}
    ensures SameElse(pages, pages[p := pages[p].(buddy := false)], zones, SetArea(zones, z, o, a'))
  {
    var a, l := zones[z].area[o], lists[z][o];
    var l', next' := DropAt(l, i), NextCut(next, l, i);
    var pages' := pages[p := pages[p].(buddy := false)];
    var zones', lists' := SetArea(zones, z, o, a'), SetList(lists, z, o, l');
    assert AreaOk(next, pages, a, l, z, o);
    RemoveHere(next, pages, a, l, z, o, i);
    forall y, x | 0 <= y < 2 && 0 <= x < MAX_ORDER
      ensures AreaOk(next', pages', zones'[y].area[x], lists'[y][x], y, x)
    {
      if y != z || x != o {
        assert AreaOk(next, pages, zones[y].area[x], lists[y][x], y, x);
        RemoveElse(next, pages, a, l, z, o, i, zones[y].area[x], lists[y][x], y, x);
      }
    }
  }

  /** The list the frame leaves. */
  lemma {:induction false} RemoveHere(next: seq<int>, pages: seq<Page>, a: FreeArea, l: seq<nat>, z: nat, o: nat,
                                      i: nat)
    requires AreaOk(next, pages, a, l, z, o) && |next| == |pages| && i < |l| && a.nrFree > 0
    ensures l[i] in l && l[i] < |pages| && (i > 0 ==> l[i - 1] in l && l[i - 1] < |pages|)
    ensures AreaOk(NextCut(next, l, i), pages[l[i] := pages[l[i]].(buddy := false)],
                   FreeArea(if i == 0 then next[l[i]] else a.freeList, a.nrFree - 1), DropAt(l, i), z, o)
  {
    assert l[i] in l && (i > 0 ==> l[i - 1] in l);
    CutChain(next, a.freeList, l, i);
    DropAtNoDup(l, i);
    forall r: nat {
      DropAtHas(l, i, r);
    }
  }

  /** Any other list. */
  lemma {:induction false} RemoveElse(next: seq<int>, pages: seq<Page>, a: FreeArea, l: seq<nat>, z: nat, o: nat,
                                      i: nat, b: FreeArea, m: seq<nat>, y: nat, x: nat)
    requires AreaOk(next, pages, a, l, z, o) && AreaOk(next, pages, b, m, y, x) && (y != z || x != o)
    requires |next| == |pages| && i < |l| && l[i] < |pages| && (i > 0 ==> l[i - 1] < |pages|)
    ensures AreaOk(NextCut(next, l, i), pages[l[i] := pages[l[i]].(buddy := false)], b, m, y, x)
  {
    assert l[i] in l && l[i] !in m && (i > 0 ==> l[i - 1] in l && l[i - 1] !in m);
    ChainFrame(next, NextCut(next, l, i), b.freeList, m);
  }
}
