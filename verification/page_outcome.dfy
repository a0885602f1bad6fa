/** What allocating and reclaiming pages does, on values. */
module PageOutcome {
  import opened Bits
  import opened BuddyBlocks
  import opened BuddyLists
  import opened BuddyZones
  import opened BuddyCount
  import opened BuddyHeld

  /** The blocks held, the page records and the zones. */
  datatype Snap = Snap(held: Blocks, pages: seq<Page>, zones: seq<Zone>)

  ghost function FreeIn(s: Snap, z: nat): nat
    requires z < |s.zones|
  {
    FreePages(s.zones[z].area, |s.zones[z].area|)
  }

  /** A successful allocation of the block at `frame`. */
  ghost predicate GotFrom(s: Snap, t: Snap, frame: nat, order: nat) {
    && frame > 0 && frame !in s.held && t.held == s.held[frame := order]
    && Removed(FreeOf(s.pages), FreeOf(t.pages), frame, order)
    && |s.zones| == |t.zones| == 2 && Gained(s.zones, t.zones, ZoneOf(frame), 0 - Pow2(order))
    && t.zones[ZoneOf(frame)].watermark == s.zones[ZoneOf(frame)].watermark
    && RefsSet(s.pages, t.pages, frame, order)
  }

  lemma {:induction false} GotIt(s: Snap, ps: seq<Page>, pages': seq<Page>, zones': seq<Zone>, frame: nat, order: nat)
    requires frame > 0 && frame !in s.held && |s.zones| == 2 && SameElse(s.pages, ps, s.zones, zones')
    requires RefsSet(ps, pages', frame, order)
    requires Removed(FreeOf(s.pages), FreeOf(ps), frame, order) && FreeOf(pages') == FreeOf(ps)
    requires Gained(s.zones, zones', ZoneOf(frame), 0 - Pow2(order))
    ensures GotFrom(s, Snap(s.held[frame := order], pages', zones'), frame, order)
  {
  }

  /** The frames of the block have one reference; all others as many as before. */
  ghost predicate RefsSet(pages: seq<Page>, pages': seq<Page>, frame: nat, order: nat) {
    && |pages'| == |pages|
    && forall f | 0 <= f < |pages| ::
         pages'[f].refcount == if frame <= f < frame + Pow2(order) then 1 else pages[f].refcount
  }

  /** No frame of the block has a second reference. */
  ghost predicate OnlyRef(pages: seq<Page>, frame: nat, order: nat) {
    forall f | 0 <= f < |pages| && Within(f, frame, order) :: pages[f].refcount <= 1
  }

  /** A block just allocated has no second reference, and giving it up leaves the blocks held before. */
  lemma {:induction false} JustGot(s: Snap, t: Snap, frame: nat, order: nat, M: nat)
    requires GotFrom(s, t, frame, order) && Proper(t.held, |t.pages|, M)
    ensures OnlyRef(t.pages, frame, order) && t.held - {frame} == s.held
  {
    assert frame in t.held && t.held[frame] == order;
    forall f | 0 <= f < |t.pages| && Within(f, frame, order)
      ensures t.pages[f].refcount <= 1
    {
      ShrRange(frame, order, f);
    }
  }

  ghost predicate SameReserved(pages: seq<Page>, pages': seq<Page>) {
    |pages'| == |pages| && forall p | 0 <= p < |pages| :: pages'[p].reserved == pages[p].reserved
  }

  /** The frames below `n` that are not reserved. */
  ghost function Usable(pages: seq<Page>, n: nat): set<nat>
    requires n <= |pages|
  {
    set p: nat | p < n && !pages[p].reserved
  }

  lemma {:induction false} UsableNext(pages: seq<Page>, n: nat)
    requires n < |pages|
    ensures n !in Usable(pages, n) && Usable(pages, n + 1) == Usable(pages, n) + if pages[n].reserved then {} else {n}
  {
  }

  /** The zone has a free block of the order or a larger one. */
  ghost predicate HasBlock(F: Blocks, z: nat, order: nat) {
    exists p :: p in F && ZoneOf(p) == z && F[p] >= order
  }

  /** The zone has such a block and stays above the mark without it. */
  ghost predicate CanServe(s: Snap, z: nat, order: nat, mark: nat) {
    && z < |s.zones| && mark < |s.zones[z].watermark| && HasBlock(FreeOf(s.pages), z, order)
    && FreeIn(s, z) > Pow2(order) + s.zones[z].watermark[mark]
  }

  /** The zone has more free frames than the mark asks for. */
  ghost predicate AboveMark(s: Snap, z: nat, mark: nat) {
    z < |s.zones| && mark < |s.zones[z].watermark| && FreeIn(s, z) > s.zones[z].watermark[mark]
  }

  /** None of the first `n` zones of the list can serve the order at the mark. */
  ghost predicate NoneServes(s: Snap, zonelist: seq<nat>, n: nat, order: nat, mark: nat) {
    forall i | 0 <= i < n <= |zonelist| :: !CanServe(s, zonelist[i], order, mark)
  }

  /** None of the list can serve the order at a mark above the given one. */
  ghost predicate NoneAbove(s: Snap, zonelist: seq<nat>, order: nat, mark: nat) {
    forall m | mark < m < 3 :: NoneServes(s, zonelist, |zonelist|, order, m)
  }

  lemma {:induction false} NoneLower(s: Snap, zonelist: seq<nat>, order: nat, mark: nat)
    requires 0 < mark < 3 && NoneAbove(s, zonelist, order, mark) && NoneServes(s, zonelist, |zonelist|, order, mark)
    ensures NoneAbove(s, zonelist, order, mark - 1)
  {
  }

  /** Zone `z` is the first one of the list that can serve the order at the mark. */
  ghost predicate FirstServes(s: Snap, zonelist: seq<nat>, order: nat, mark: nat, z: nat) {
    && CanServe(s, z, order, mark)
    && exists i | 0 <= i < |zonelist| :: zonelist[i] == z && NoneServes(s, zonelist, i, order, mark)
  }

  lemma {:induction false} NoneMore(s: Snap, zonelist: seq<nat>, i: nat, order: nat, mark: nat)
    requires i < |zonelist| && NoneServes(s, zonelist, i, order, mark) && !CanServe(s, zonelist[i], order, mark)
    ensures NoneServes(s, zonelist, i + 1, order, mark)
  {
  }

  // ------------------------------------------------------------------ orders

  /** The largest order that is at most 10 and whose blocks fit into memory. */
  ghost predicate TopOrder(m: nat, n: nat) {
    m <= 10 && (m > 0 ==> Pow2(m) <= n) && forall o: nat | o <= 10 && Pow2(o) <= n :: o <= m
  }

  /** Block number `q` of an order up to 10, other than the first: none of its frames is reserved. */
  predicate OpenRun(pages: seq<Page>, q: nat, k: nat) {
    && k <= 10 && q > 0 && q * Pow2(k) + Pow2(k) <= |pages|
    && forall f | q * Pow2(k) <= f < q * Pow2(k) + Pow2(k) :: !pages[f].reserved
  }

  /** Where all its frames are free, a free block of that order or a larger one holds them. */
  lemma {:induction false} OpenBlock(F: Blocks, pages: seq<Page>, managed: set<nat>, q: nat, k: nat, M: nat)
    requires Canonical(F, |pages|, M) && TopOrder(M, |pages|) && M < MAX_ORDER && OpenRun(pages, q, k)
    requires managed == Usable(pages, |pages|) && forall f: nat | f in managed :: Covers(F, f)
    ensures HasBlock(F, ZoneOf(q * Pow2(k)), k)
  {
    var p := q * Pow2(k);
    MultipleAligned(q, k);
    forall f: nat | Within(f, p, k)
      ensures Covers(F, f)
    {
      ShrRange(p, k, f);
      assert f in managed;
    }
    var b := Absorb(F, |pages|, M, p, k);
    OneZone(b, F[b], p);
  }

  /** Every such block lies in a free block of its order or a larger one. */
  ghost predicate AllServed(F: Blocks, pages: seq<Page>) {
    forall q: nat, k: nat {:trigger OpenRun(pages, q, k)} | OpenRun(pages, q, k) :: HasBlock(F, ZoneOf(q * Pow2(k)), k)
  }

  lemma {:induction false} OpenBlocks(F: Blocks, pages: seq<Page>, managed: set<nat>, M: nat)
    requires Canonical(F, |pages|, M) && TopOrder(M, |pages|) && M < MAX_ORDER
    requires managed == Usable(pages, |pages|) && forall f: nat | f in managed :: Covers(F, f)
    ensures AllServed(F, pages)
  {
    forall q: nat, k: nat {:trigger OpenRun(pages, q, k)} | OpenRun(pages, q, k)
      ensures HasBlock(F, ZoneOf(q * Pow2(k)), k)
    {
      OpenBlock(F, pages, managed, q, k, M);
    }
  }

  /** The block taken is one of the smallest that are large enough, and what is left of it are its upper halves. */
  ghost predicate BestFit(F: Blocks, F': Blocks, z: nat, p: nat, order: nat) {
    && p in F && F[p] >= order && F' == SplitTo(Hand(F - {p}, p, F[p]), order).F
    && forall q | q in F && ZoneOf(q) == z && F[q] >= order :: F[p] <= F[q]
  }

  // ------------------------------------------------------------------ reclaim

  ghost predicate SameMarks(zones: seq<Zone>, zones': seq<Zone>) {
    |zones'| == |zones| && forall z | 0 <= z < |zones| :: zones'[z].watermark == zones[z].watermark
  }

  /** Some held blocks have become free; what stays held keeps its references. */
  ghost predicate More(s: Snap, t: Snap) {
    && |t.pages| == |s.pages| && SameMarks(s.zones, t.zones)
    && (forall p | p in t.held :: p in s.held && t.held[p] == s.held[p])
    && (forall f: nat | Covers(FreeOf(s.pages), f) :: Covers(FreeOf(t.pages), f))
    && (forall f | 0 <= f < |s.pages| && Covers(t.held, f) :: t.pages[f].refcount == s.pages[f].refcount)
  }

  /** The pages that shrink_zone gives back, one for each zone of the list or 0 for none: from `i` on they are held
      single pages without a second reference. */
  ghost predicate Spare(held: Blocks, pages: seq<Page>, victims: seq<nat>, i: nat) {
    forall j | i <= j < |victims| && victims[j] != 0 ::
      victims[j] in held && held[victims[j]] == 0 && OnlyRef(pages, victims[j], 0)
  }

  predicate NoVictims(victims: seq<nat>) {
    forall i | 0 <= i < |victims| :: victims[i] == 0
  }

  predicate Distinct(victims: seq<nat>) {
    forall i, j | 0 <= i < j < |victims| && victims[i] != 0 :: victims[i] != victims[j]
  }

  function PartIn(D: set<nat>, z: nat): set<nat> {
    set f | f in D && ZoneOf(f) == z
  }

  /** With the frames `D` free as well, the zone would fall to its min mark or below. */
  ghost predicate Short(s: Snap, D: set<nat>, z: nat, order: nat) {
    && z < |s.zones| && 0 < |s.zones[z].watermark|
    && FreeIn(s, z) + |PartIn(D, z)| <= Pow2(order) + s.zones[z].watermark[0]
  }

  /** The pages given back by the time the last pass comes to zone `i` of the list: one for each zone that was short. */
  ghost function Drained(s: Snap, zonelist: seq<nat>, victims: seq<nat>, order: nat, i: nat): set<nat>
    requires i <= |zonelist| == |victims|
  {
    if i == 0 then {}
    else
      var D := Drained(s, zonelist, victims, order, i - 1);
      if victims[i - 1] != 0 && Short(s, D, zonelist[i - 1], order) then D + {victims[i - 1]} else D
  }

  /** Exactly the pages `D` were given back. */
  ghost predicate Drain(s: Snap, t: Snap, D: set<nat>) {
    && More(s, t) && t.held == s.held - D && (D == {} ==> t == s) && |s.zones| == |t.zones| == 2
    && forall z | 0 <= z < 2 :: FreeIn(t, z) == FreeIn(s, z) + |PartIn(D, z)|
  }

  lemma {:induction false} DrainNone(s: Snap)
    requires |s.zones| == 2
    ensures Drain(s, s, {})
  {
    assert PartIn({}, 0) == {} && PartIn({}, 1) == {};
    assert s.held - {} == s.held;
  }

  lemma {:induction false} DrainOne(s: Snap, t: Snap, u: Snap, D: set<nat>, v: nat)
    requires Drain(s, t, D) && More(t, u) && v in t.held && u.held == t.held - {v}
    requires Gained(t.zones, u.zones, ZoneOf(v), 1)
    ensures Drain(s, u, D + {v})
  {
    MoreTrans(s, t, u);
    assert s.held - D - {v} == s.held - (D + {v});
    PartGrows(D, v, 0);
    PartGrows(D, v, 1);
    assert u.zones[1 - ZoneOf(v)] == t.zones[1 - ZoneOf(v)];
    assert FreeIn(u, 0) == FreeIn(t, 0) + if ZoneOf(v) == 0 then 1 else 0;
    assert FreeIn(u, 1) == FreeIn(t, 1) + if ZoneOf(v) == 1 then 1 else 0;
  }

  lemma {:induction false} PartGrows(D: set<nat>, v: nat, z: nat)
    requires v !in D
    ensures |PartIn(D + {v}, z)| == |PartIn(D, z)| + if ZoneOf(v) == z then 1 else 0
  {
    assert PartIn(D + {v}, z) == if ZoneOf(v) == z then PartIn(D, z) + {v} else PartIn(D, z);
  }

  // ------------------------------------------------------------------ what an allocation does

  /** The allocation took its block from zone `i` of the list, in the pass against `mark`, in state `from`; it failed if
      `frame` is -1. No zone could serve at a higher mark, nor an earlier one of the list at this mark. Before the last
      pass nothing is reclaimed; in it, one page for each zone passed over that was short. */
  ghost predicate Outcome(s: Snap, from: Snap, t: Snap, frame: int, order: nat, zonelist: seq<nat>, victims: seq<nat>,
                          i: nat, mark: nat) {
    && -1 <= frame && mark < 3 && i <= |zonelist| == |victims|
    && NoneAbove(s, zonelist, order, mark)
    && NoneServes(s, zonelist, i, order, mark)
    && Drain(s, from, if mark == 0 then Drained(s, zonelist, victims, order, i) else {})
    && if frame == -1 then mark == 0 && i == |zonelist| && t == from
       else i < |zonelist| && ZoneOf(frame) == zonelist[i] && Taken(from, t, frame, order, mark)
  }

  ghost predicate Taken(from: Snap, t: Snap, frame: nat, order: nat, mark: nat) {
    && GotFrom(from, t, frame, order) && AboveMark(t, ZoneOf(frame), mark)
    && CanServe(from, ZoneOf(frame), order, mark)
  }

  /** The high mark comes before the low one, and that before the min mark; at each, the first zone of the list that can
      serve does. Reclaim runs only if no zone could serve even at the low mark. */
  lemma {:induction false} Preference(s: Snap, from: Snap, t: Snap, frame: int, order: nat, zonelist: seq<nat>,
                                      victims: seq<nat>, i: nat, mark: nat)
    requires Outcome(s, from, t, frame, order, zonelist, victims, i, mark)
    ensures !NoneServes(s, zonelist, |zonelist|, order, 2) ==>
              frame != -1 && from == s && FirstServes(s, zonelist, order, 2, ZoneOf(frame))
    ensures NoneServes(s, zonelist, |zonelist|, order, 2) && !NoneServes(s, zonelist, |zonelist|, order, 1) ==>
              frame != -1 && from == s && FirstServes(s, zonelist, order, 1, ZoneOf(frame))
    ensures from != s ==>
              NoneServes(s, zonelist, |zonelist|, order, 2) && NoneServes(s, zonelist, |zonelist|, order, 1)
  {
    if mark == 2 {
      assert !NoneServes(s, zonelist, |zonelist|, order, 2) by {
        assert CanServe(s, zonelist[i], order, 2);
      }
    } else if mark == 1 {
      assert !NoneServes(s, zonelist, |zonelist|, order, 1) by {
        assert CanServe(s, zonelist[i], order, 1);
      }
    }
  }

  /** When reclaim gives nothing back, and always with a single zone, an allocation fails exactly if no zone could serve
      it to begin with: with one zone, what reclaim frees comes too late. */
  lemma {:induction false} Exactly(s: Snap, from: Snap, t: Snap, frame: int, order: nat, zonelist: seq<nat>,
                                   victims: seq<nat>, i: nat, mark: nat)
    requires Outcome(s, from, t, frame, order, zonelist, victims, i, mark)
    requires NoVictims(victims) || |zonelist| == 1
    requires forall z | 0 <= z < |s.zones| :: WatermarksOk(s.zones[z])
    ensures frame == -1 <==> NoneServes(s, zonelist, |zonelist|, order, 0)
    ensures NoVictims(victims) || frame != -1 ==> from == s
  {
    if NoVictims(victims) {
      NothingDrained(s, zonelist, victims, order, i);
    }
    if frame != -1 {
      assert CanServe(s, zonelist[i], order, mark) && CanServe(s, zonelist[i], order, 0);
    }
  }

  lemma {:induction false} NothingDrained(s: Snap, zonelist: seq<nat>, victims: seq<nat>, order: nat, i: nat)
    requires i <= |zonelist| == |victims| && NoVictims(victims)
    ensures Drained(s, zonelist, victims, order, i) == {}
  {
    if i > 0 {
      NothingDrained(s, zonelist, victims, order, i - 1);
    }
  }

  /** More free frames serve whatever fewer did: the blocks only grow together. */
  lemma {:induction false} MoreServe(next: seq<int>, s: Snap, lists: seq<seq<seq<nat>>>, next': seq<int>, t: Snap,
                                     lists': seq<seq<seq<nat>>>, M: nat, z: nat, order: nat)
    requires ListsOk(next, s.pages, s.zones, lists) && Canonical(FreeOf(s.pages), |s.pages|, M)
    requires ListsOk(next', t.pages, t.zones, lists') && Canonical(FreeOf(t.pages), |t.pages|, M)
    requires M < MAX_ORDER && |t.pages| == |s.pages| && SameMarks(s.zones, t.zones)
    requires forall f: nat | Covers(FreeOf(s.pages), f) :: Covers(FreeOf(t.pages), f)
    requires z < 2
    ensures CanServe(s, z, order, 0) ==> CanServe(t, z, order, 0)
  {
    CountIsFrames(next, s.pages, s.zones, lists, z, M);
    CountIsFrames(next', t.pages, t.zones, lists', z, M);
    SubsetCard(ZoneFrames(FreeOf(s.pages), |s.pages|, z), ZoneFrames(FreeOf(t.pages), |s.pages|, z));
    if HasBlock(FreeOf(s.pages), z, order) {
      BlockGrows(FreeOf(s.pages), FreeOf(t.pages), |s.pages|, M, z, order);
    }
  }

  lemma {:induction false} BlockGrows(F: Blocks, F': Blocks, n: nat, M: nat, z: nat, order: nat)
    requires Canonical(F, n, M) && Canonical(F', n, M) && M < MAX_ORDER && HasBlock(F, z, order)
    requires forall f: nat | Covers(F, f) :: Covers(F', f)
    ensures HasBlock(F', z, order)
  {
    var p :| p in F && ZoneOf(p) == z && F[p] >= order;
    forall f: nat | Within(f, p, F[p])
      ensures Covers(F', f)
    {
      assert Covers(F, f);
    }
    var q := Absorb(F', n, M, p, F[p]);
    OneZone(q, F'[q], p);
  }

  lemma {:induction false} SubsetCard(a: set<nat>, b: set<nat>)
    requires a <= b
    ensures |a| <= |b|
  {
    assert b == a + (b - a);
  }

  lemma {:induction false} MoreTrans(s: Snap, t: Snap, u: Snap)
    requires More(s, t) && More(t, u)
    ensures More(s, u)
  {
    forall f | 0 <= f < |s.pages| && Covers(u.held, f)
      ensures Covers(t.held, f)
    {
      var p :| p in u.held && Within(f, p, u.held[p]);
      assert p in t.held && Within(f, p, t.held[p]);
    }
  }

  lemma {:induction false} Returned(held: Blocks, pages: seq<Page>, pages': seq<Page>, v: nat, victims: seq<nat>,
                                    i: nat)
    requires Apart(held) && v in held && held[v] == 0 && |pages'| == |pages|
    requires forall f | 0 <= f < |pages| && !Within(f, v, 0) :: pages'[f].refcount == pages[f].refcount
    requires i < |victims| && v == victims[i] != 0 && Spare(held, pages, victims, i) && Distinct(victims)
    ensures forall f | 0 <= f < |pages| && Covers(held - {v}, f) :: pages'[f].refcount == pages[f].refcount
    ensures Spare(held - {v}, pages', victims, i + 1)
  {
    forall f | 0 <= f < |pages| && Covers(held - {v}, f)
      ensures !Within(f, v, 0)
    {
      var p :| p in held - {v} && Within(f, p, (held - {v})[p]);
      assert p in held && p != v && !Within(v, p, held[p]);
    }
    forall j | i + 1 <= j < |victims| && victims[j] != 0
      ensures victims[j] in held - {v} && OnlyRef(pages', victims[j], 0)
    {
      assert victims[j] != victims[i];
    }
  }
}
