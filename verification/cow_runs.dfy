/** Whole runs over shared frames, as runs of processes that each have a memory of their own. */
module CowRuns {
  import opened Machine
  import opened VmaModel
  import opened Mmap
  import opened MmapCalls
  import MmapRuns
  import opened CowModel
  import opened CowSteps
  import opened Cow
  import opened CowWorld

  // ------------------------------------------------------------------ the memory of each process

  ghost function HeldPages(areas: Areas): set<User> {
    set m, va | m in areas && 0 <= va < TASK_SIZE && va % PAGE == 0 && At(areas[m], va).Mapped? :: User(m, va)
  }

  lemma {:induction false} HeldHas(areas: Areas, u: User)
    requires Shaped(areas)
    ensures u in HeldPages(areas) <==> Held(areas, u) && u.va % PAGE == 0
  {
    if Held(areas, u) && u.va % PAGE == 0 {
      assert UserOnly(areas[u.mm]);
    }
  }

  ghost function CellAt(ptes: Ptes, areas: Areas, data: Data, u: User): Cell
    requires Held(areas, u)
  {
    var c := At(areas[u.mm], u.va);
    Cell(c.flags, c.anon, match See(ptes, areas, data, u) case Some(b) => b case None => [], u in ptes)
  }

  /** The memory that each process sees. */
  ghost function WorldOf(ptes: Ptes, areas: Areas, data: Data): World {
    World(areas.Keys, map u | u in HeldPages(areas) && Held(areas, u) :: CellAt(ptes, areas, data, u))
  }

  ghost function W(s: UserMemory): World
    reads s
  {
    WorldOf(s.ptes, s.areas, s.data)
  }

  /** The world agrees with the tables at a page. */
  ghost predicate Agrees(ptes: Ptes, areas: Areas, data: Data, w: World, u: User) {
    && (u in w.cells <==> Held(areas, u) && u.va % PAGE == 0)
    && (u in w.cells ==> w.cells[u] == CellAt(ptes, areas, data, u))
  }

  lemma {:induction false} Agree(ptes: Ptes, areas: Areas, data: Data, u: User)
    requires Shaped(areas)
    ensures Agrees(ptes, areas, data, WorldOf(ptes, areas, data), u)
  {
    HeldHas(areas, u);
  }

  /** Only one world agrees with the tables everywhere. */
  lemma {:induction false} WorldIs(ptes: Ptes, areas: Areas, data: Data, w: World)
    requires Shaped(areas) && w.procs == areas.Keys
    requires forall u {:trigger Agrees(ptes, areas, data, w, u)} :: Agrees(ptes, areas, data, w, u)
    ensures WorldOf(ptes, areas, data) == w
  {
    var v := WorldOf(ptes, areas, data);
    forall u
      ensures u in v.cells <==> u in w.cells
      ensures u in w.cells ==> v.cells[u] == w.cells[u]
    {
      Agree(ptes, areas, data, u);
      assert Agrees(ptes, areas, data, w, u);
    }
    assert v.cells == w.cells;
  }

  // ------------------------------------------------------------------ frames suffice

  /** With more frames than pages that have one, one is free. */
  lemma {:induction false} FrameLeft(ptes: Ptes, areas: Areas, pages: Pages, data: Data)
    requires Inv(ptes, areas, pages, data) && |data.Keys| > |PresentPages(WorldOf(ptes, areas, data))|
    ensures FreeFrame(pages)
  {
    var there := PresentPages(WorldOf(ptes, areas, data));
    forall u | u in ptes
      ensures u in there
    {
      assert EntryOk(ptes, pages, u);
      assert Held(areas, u);
      HeldHas(areas, u);
    }
    SmallerSet(ptes.Keys, there);
    if forall f | f in pages :: pages[f].refcount > 0 {
      FramesBound(ptes, areas, pages, data, pages.Keys, ptes.Keys);
    } else {
      var f :| f in pages && pages[f].refcount == 0;
      assert FrameOk(ptes, pages, f);
    }
  }

  lemma {:induction false} SmallerSet<T>(a: set<T>, b: set<T>)
    requires a <= b
    ensures |a| <= |b|
  {
    assert b == a + (b - a);
  }

  /** Frames in use are no more than the entries that map them. */
  lemma {:induction false} FramesBound(ptes: Ptes, areas: Areas, pages: Pages, data: Data, S: set<nat>, T: set<User>)
    requires Inv(ptes, areas, pages, data) && (forall f | f in S :: f in pages && pages[f].refcount > 0)
    requires forall u | u in ptes && ptes[u].frame in S :: u in T
    ensures |S| <= |T|
    decreases |S|
  {
    if S != {} {
      var f :| f in S;
      assert FrameOk(ptes, pages, f);
      var u := Users(pages[f])[0];
      assert Maps1(ptes, u, f);
      FramesBound(ptes, areas, pages, data, S - {f}, T - {u});
    }
  }

  // ------------------------------------------------------------------ one operation

  lemma {:induction false} SameViews(ptes: Ptes, data: Data, ptes': Ptes, data': Data, areas: Areas, p: User,
                                     done: bool)
    requires Shaped(areas) && SameSight(areas, ptes, data, ptes', data') && Brought(ptes, ptes', p, done)
    ensures var w := WorldOf(ptes, areas, data);
            WorldOf(ptes', areas, data') == if done then Bring(w, p) else w
  {
    var w := if done then Bring(WorldOf(ptes, areas, data), p) else WorldOf(ptes, areas, data);
    forall u
      ensures Agrees(ptes', areas, data', w, u)
    {
      Agree(ptes, areas, data, u);
    }
    WorldIs(ptes', areas, data', w);
  }

  lemma {:induction false} StoredView(ptes: Ptes, data: Data, ptes': Ptes, data': Data, areas: Areas, m: nat, addr: nat,
                                      b: bv8)
    requires Shaped(areas) && Held(areas, PageOf(m, addr))
    requires OneByte(areas, ptes, data, ptes', data', PageOf(m, addr), addr % PAGE, b)
    requires Brought(ptes, ptes', PageOf(m, addr), true)
    ensures WorldOf(ptes', areas, data') == After(WorldOf(ptes, areas, data), StoreOp(m, addr, b), 1)
  {
    var w := After(WorldOf(ptes, areas, data), StoreOp(m, addr, b), 1);
    StoredHere(ptes, data, ptes', data', areas, m, addr, b);
    forall u
      ensures Agrees(ptes', areas, data', w, u)
    {
      if u != PageOf(m, addr) {
        Agree(ptes, areas, data, u);
      }
    }
    WorldIs(ptes', areas, data', w);
  }

  /** The page stored to. */
  lemma {:induction false} StoredHere(ptes: Ptes, data: Data, ptes': Ptes, data': Data, areas: Areas, m: nat, addr: nat,
                                      b: bv8)
    requires Shaped(areas) && Held(areas, PageOf(m, addr))
    requires OneByte(areas, ptes, data, ptes', data', PageOf(m, addr), addr % PAGE, b)
    requires PageOf(m, addr) in ptes'
    ensures Agrees(ptes', areas, data', After(WorldOf(ptes, areas, data), StoreOp(m, addr, b), 1), PageOf(m, addr))
  {
    Agree(ptes, areas, data, PageOf(m, addr));
  }

  /** What every operation keeps, and what it does to the memories. */
  twostate predicate Did(s: UserMemory, op: Op, memory: bool, res: Res)
    reads s
  {
    && s.Valid() && s.data.Keys == old(s.data.Keys)
    && Allowed(|old(s.data.Keys)|, old(W(s)), op, memory, res) && W(s) == After(old(W(s)), op, res.r)
  }

  /** What an area permits is what the memory of its process permits. */
  lemma {:induction false} Permitted(ptes: Ptes, areas: Areas, data: Data, u: User, isWrite: bool, isExec: bool)
    requires Shaped(areas) && u.va % PAGE == 0
    ensures MayAccess(WorldOf(ptes, areas, data), u, isWrite, isExec) <==>
              u.mm in areas && Permits(At(areas[u.mm], u.va), isWrite, isExec)
  {
    Agree(ptes, areas, data, u);
  }

  /** The result of a fault on a page without a frame, as the memories show it. */
  ghost predicate Starves(pages: Pages, memory: bool, r: int) {
    -1 <= r <= 1 && (memory && FreeFrame(pages) ==> r != -1)
  }

  lemma {:induction false} Starving(ptes: Ptes, areas: Areas, pages: Pages, data: Data, memory: bool, r: int)
    requires Inv(ptes, areas, pages, data) && Starves(pages, memory, r) && r == -1
    ensures Starved(|data.Keys|, WorldOf(ptes, areas, data), memory)
  {
    if |data.Keys| > |PresentPages(WorldOf(ptes, areas, data))| {
      FrameLeft(ptes, areas, pages, data);
    }
  }

  lemma {:induction false} FaultAllowed(ptes: Ptes, areas: Areas, pages: Pages, data: Data, op: Op, memory: bool,
                                        r: int)
    requires Inv(ptes, areas, pages, data) && op.FaultOp? && Starves(pages, memory, r)
    requires var u := PageOf(op.mm, op.addr);
             && (r != 0 ==> u.mm in areas && Permits(At(areas[u.mm], u.va), op.isWrite, op.isExec))
             && (u in ptes && !op.isWrite ==> r == 0)
             && (r == 0 && u.mm in areas && u !in ptes ==> !Permits(At(areas[u.mm], u.va), op.isWrite, op.isExec))
    ensures Allowed(|data.Keys|, WorldOf(ptes, areas, data), op, memory, Res(r, 0))
  {
    Permitted(ptes, areas, data, PageOf(op.mm, op.addr), op.isWrite, op.isExec);
    Agree(ptes, areas, data, PageOf(op.mm, op.addr));
    if r == -1 {
      Starving(ptes, areas, pages, data, memory, r);
    }
  }

  method DoFault(s: UserMemory, m: nat, addr: nat, isWrite: bool, isExec: bool, memory: bool) returns (res: Res)
    requires s.Valid()
    modifies s`ptes, s`pages, s`data
    ensures Did(s, FaultOp(m, addr, isWrite, isExec), memory, res)
  {
    var r, u := 0, PageOf(m, addr);
    SeenIsHeld(s.ptes, s.areas, s.pages, s.data, u);
    if m in s.areas {
      r := s.HandleMmFault(u, u in s.ptes, isWrite, isExec, memory);
    }
    FaultAllowed(old(s.ptes), s.areas, old(s.pages), old(s.data), FaultOp(m, addr, isWrite, isExec), memory, r);
    SameViews(old(s.ptes), old(s.data), s.ptes, s.data, s.areas, u, r == 1);
    res := Res(r, 0);
  }

  lemma {:induction false} SeenIsHeld(ptes: Ptes, areas: Areas, pages: Pages, data: Data, u: User)
    requires Inv(ptes, areas, pages, data)
    ensures See(ptes, areas, data, u).Some? <==> Held(areas, u) && u.va % PAGE == 0
    ensures u in ptes ==> Held(areas, u)
  {
    if u in ptes {
      assert EntryOk(ptes, pages, u);
      assert Held(areas, u);
    }
  }

  lemma {:induction false} LoadAllowed(ptes: Ptes, areas: Areas, pages: Pages, data: Data, op: Op, memory: bool, r: int,
                                       b: bv8)
    requires Inv(ptes, areas, pages, data) && op.LoadOp? && Starves(pages, memory, r)
    requires var u := PageOf(op.mm, op.addr);
             && (r == 1 ==> See(ptes, areas, data, u).Some? && |See(ptes, areas, data, u).value| == PAGE)
             && (r == 1 ==> b == See(ptes, areas, data, u).value[op.addr % PAGE])
             && (u in ptes ==> r == 1)
             && (u !in ptes ==> (r == 0 <==> u.mm in areas ==> !Permits(At(areas[u.mm], u.va), false, false)))
    ensures Allowed(|data.Keys|, WorldOf(ptes, areas, data), op, memory, Res(r, b))
  {
    var u := PageOf(op.mm, op.addr);
    Permitted(ptes, areas, data, u, false, false);
    Agree(ptes, areas, data, u);
    SeenIsHeld(ptes, areas, pages, data, u);
    if r == -1 {
      Starving(ptes, areas, pages, data, memory, r);
    }
  }

  method DoLoad(s: UserMemory, m: nat, addr: nat, memory: bool) returns (res: Res)
    requires s.Valid()
    modifies s`ptes, s`pages, s`data
    ensures Did(s, LoadOp(m, addr), memory, res)
  {
    res := Res(0, 0);
    var u := PageOf(m, addr);
    SeenIsHeld(s.ptes, s.areas, s.pages, s.data, u);
    if m in s.areas {
      var r, b := s.Load(u, addr % PAGE, memory);
      res := Res(r, b);
    }
    LoadAllowed(old(s.ptes), s.areas, old(s.pages), old(s.data), LoadOp(m, addr), memory, res.r, res.b);
    SameViews(old(s.ptes), old(s.data), s.ptes, s.data, s.areas, u, res.r == 1);
  }

  lemma {:induction false} StoreAllowed(ptes: Ptes, areas: Areas, pages: Pages, data: Data, op: Op, memory: bool,
                                        r: int)
    requires Inv(ptes, areas, pages, data) && op.StoreOp? && Starves(pages, memory, r)
    requires var u := PageOf(op.mm, op.addr);
             && (r == 1 ==> See(ptes, areas, data, u).Some? && |See(ptes, areas, data, u).value| == PAGE)
             && (r == 0 <==> !Writable(areas, u))
    ensures Allowed(|data.Keys|, WorldOf(ptes, areas, data), op, memory, Res(r, 0))
    ensures r == 1 ==> Held(areas, PageOf(op.mm, op.addr))
  {
    var u := PageOf(op.mm, op.addr);
    Permitted(ptes, areas, data, u, true, false);
    Agree(ptes, areas, data, u);
    SeenIsHeld(ptes, areas, pages, data, u);
    if r == -1 {
      Starving(ptes, areas, pages, data, memory, r);
    }
  }

  method DoStore(s: UserMemory, m: nat, addr: nat, b: bv8, memory: bool) returns (res: Res)
    requires s.Valid()
    modifies s`ptes, s`pages, s`data
    ensures Did(s, StoreOp(m, addr, b), memory, res)
  {
    var r := 0;
    if m in s.areas {
      r := s.Store(PageOf(m, addr), addr % PAGE, b, memory);
    }
    StoreAllowed(old(s.ptes), s.areas, old(s.pages), old(s.data), StoreOp(m, addr, b), memory, r);
    if r == 1 {
      StoredView(old(s.ptes), old(s.data), s.ptes, s.data, s.areas, m, addr, b);
    } else {
      SameViews(old(s.ptes), old(s.data), s.ptes, s.data, s.areas, PageOf(m, addr), false);
    }
    res := Res(r, 0);
  }

  lemma {:induction false} MappedWorld(ptes: Ptes, areas: Areas, areas': Areas, data: Data, m: nat, lo: nat, hi: nat,
                                       flags: nat, anon: nat)
    requires Shaped(areas) && Shaped(areas') && m in areas && m in areas' && areas' == areas[m := areas'[m]]
    requires Maps(areas[m], areas'[m], lo, hi, flags, anon)
    requires forall v: User | v.va % PAGE == 0 ::
               See(ptes, areas', data, v) == if v.mm == m && lo <= v.va < hi then Some(ZeroPage())
                                             else See(ptes, areas, data, v)
    requires forall v | v in ptes :: Held(areas, v)
    ensures WorldOf(ptes, areas', data) == After(WorldOf(ptes, areas, data), MapOp(m, lo, hi, flags, anon), 1)
  {
    var w := After(WorldOf(ptes, areas, data), MapOp(m, lo, hi, flags, anon), 1);
    forall u
      ensures Agrees(ptes, areas', data, w, u)
    {
      MappedAgrees(ptes, areas, areas', data, m, lo, hi, flags, anon, u);
    }
    WorldIs(ptes, areas', data, w);
  }

  lemma {:induction false} MappedAgrees(ptes: Ptes, areas: Areas, areas': Areas, data: Data, m: nat, lo: nat, hi: nat,
                                        flags: nat, anon: nat, u: User)
    requires Shaped(areas) && m in areas && m in areas' && areas' == areas[m := areas'[m]]
    requires Maps(areas[m], areas'[m], lo, hi, flags, anon)
    requires u.va % PAGE == 0 ==>
               See(ptes, areas', data, u) == if u.mm == m && lo <= u.va < hi then Some(ZeroPage())
                                             else See(ptes, areas, data, u)
    requires u in ptes ==> Held(areas, u)
    ensures Agrees(ptes, areas', data, After(WorldOf(ptes, areas, data), MapOp(m, lo, hi, flags, anon), 1), u)
  {
    Agree(ptes, areas, data, u);
    assert u in PagesIn(m, lo, hi) <==> u.mm == m && lo <= u.va < hi && u.va % 0x1000 == 0;
    assert u.mm == m ==> At(areas'[m], u.va) == if lo <= u.va < hi then Mapped(flags, anon) else At(areas[m], u.va);
    assert ZeroPage() == seq(0x1000, _ => 0);
  }

  /** Whether a range is free shows in the memory of its process. */
  lemma {:induction false} FreeInWorld(ptes: Ptes, areas: Areas, data: Data, m: nat, lo: nat, hi: nat)
    requires Shaped(areas) && m in areas && lo < hi && lo % PAGE == 0 && hi % PAGE == 0
    ensures RangeFree(areas[m], lo, hi) <==>
              forall u | u in WorldOf(ptes, areas, data).cells :: !InRange(u, m, lo, hi)
  {
    var w, A := WorldOf(ptes, areas, data), areas[m];
    MmapRuns.FreeIff(A, lo, hi);
    if RangeFree(A, lo, hi) {
      forall u | u in w.cells
        ensures !InRange(u, m, lo, hi)
      {
        Agree(ptes, areas, data, u);
        assert u.mm == m && lo <= u.va < hi ==> MmapRuns.On(MmapRuns.Meaning(A), u.va) == Hole;
      }
    } else {
      var i :| 0 <= i < |A| && !(hi <= A[i].start || lo >= A[i].end);
      var x := if lo < A[i].start then A[i].start else lo;
      SortedAt(A, i, i);
      AtIndex(A, i, x);
      Agree(ptes, areas, data, User(m, x));
      assert InRange(User(m, x), m, lo, hi);
    }
  }

  method DoMap(s: UserMemory, m: nat, lo: nat, hi: nat, flags: nat, anon: nat) returns (res: Res)
    requires s.Valid()
    modifies s`areas
    ensures Did(s, MapOp(m, lo, hi, flags, anon), true, res)
  {
    res := Res(0, 0);
    if m in s.areas && lo < hi <= TASK_SIZE && lo % PAGE == 0 && hi % PAGE == 0 {
      FreeInWorld(s.ptes, s.areas, s.data, m, lo, hi);
      if RangeFree(s.areas[m], lo, hi) {
        s.MapRange(m, lo, hi, flags, anon);
        MappedWorld(s.ptes, old(s.areas), s.areas, s.data, m, lo, hi, flags, anon);
        res := Res(1, 0);
      }
    }
  }

  lemma {:induction false} UnmappedWorld(ptes: Ptes, areas: Areas, ptes': Ptes, areas': Areas, data: Data, m: nat,
                                         addr: nat, length: nat)
    requires Shaped(areas) && Shaped(areas') && m in areas && m in areas' && areas' == areas[m := areas'[m]]
    requires Unmaps(areas[m], areas'[m], addr, addr + Rounded(length))
    requires forall v :: See(ptes', areas', data, v) ==
               if v.mm == m && addr <= v.va < addr + Rounded(length) then None else See(ptes, areas, data, v)
    requires forall v :: v in ptes' <==> v in ptes && !(v.mm == m && addr <= v.va < addr + Rounded(length))
    ensures WorldOf(ptes', areas', data) == After(WorldOf(ptes, areas, data), UnmapOp(m, addr, length), 0)
  {
    var w := After(WorldOf(ptes, areas, data), UnmapOp(m, addr, length), 0);
    forall u
      ensures Agrees(ptes', areas', data, w, u)
    {
      UnmappedAgrees(ptes, areas, ptes', areas', data, m, addr, length, u);
    }
    WorldIs(ptes', areas', data, w);
  }

  lemma {:induction false} UnmappedAgrees(ptes: Ptes, areas: Areas, ptes': Ptes, areas': Areas, data: Data, m: nat,
                                          addr: nat, length: nat, u: User)
    requires Shaped(areas) && m in areas && m in areas' && areas' == areas[m := areas'[m]]
    requires Unmaps(areas[m], areas'[m], addr, addr + Rounded(length))
    requires See(ptes', areas', data, u) ==
               if u.mm == m && addr <= u.va < addr + Rounded(length) then None else See(ptes, areas, data, u)
    requires u in ptes' <==> u in ptes && !(u.mm == m && addr <= u.va < addr + Rounded(length))
    ensures Agrees(ptes', areas', data, After(WorldOf(ptes, areas, data), UnmapOp(m, addr, length), 0), u)
  {
    Agree(ptes, areas, data, u);
    var hi := addr + Rounded(length);
    assert u.mm == m ==> At(areas'[m], u.va) == if addr <= u.va < hi then Hole else At(areas[m], u.va);
  }

  method DoUnmap(s: UserMemory, m: nat, addr: nat, length: nat) returns (res: Res)
    requires s.Valid()
    modifies s`ptes, s`areas, s`pages
    ensures Did(s, UnmapOp(m, addr, length), true, res)
  {
    res := Res(-1, 0);
    if m in s.areas && addr < WORD && length < WORD {
      MmapRuns.SaneIff(addr, length);
      assert Rounded(length) == MmapRuns.Rounded(length);
      var r := s.Munmap(m, addr, length);
      if r == 0 {
        UnmappedWorld(old(s.ptes), old(s.areas), s.ptes, s.areas, s.data, m, addr, length);
      }
      res := Res(r, 0);
    }
  }

  lemma {:induction false} ExitedWorld(ptes: Ptes, areas: Areas, ptes': Ptes, data: Data, m: nat)
    requires Shaped(areas) && Shaped(areas - {m}) && m in areas
    requires forall v :: See(ptes', areas - {m}, data, v) == if v.mm == m then None else See(ptes, areas, data, v)
    requires forall v :: v in ptes' <==> v in ptes && v.mm != m
    ensures WorldOf(ptes', areas - {m}, data) == After(WorldOf(ptes, areas, data), ExitOp(m), 1)
  {
    var areas' := areas - {m};
    var w := After(WorldOf(ptes, areas, data), ExitOp(m), 1);
    forall u
      ensures Agrees(ptes', areas', data, w, u)
    {
      Agree(ptes, areas, data, u);
    }
    assert areas'.Keys == areas.Keys - {m};
    WorldIs(ptes', areas', data, w);
  }

  method DoExit(s: UserMemory, m: nat) returns (res: Res)
    requires s.Valid()
    modifies s`ptes, s`areas, s`pages
    ensures Did(s, ExitOp(m), true, res)
  {
    res := Res(0, 0);
    if m in s.areas {
      s.Exit(m);
      ExitedWorld(old(s.ptes), old(s.areas), s.ptes, s.data, m);
      res := Res(1, 0);
    }
  }

  lemma {:induction false} ForkedWorld(ptes: Ptes, areas: Areas, ptes': Ptes, data: Data, src: nat, c: nat)
    requires src in areas && c !in areas && c > 0 && Shaped(areas) && Shaped(areas[c := areas[src]])
    requires var areas' := areas[c := areas[src]];
             && (forall v: User | v.mm != c :: See(ptes', areas', data, v) == See(ptes, areas, data, v))
             && (forall va :: See(ptes', areas', data, User(c, va)) == See(ptes, areas, data, User(src, va)))
             && (forall v: User :: v in ptes' <==> (if v.mm == c then User(src, v.va) else v) in ptes)
    ensures WorldOf(ptes', areas[c := areas[src]], data) == After(WorldOf(ptes, areas, data), ForkOp(src), c)
  {
    var areas' := areas[c := areas[src]];
    var w := After(WorldOf(ptes, areas, data), ForkOp(src), c);
    forall u
      ensures Agrees(ptes', areas', data, w, u)
    {
      assert u.mm == c ==> u == User(c, u.va);
      ForkedAgrees(ptes, areas, ptes', data, src, c, u);
    }
    WorldIs(ptes', areas', data, w);
  }

  lemma {:induction false} ForkedAgrees(ptes: Ptes, areas: Areas, ptes': Ptes, data: Data, src: nat, c: nat, u: User)
    requires Shaped(areas) && src in areas && c !in areas && c > 0
    requires See(ptes', areas[c := areas[src]], data, u) ==
               See(ptes, areas, data, if u.mm == c then User(src, u.va) else u)
    requires u in ptes' <==> (if u.mm == c then User(src, u.va) else u) in ptes
    ensures Agrees(ptes', areas[c := areas[src]], data, After(WorldOf(ptes, areas, data), ForkOp(src), c), u)
  {
    var w := WorldOf(ptes, areas, data);
    Agree(ptes, areas, data, u);
    Agree(ptes, areas, data, User(src, u.va));
    assert u in Clone(w.cells, src, c) <==> u.mm == c && User(src, u.va) in w.cells;
  }

  method DoFork(s: UserMemory, src: nat, memory: bool) returns (res: Res)
    requires s.Valid()
    modifies s`ptes, s`areas, s`pages
    ensures Did(s, ForkOp(src), memory, res)
  {
    res := Res(0, 0);
    if |s.areas.Keys| < 0xFFFF {
      assert |s.areas| == |s.areas.Keys|;
      FewForks(s.ptes, s.areas, s.pages, s.data, src);
    }
    if src in s.areas && SharableFrom(s.ptes, s.pages, src, 0) {
      var c := s.Fork(src, memory);
      if c != 0 {
        ForkedWorld(old(s.ptes), old(s.areas), s.ptes, s.data, src, c);
      }
      res := Res(c, 0);
    }
  }

  /** One operation; one that its caller could not issue does nothing. */
  method Step(s: UserMemory, op: Op, memory: bool) returns (res: Res)
    requires s.Valid()
    modifies s
    ensures Did(s, op, memory, res)
  {
    match op
    case ForkOp(src) => res := DoFork(s, src, memory);
    case FaultOp(m, addr, isWrite, isExec) => res := DoFault(s, m, addr, isWrite, isExec, memory);
    case LoadOp(m, addr) => res := DoLoad(s, m, addr, memory);
    case StoreOp(m, addr, b) => res := DoStore(s, m, addr, b, memory);
    case MapOp(m, lo, hi, flags, anon) => res := DoMap(s, m, lo, hi, flags, anon);
    case UnmapOp(m, addr, length) => res := DoUnmap(s, m, addr, length);
    case ExitOp(m) => res := DoExit(s, m);
  }

  lemma {:induction false} Snoc(n: nat, w: World, ops: seq<Op>, memory: seq<bool>, rs: seq<Res>, i: nat, res: Res)
    requires i == |rs| < |ops| == |memory| && Allowed(n, AfterAll(w, ops[..i], rs), ops[i], memory[i], res)
    requires forall j | 0 <= j < i :: AllowedAt(n, w, ops, memory, rs, j)
    ensures AfterAll(w, ops[..i + 1], rs + [res]) == After(AfterAll(w, ops[..i], rs), ops[i], res.r)
    ensures forall j | 0 <= j < i + 1 :: AllowedAt(n, w, ops, memory, rs + [res], j)
  {
    assert ops[..i + 1][..i] == ops[..i] && (rs + [res])[..i] == rs;
    forall j | 0 <= j < i
      ensures AllowedAt(n, w, ops, memory, rs + [res], j)
    {
      assert AllowedAt(n, w, ops, memory, rs, j) && (rs + [res])[..j] == rs[..j];
    }
  }

  /** The first `i` operations had the results `rs`, and led from `w` to `w'`. */
  ghost predicate RanTo(n: nat, w: World, ops: seq<Op>, memory: seq<bool>, rs: seq<Res>, i: nat, w': World) {
    && i == |rs| <= |ops| == |memory| && w' == AfterAll(w, ops[..i], rs)
    && forall j | 0 <= j < i :: AllowedAt(n, w, ops, memory, rs, j)
  }

  method OneMore(s: UserMemory, ops: seq<Op>, memory: seq<bool>, rs: seq<Res>, i: nat, ghost n: nat, ghost w: World)
    returns (rs': seq<Res>)
    requires s.Valid() && |s.data.Keys| == n && RanTo(n, w, ops, memory, rs, i, W(s)) && i < |ops|
    modifies s
    ensures s.Valid() && |s.data.Keys| == n && RanTo(n, w, ops, memory, rs', i + 1, W(s))
  {
    var res := Step(s, ops[i], memory[i]);
    Snoc(n, w, ops, memory, rs, i, res);
    rs' := rs + [res];
  }

  /** Any run: the memories at the end are what the operations with their results make of memories that nobody shares,
      and every result is one that such a memory allows. */
  method Run(s: UserMemory, ops: seq<Op>, memory: seq<bool>) returns (rs: seq<Res>)
    requires s.Valid() && |memory| == |ops|
    modifies s
    ensures s.Valid() && |rs| == |ops| && W(s) == AfterAll(old(W(s)), ops, rs)
    ensures forall i | 0 <= i < |ops| :: AllowedAt(|old(s.data.Keys)|, old(W(s)), ops, memory, rs, i)
  {
    rs := [];
    ghost var n, w := |s.data.Keys|, W(s);
    assert ops[..0] == [];
    var i := 0;
    while i < |ops|
      invariant i <= |ops| && s.Valid() && |s.data.Keys| == n && RanTo(n, w, ops, memory, rs, i, W(s))
    {
      rs := OneMore(s, ops, memory, rs, i, n, w);
      i := i + 1;
    }
    assert ops[..i] == ops;
  }

  /** A fork is a snapshot: an idle child keeps the parent's memory as it was, and an idle parent its own, whatever the
      other one and everybody else do afterwards. */
  method ForkThenRun(s: UserMemory, src: nat, ops: seq<Op>, memory: seq<bool>) returns (res: Res, rs: seq<Res>)
    requires s.Valid() && |memory| == |ops|
    modifies s
    ensures s.Valid() && 0 <= res.r && (res.r != 0 && Idle(ops, res.r) ==> SameMemory(old(W(s)), src, W(s), res.r))
    ensures src in old(s.areas) && Idle(ops, src) ==> SameMemory(old(W(s)), src, W(s), src)
  {
    ghost var n, w := |s.data.Keys|, W(s);
    res := DoFork(s, src, true);
    assert 0 <= res.r;
    ghost var w1 := W(s);
    Homes(old(s.ptes), old(s.areas), old(s.data));
    if res.r != 0 {
      ForkCopies(n, w, src, true, res);
    }
    rs := Run(s, ops, memory);
    if res.r != 0 && Idle(ops, res.r) {
      IdleKeeps(n, w1, ops, memory, rs, res.r);
    }
    if src in w1.procs && Idle(ops, src) {
      IdleKeeps(n, w1, ops, memory, rs, src);
    }
  }

  lemma {:induction false} Homes(ptes: Ptes, areas: Areas, data: Data)
    ensures forall u | u in WorldOf(ptes, areas, data).cells :: u.mm in WorldOf(ptes, areas, data).procs
  {
  }
}
