/** mm/mmap.c, mm/memory.c, mm/rmap.c: fork, page faults, unmapping and exit over shared page frames. */
module Cow {
  import opened Kmalloc
  import opened Lists
  import opened Machine
  import opened VmaModel
  import opened Mmap
  import opened MmapCalls
  import opened CowModel
  import opened CowSteps

  class UserMemory {
    var ptes: Ptes
    var areas: Areas
    var pages: Pages
    var data: Data

    ghost predicate Valid()
      reads this
    {
      Inv(ptes, areas, pages, data)
    }

    /** All frames free, and one address space with nothing in it. */
    constructor (frames: set<nat>)
      requires 0 !in frames
      ensures Valid() && areas == map[1 := []] && ptes == map[] && pages.Keys == frames
    {
      ptes, areas := map[], map[1 := []];
      pages := map f | f in frames :: Page(0, 0, 0, 0, []);
      data := map f | f in frames :: ZeroPage();
    }

    /** What a process sees at a page. */
    ghost function View(u: User): Option<Bytes>
      reads this
    {
      See(ptes, areas, data, u)
    }

    // ------------------------------------------------------------------ frames and reverse maps

    /** A frame is free. */
    ghost predicate Room()
      reads this
    {
      FreeFrame(pages)
    }

    /** alloc_page: some free frame with one reference, or NULL; with `memory` it fails only if no frame is free */
    method AllocPage(memory: bool) returns (f: nat)
      modifies this`pages
      ensures memory && old(Room()) ==> f != 0
      ensures if f == 0 then pages == old(pages)
              else f in old(pages) && old(pages)[f].refcount == 0
                     && pages == old(pages)[f := old(pages)[f].(refcount := 1)]
    {
      f := 0;
      var give :| memory ==> give;
      if give {
        if g :| g in pages && g != 0 && pages[g].refcount == 0 {
          f := g;
          pages := pages[f := pages[f].(refcount := 1)];
        }
      }
    }

    /** free_page: drops one reference */
    method FreePage(f: nat)
      requires f in pages && pages[f].refcount > 0
      modifies this`pages
      ensures pages == old(pages)[f := old(pages)[f].(refcount := old(pages)[f].refcount - 1)]
    {
      pages := pages[f := pages[f].(refcount := pages[f].refcount - 1)];
    }

    /** get_page */
    method GetPage(f: nat)
      requires f in pages
      modifies this`pages
      ensures var n := old(pages)[f].refcount;
              pages == old(pages)[f := old(pages)[f].(refcount := if n < 0xFFFF then n + 1 else n)]
    {
      if pages[f].refcount == 0 {
        pages := pages[f := pages[f].(refcount := 1)];
      } else if pages[f].refcount < 0xFFFF {
        pages := pages[f := pages[f].(refcount := pages[f].refcount + 1)];
      }
    }

    /** page_add_anon_rmap */
    method PageAddAnonRmap(u: User, f: nat)
      requires f in pages
      modifies this`pages
      ensures pages == old(pages)[f := AddUser(old(pages)[f], u)]
    {
      var p := pages[f];
      if p.mapcount == 0 {
        pages := pages[f := p.(mapMm := u.mm, mapVaddr := u.va, mapcount := 1)];
        return;
      }
      if p.mapMm == u.mm && p.mapVaddr == u.va {
        return;
      }
      var i := 0;
      while i < |p.rmap|
        invariant 0 <= i <= |p.rmap| && u !in p.rmap[..i]
      {
        if p.rmap[i] == u {
          return;
        }
        i := i + 1;
      }
      p := p.(rmap := [u] + p.rmap);
      if p.mapcount < 0xFFFF {
        p := p.(mapcount := p.mapcount + 1);
      }
      pages := pages[f := p];
    }

    /** page_remove_rmap */
    method PageRemoveRmap(u: User, f: nat)
      requires f in pages
      modifies this`pages
      ensures pages == old(pages)[f := DropUser(old(pages)[f], u)]
    {
      var p := pages[f];
      if p.mapcount == 0 {
        return;
      }
      if p.mapMm == u.mm && p.mapVaddr == u.va {
        if p.mapcount == 1 {
          pages := pages[f := p.(mapMm := 0, mapVaddr := 0, mapcount := 0)];
          return;
        }
        if p.rmap != [] {
          p := p.(rmap := p.rmap[1..], mapMm := p.rmap[0].mm, mapVaddr := p.rmap[0].va);
        } else {
          p := p.(mapMm := 0, mapVaddr := 0);
        }
        pages := pages[f := p.(mapcount := p.mapcount - 1)];
        return;
      }
      var i := 0;
      while i < |p.rmap|
        invariant 0 <= i <= |p.rmap| && u !in p.rmap[..i]
      {
        if p.rmap[i] == u {
          WithoutAt(p.rmap, u, i);
          pages := pages[f := p.(rmap := p.rmap[..i] + p.rmap[i + 1..], mapcount := p.mapcount - 1)];
          return;
        }
        i := i + 1;
      }
    }

    // ------------------------------------------------------------------ faults

    /** resolve_cow: makes a copy-on-write entry writable, copying the frame if it is shared */
    method ResolveCow(u: User, memory: bool) returns (r: int)
      requires Valid()
      modifies this`ptes, this`pages, this`data
      ensures Valid() && SameSight(areas, old(ptes), old(data), ptes, data)
      ensures r == 0 <==> u !in old(ptes) || !old(ptes)[u].cow
      ensures memory && old(Room()) ==> r != -1
      ensures r == -1 ==> u in ptes && exists v :: v != u && v in ptes && ptes[v].frame == ptes[u].frame
      ensures r == 1 ==> u in ptes && ptes[u].rw
      ensures r != 1 ==> ptes == old(ptes) && pages == old(pages)
      ensures -1 <= r <= 1 && data.Keys == old(data).Keys && ptes.Keys == old(ptes).Keys
    {
      if u !in ptes || !ptes[u].cow {
        return 0;
      }
      var f := ptes[u].frame;
      assert EntryOk(ptes, pages, u);
      assert FrameOk(ptes, pages, f);
      var rc := pages[f].refcount;
      if rc <= 1 {
        Reflag(ptes, pages, data, u, true, false);
        ptes := ptes[u := Pte(f, true, false)];
        return 1;
      }
      assert exists v :: v != u && v in ptes && ptes[v].frame == f by {
        var v := SecondUser(ptes, pages, f, u);
      }
      r := CopyPage(u, f, memory);
    }

    /** The part of resolve_cow that copies the frame. */
    method CopyPage(u: User, f: nat, memory: bool) returns (r: int)
      requires Valid() && u in ptes && ptes[u].cow && ptes[u].frame == f && f in pages && pages[f].refcount > 1
      modifies this`ptes, this`pages, this`data
      ensures Valid() && SameSight(areas, old(ptes), old(data), ptes, data)
      ensures (r == 1 || r == -1) && (memory && old(Room()) ==> r == 1)
      ensures data.Keys == old(data).Keys && ptes.Keys == old(ptes).Keys
      ensures if r == 1 then u in ptes && ptes[u].rw else ptes == old(ptes) && pages == old(pages)
    {
      ghost var pages0 := pages;
      var g := AllocPage(memory);
      if g == 0 {
        return -1;
      }
      var tmp :| memory ==> tmp; // whether kmalloc has a page for the copy
      if !tmp {
        FreePage(g);
        assert pages == pages0;
        return -1;
      }
      Copied(ptes, areas, pages0, data, u, g);
      MovePage(u, f, g);
      assert pages == pages0[f := Lose(pages0[f], u)][g := Gain(pages0[g], u)];
      return 1;
    }

    method MovePage(u: User, f: nat, g: nat)
      requires f in pages && g in pages && f != g && pages[f].refcount > 0 && f in data
      modifies this`ptes, this`pages, this`data
      ensures ptes == old(ptes)[u := Pte(g, true, false)] && data == old(data)[g := old(data)[f]]
      ensures pages == old(pages)[f := Lose(old(pages)[f], u)][g := AddUser(old(pages)[g], u)]
    {
      ghost var pages0 := pages;
      var tmp := data[f];
      ptes := ptes[u := Pte(g, true, false)];
      PageRemoveRmap(u, f);
      PageAddAnonRmap(u, g);
      data := data[g := tmp];
      FreePage(f);
    }

    /** handle_mm_fault, for a page of the running process; the fault's present bit is the hardware's. */
    method HandleMmFault(u: User, isPresent: bool, isWrite: bool, isExec: bool, memory: bool) returns (r: int)
      requires Valid() && u.mm in areas && u.va % PAGE == 0 && (isPresent <==> u in ptes)
      modifies this`ptes, this`pages, this`data
      ensures Valid() && SameSight(areas, old(ptes), old(data), ptes, data)
      ensures r == 1 ==> u in ptes && (isWrite ==> ptes[u].rw)
      ensures r == 0 <==>
                !Permits(At(areas[u.mm], u.va), isWrite, isExec) || (isPresent && (!isWrite || old(ptes)[u].rw))
      ensures -1 <= r <= 1 && (memory && old(Room()) ==> r != -1)
      ensures data.Keys == old(data).Keys && Brought(old(ptes), ptes, u, r == 1)
    {
      if !Permits(At(areas[u.mm], u.va), isWrite, isExec) {
        return 0;
      }
      if isPresent {
        if !isWrite {
          return 0;
        }
        assert EntryOk(ptes, pages, u);
        assert Writable(areas, u);
        var res := ResolveCow(u, memory);
        if res > 0 {
          return 1;
        }
        if res < 0 {
          return -1;
        }
        if Permits(At(areas[u.mm], u.va), true, false) {
          var e := ptes[u];
          if !e.rw && !e.cow {
            // a permission that lags behind its area: no run leads here
            assert false;
          }
        }
        return 0;
      }
      var f := AllocPage(memory);
      if f == 0 {
        return -1;
      }
      var rw := Permits(At(areas[u.mm], u.va), true, false);
      ghost var pages0 := old(pages);
      assert FrameOk(ptes, pages0, f);
      Zeroed(ptes, areas, pages0, data, u, f);
      ptes := ptes[u := Pte(f, rw, false)];
      PageAddAnonRmap(u, f);
      data := data[f := ZeroPage()];
      assert pages == pages0[f := Gain(pages0[f], u)];
      return 1;
    }

    // ------------------------------------------------------------------ accesses by a process

    /** A store of one byte: through the entry if it is writable, after a fault otherwise. */
    method Store(u: User, off: nat, b: bv8, memory: bool) returns (r: int)
      requires Valid() && u.mm in areas && u.va % PAGE == 0 && off < PAGE
      modifies this`ptes, this`pages, this`data
      ensures Valid() && -1 <= r <= 1
      ensures if r == 1 then OneByte(areas, old(ptes), old(data), ptes, data, u, off, b)
              else SameSight(areas, old(ptes), old(data), ptes, data)
      ensures r == 0 <==> !Writable(areas, u)
      ensures (memory && old(Room()) ==> r != -1) && data.Keys == old(data).Keys
      ensures Brought(old(ptes), ptes, u, r == 1)
    {
      if !(u in ptes && ptes[u].rw) {
        r := HandleMmFault(u, u in ptes, true, false, memory);
        if r != 1 {
          return;
        }
      }
      ghost var P, D := ptes, data;
      StoreByte(u, off, b);
      ByteAfter(areas, old(ptes), old(data), P, D, ptes, data, u, off, b);
      r := 1;
    }

    method StoreByte(u: User, off: nat, b: bv8)
      requires Valid() && u in ptes && ptes[u].rw && off < PAGE
      modifies this`data
      ensures Valid() && OneByte(areas, old(ptes), old(data), ptes, data, u, off, b)
      ensures Writable(areas, u) && data.Keys == old(data).Keys
    {
      var f := ptes[u].frame;
      assert EntryOk(ptes, pages, u);
      ghost var bytes := data[f][off := b];
      forall v
        ensures See(ptes, areas, data[f := bytes], v) == if v == u then Some(bytes) else See(ptes, areas, data, v)
      {
        StoreView(ptes, areas, pages, data, u, bytes, v);
      }
      Rewrite(ptes, pages, data, f, bytes);
      data := data[f := data[f][off := b]];
    }

    /** A load of one byte: the byte that the process sees, after a fault if the page is not there yet. */
    method Load(u: User, off: nat, memory: bool) returns (r: int, b: bv8)
      requires Valid() && u.mm in areas && u.va % PAGE == 0 && off < PAGE
      modifies this`ptes, this`pages, this`data
      ensures Valid() && SameSight(areas, old(ptes), old(data), ptes, data)
      ensures r == 1 ==> View(u).Some? && |View(u).value| == PAGE && b == View(u).value[off]
      ensures u !in old(ptes) ==> (r == 0 <==> !Permits(At(areas[u.mm], u.va), false, false))
      ensures u in old(ptes) ==> r == 1
      ensures -1 <= r <= 1 && (memory && old(Room()) ==> r != -1)
      ensures data.Keys == old(data).Keys && Brought(old(ptes), ptes, u, r == 1)
    {
      r, b := 1, 0;
      if u !in ptes {
        r := HandleMmFault(u, false, false, false, memory);
        if r != 1 {
          return;
        }
      }
      assert EntryOk(ptes, pages, u);
      b := data[ptes[u].frame][off];
    }

    // ------------------------------------------------------------------ unmapping and exit

    /** task_free_user_page_mapped */
    method FreeMapped(u: User)
      requires Frames(ptes, pages, data)
      modifies this`ptes, this`pages
      ensures Frames(ptes, pages, data) && ptes == old(ptes) - {u}
    {
      if u !in ptes {
        assert ptes == ptes - {u};
        return;
      }
      var f := ptes[u].frame;
      Unshare(ptes, pages, data, u);
      ghost var pages0 := pages;
      ptes := ptes - {u};
      PageRemoveRmap(u, f);
      FreePage(f);
      assert pages == pages0[f := Lose(pages0[f], u)];
    }

    /** zap_page_range */
    method ZapPageRange(m: nat, lo: nat, hi: nat)
      requires Frames(ptes, pages, data) && lo % PAGE == 0 && hi % PAGE == 0
      modifies this`ptes, this`pages
      ensures Frames(ptes, pages, data) && Zapped(old(ptes), ptes, m, lo, hi)
    {
      if hi <= lo {
        return;
      }
      var va := lo;
      while va < hi
        invariant lo <= va <= hi && va % PAGE == 0 && Frames(ptes, pages, data) && Zapped(old(ptes), ptes, m, lo, va)
      {
        ghost var ptes0 := ptes;
        FreeMapped(User(m, va));
        forall v | v in ptes0
          ensures v.va % PAGE == 0
        {
          Aligned(old(ptes), old(pages), old(data), v);
        }
        va := va + PAGE;
      }
    }

    /** do_munmap: the process sees nothing in the range any more; nobody else's view changes. */
    method Munmap(m: nat, addr: U32, length: U32) returns (r: int)
      requires Valid() && m in areas
      modifies this`ptes, this`areas, this`pages
      ensures Valid() && r == if RangeOk(addr, length) then 0 else -1
      ensures r == -1 ==> areas == old(areas) && ptes == old(ptes) && pages == old(pages)
      ensures r == 0 ==> m in areas && areas == old(areas)[m := areas[m]]
      ensures r == 0 ==> Unmaps(old(areas)[m], areas[m], addr, addr + AlignUp(length))
      ensures r == 0 ==> Zapped(old(ptes), ptes, m, addr, addr + AlignUp(length))
      ensures r == 0 ==>
                forall v :: View(v) == if v.mm == m && addr <= v.va < addr + AlignUp(length) then None else old(View(v))
    {
      if !RangeOk(addr, length) {
        return -1;
      }
      var end := addr + AlignUp(length);
      ghost var areas0 := areas;
      Unmapping(areas[m], addr, end);
      areas := areas[m := MergeAll(Cut(areas[m], addr, end))];
      ZapPageRange(m, addr, end);
      Backed(old(ptes), old(pages), data);
      CutViews(old(ptes), ptes, areas0, data, m, addr, end);
      return 0;
    }

    /** do_mmap of a free range: the process sees zeros there; nobody else's view changes. */
    method MapRange(m: nat, lo: U32, hi: U32, flags: nat, anon: nat)
      requires Valid() && m in areas && lo < hi <= TASK_SIZE && lo % PAGE == 0 && hi % PAGE == 0
      requires RangeFree(areas[m], lo, hi)
      modifies this`areas
      ensures Valid() && m in areas && areas == old(areas)[m := areas[m]]
      ensures Maps(old(areas)[m], areas[m], lo, hi, flags, anon)
      ensures forall v: User | v.va % PAGE == 0 ::
                View(v) == if v.mm == m && lo <= v.va < hi then Some(ZeroPage()) else old(View(v))
    {
      AddViews(ptes, areas, data, m, Area(lo, hi, flags, anon));
      Mapping(areas[m], Area(lo, hi, flags, anon));
      areas := areas[m := Add(areas[m], Area(lo, hi, flags, anon))];
    }

    /** mm_destroy: the address space is gone, and with it every entry; nobody else's view changes. */
    method Exit(m: nat)
      requires Valid() && m in areas
      modifies this`ptes, this`areas, this`pages
      ensures Valid() && areas == old(areas) - {m}
      ensures forall v :: View(v) == if v.mm == m then None else old(View(v))
      ensures forall u :: u in ptes <==> u in old(ptes) && u.mm != m
    {
      var i := 0;
      while i < |areas[m]|
        invariant areas == old(areas) && 0 <= i <= |areas[m]| && Frames(ptes, pages, data)
        invariant Gone(old(ptes), ptes, areas, m, i)
      {
        ghost var ptes0 := ptes;
        ZapPageRange(m, areas[m][i].start, areas[m][i].end);
        MoreGone(old(ptes), ptes0, ptes, areas, m, i);
        i := i + 1;
      }
      AllGone(old(ptes), ptes, areas, m);
      areas := areas - {m};
      forall v
        ensures View(v) == if v.mm == m then None else old(View(v))
      {
        if v in ptes {
          assert EntryOk(ptes, pages, v);
        }
      }
    }

    // ------------------------------------------------------------------ fork

    /** The body of dup_mm's loop: shares one page of `src` with `c`, write-protected on both sides. */
    method SharePage(src: nat, c: nat, va: nat)
      requires Valid() && src in areas && c in areas && src != c && areas[c] == areas[src]
      requires User(c, va) !in ptes && SharableFrom(ptes, pages, src, va)
      modifies this`ptes, this`pages
      ensures Valid() && Shared(old(ptes), ptes, src, c, va) && SharableFrom(ptes, pages, src, va + PAGE)
    {
      var u, w := User(src, va), User(c, va);
      if u !in ptes {
        LaterSharable(ptes, pages, src, va, va + PAGE);
        return;
      }
      Sharing(ptes, areas, pages, data, src, c, va);
      StillSharable(ptes, pages, data, src, c, va);
      ShareEntry(u, w);
    }

    method ShareEntry(u: User, w: User)
      requires u in ptes && u != w && ptes[u].frame in pages
      modifies this`ptes, this`pages
      ensures var f := old(ptes)[u].frame;
              var e := Pte(f, false, old(ptes)[u].rw || old(ptes)[u].cow);
              ptes == old(ptes)[u := e][w := e] && pages == old(pages)[f := Gain(old(pages)[f], w)]
    {
      var f := ptes[u].frame;
      if ptes[u].rw {
        ptes := ptes[u := Pte(f, false, true)];
      }
      assert ptes == old(ptes)[u := Pte(f, false, old(ptes)[u].rw || old(ptes)[u].cow)];
      ptes := ptes[w := Pte(f, false, ptes[u].cow)];
      PageAddAnonRmap(w, f);
      GetPage(f);
    }

    method ShareArea(src: nat, c: nat, start: nat, end: nat, ghost P: Ptes)
      requires Valid() && src in areas && c in areas && areas[c] == areas[src]
      requires start <= end && start % PAGE == 0 && end % PAGE == 0
      requires Forking(P, ptes, src, c, start) && SharableFrom(ptes, pages, src, start)
      modifies this`ptes, this`pages
      ensures Valid() && Forking(P, ptes, src, c, end) && SharableFrom(ptes, pages, src, end)
    {
      var va := start;
      while va < end
        invariant Valid() && va % PAGE == 0 && start <= va <= end
        invariant Forking(P, ptes, src, c, va) && SharableFrom(ptes, pages, src, va)
      {
        ghost var Q := ptes;
        SharePage(src, c, va);
        MoreForked(P, Q, ptes, pages, data, src, c, va);
        va := va + PAGE;
      }
    }

    /** The loop of dup_mm over the areas. */
    method ShareAll(src: nat, c: nat, ghost P: Ptes)
      requires Valid() && src in areas && c in areas && areas[c] == areas[src]
      requires Forking(P, ptes, src, c, 0) && SharableFrom(ptes, pages, src, 0)
      modifies this`ptes, this`pages
      ensures var A := areas[src]; Valid() && Forking(P, ptes, src, c, if A == [] then 0 else A[|A| - 1].end)
    {
      var i := 0;
      while i < |areas[src]|
        invariant 0 <= i <= |areas[src]| && Valid()
        invariant Forking(P, ptes, src, c, if i == 0 then 0 else areas[src][i - 1].end)
        invariant SharableFrom(ptes, pages, src, if i == 0 then 0 else areas[src][i - 1].end)
      {
        SkipGap(P, ptes, areas, pages, src, c, i);
        SortedAt(areas[src], i, i);
        ShareArea(src, c, areas[src][i].start, areas[src][i].end, P);
        i := i + 1;
      }
    }

    /** dup_mm: the child sees what the parent sees; nobody's view changes. */
    method Fork(src: nat, memory: bool) returns (c: nat)
      requires Valid() && src in areas && SharableFrom(ptes, pages, src, 0)
      modifies this`ptes, this`areas, this`pages
      ensures Valid()
      ensures if c == 0 then ptes == old(ptes) && areas == old(areas) && pages == old(pages)
              else c !in old(areas) && areas == old(areas)[c := old(areas)[src]]
      ensures forall v: User | v.mm != c || c == 0 :: View(v) == old(View(v))
      ensures memory ==> c != 0
      ensures c != 0 ==> forall va :: View(User(c, va)) == old(View(User(src, va)))
      ensures c != 0 ==> forall v: User :: v in ptes <==> (if v.mm == c then User(src, v.va) else v) in old(ptes)
    {
      c := 0;
      var give :| memory ==> give;
      if !give {
        return;
      }
      FreshExists(areas.Keys);
      c :| c != 0 && c !in areas;
      ghost var P := ptes;
      Newborn(ptes, areas, pages, data, src, c);
      areas := areas[c := areas[src]];
      ShareAll(src, c, P);
      AllForked(P, ptes, old(areas), data, src, c);
    }
  }

  lemma {:induction false} ByteAfter(areas: Areas, P: Ptes, D: Data, Q: Ptes, E: Data, R: Ptes, F: Data, u: User,
                                     off: nat, b: bv8)
    requires off < PAGE && SameSight(areas, P, D, Q, E) && OneByte(areas, Q, E, R, F, u, off, b)
    ensures OneByte(areas, P, D, R, F, u, off, b)
  {
    assert See(Q, areas, E, u) == See(P, areas, D, u);
  }

  /** A private copy: the old frame loses the user and the new one gains it. */
  lemma {:induction false} Copied(ptes: Ptes, areas: Areas, pages: Pages, data: Data, u: User, g: nat)
    requires Inv(ptes, areas, pages, data) && u in ptes && ptes[u].cow && g in pages && pages[g].refcount == 0
    ensures var f := ptes[u].frame;
            && f in pages && f != g && pages[f].refcount > 0
            && Inv(ptes[u := Pte(g, true, false)], areas, pages[f := Lose(pages[f], u)][g := Gain(pages[g], u)],
                 data[g := data[f]])
            && SameSight(areas, ptes, data, ptes[u := Pte(g, true, false)], data[g := data[f]])
  {
    var f := ptes[u].frame;
    assert EntryOk(ptes, pages, u);
    assert FrameOk(ptes, pages, g) && FrameOk(ptes, pages, f);
    var e := Pte(g, true, false);
    Unshare(ptes, pages, data, u);
    var ptes1, pages1 := ptes - {u}, pages[f := Lose(pages[f], u)];
    Share(ptes1, pages1, data, u, e);
    assert ptes1[u := e] == ptes[u := e];
    Unmapped(ptes, pages, data, g);
    Rewrite(ptes[u := e], pages1[g := Gain(pages[g], u)], data, g, data[f]);
    assert Held(areas, u);
  }

  /** A new page of zeros where the process had none. */
  lemma {:induction false} Zeroed(ptes: Ptes, areas: Areas, pages: Pages, data: Data, u: User, f: nat)
    requires Inv(ptes, areas, pages, data) && u !in ptes && u.va % PAGE == 0 && f in pages && pages[f].refcount == 0
    requires Held(areas, u)
    ensures var e := Pte(f, Writable(areas, u), false);
            && Inv(ptes[u := e], areas, pages[f := Gain(pages[f], u)], data[f := ZeroPage()])
            && SameSight(areas, ptes, data, ptes[u := e], data[f := ZeroPage()])
  {
    assert FrameOk(ptes, pages, f);
    var e := Pte(f, Writable(areas, u), false);
    Share(ptes, pages, data, u, e);
    Unmapped(ptes, pages, data, f);
    Rewrite(ptes[u := e], pages[f := Gain(pages[f], u)], data, f, ZeroPage());
  }

  // ------------------------------------------------------------------ entries removed

  /** The entries of `m` in the range are gone; all others are as before. */
  ghost predicate Zapped(P: Ptes, Q: Ptes, m: nat, lo: nat, hi: nat) {
    && (forall v :: v in Q <==> v in P && !(v.mm == m && lo <= v.va < hi))
    && (forall v | v in Q :: Q[v] == P[v])
  }

  lemma {:induction false} Aligned(ptes: Ptes, pages: Pages, data: Data, u: User)
    requires Frames(ptes, pages, data)
    ensures u in ptes ==> u.va % PAGE == 0
  {
    if u in ptes {
      assert EntryOk(ptes, pages, u);
    }
  }

  lemma {:induction false} Backed(ptes: Ptes, pages: Pages, data: Data)
    requires Frames(ptes, pages, data)
    ensures forall u | u in ptes :: ptes[u].frame in data
  {
    forall u | u in ptes
      ensures ptes[u].frame in data
    {
      assert EntryOk(ptes, pages, u);
    }
  }

  lemma {:induction false} CutViews(P: Ptes, Q: Ptes, areas: Areas, data: Data, m: nat, lo: nat, hi: nat)
    requires (forall v | v in P :: P[v].frame in data) && Zapped(P, Q, m, lo, hi) && Perms(P, areas) && Shaped(areas)
    requires m in areas && lo < hi && lo % PAGE == 0 && hi % PAGE == 0
    ensures var areas' := areas[m := MergeAll(Cut(areas[m], lo, hi))];
            && Perms(Q, areas') && Shaped(areas')
            && forall v :: See(Q, areas', data, v) == if v.mm == m && lo <= v.va < hi then None
                 else See(P, areas, data, v)
  {
    var A := areas[m];
    var B := MergeAll(Cut(A, lo, hi));
    var areas' := areas[m := B];
    Unmapping(A, lo, hi);
    assert Shaped(areas');
    forall v
      ensures Held(areas', v) <==> Held(areas, v) && !(v.mm == m && lo <= v.va < hi)
      ensures Writable(areas', v) <==> Writable(areas, v) && !(v.mm == m && lo <= v.va < hi)
    {
      assert v.mm == m ==> At(B, v.va) == if lo <= v.va < hi then Hole else At(A, v.va);
    }
  }

  lemma {:induction false} AddViews(P: Ptes, areas: Areas, data: Data, m: nat, a: Area)
    requires Perms(P, areas) && Shaped(areas) && m in areas && a.start < a.end <= TASK_SIZE && a.start % PAGE == 0
    requires a.end % PAGE == 0
    requires RangeFree(areas[m], a.start, a.end)
    ensures var areas' := areas[m := Add(areas[m], a)];
            && Perms(P, areas') && Shaped(areas')
            && forall v: User | v.va % PAGE == 0 ::
                 See(P, areas', data, v) == if v.mm == m && a.start <= v.va < a.end then Some(ZeroPage())
                   else See(P, areas, data, v)
  {
    var A, B := areas[m], Add(areas[m], a);
    Mapping(A, a);
    forall v
      ensures Held(areas[m := B], v) <==> Held(areas, v) || (v.mm == m && a.start <= v.va < a.end)
      ensures v in P ==> (Writable(areas[m := B], v) <==> Writable(areas, v)) && !(v.mm == m && a.start <= v.va < a.end)
    {
      if v in P {
        assert Held(areas, v);
      }
      assert v.mm == m ==> At(B, v.va) == if a.start <= v.va < a.end then Mapped(a.flags, a.anon) else At(A, v.va);
    }
  }

  /** The entries of `m` in its first `i` areas are gone; all others are as before. */
  ghost predicate Gone(P: Ptes, Q: Ptes, areas: Areas, m: nat, i: nat)
    requires m in areas && i <= |areas[m]|
  {
    && (forall v | v in Q :: v in P && Q[v] == P[v])
    && (forall v | v in P && v.mm != m :: v in Q)
    && (forall v, j | v in Q && v.mm == m && 0 <= j < i :: !(areas[m][j].start <= v.va < areas[m][j].end))
  }

  lemma {:induction false} MoreGone(P: Ptes, Q: Ptes, R: Ptes, areas: Areas, m: nat, i: nat)
    requires m in areas && i < |areas[m]| && Gone(P, Q, areas, m, i)
    requires Zapped(Q, R, m, areas[m][i].start, areas[m][i].end)
    ensures Gone(P, R, areas, m, i + 1)
  {
  }

  lemma {:induction false} AllGone(P: Ptes, Q: Ptes, areas: Areas, m: nat)
    requires m in areas && Gone(P, Q, areas, m, |areas[m]|) && Perms(P, areas) && Shaped(areas)
    ensures (forall v | v in Q :: v.mm != m) && Perms(Q, areas - {m}) && Shaped(areas - {m})
  {
    forall v | v in Q
      ensures v.mm != m
    {
      assert Held(areas, v);
      if v.mm == m {
        var j := AtSome(areas[m], v.va);
      }
    }
    forall v | v in Q
      ensures Held(areas - {m}, v) && (Writable(areas - {m}, v) <==> Q[v].rw || Q[v].cow)
    {
      assert Held(areas, v);
    }
  }

  // ------------------------------------------------------------------ fork

  /** One page shared between parent and child: same frame, both without write permission. */
  ghost predicate Shared(P: Ptes, Q: Ptes, src: nat, c: nat, va: nat) {
    var u, w := User(src, va), User(c, va);
    && (forall v | v != w :: v in Q <==> v in P)
    && (forall v | v in P && v != w :: v in Q && Q[v].frame == P[v].frame)
    && (w in Q <==> u in P)
    && (u in P ==> u in Q && w in Q && Q[w].frame == P[u].frame && !Q[u].rw && !Q[w].rw)
  }

  lemma {:induction false} Sharing(ptes: Ptes, areas: Areas, pages: Pages, data: Data, src: nat, c: nat, va: nat)
    requires Inv(ptes, areas, pages, data) && src in areas && c in areas && src != c && areas[c] == areas[src]
    requires User(src, va) in ptes && User(c, va) !in ptes && Sharable(ptes, pages, User(src, va))
    ensures var u, w := User(src, va), User(c, va);
            var f := ptes[u].frame;
            var cow := ptes[u].rw || ptes[u].cow;
            && f in pages
            && Inv(ptes[u := Pte(f, false, cow)][w := Pte(f, false, cow)], areas, pages[f := Gain(pages[f], w)], data)
  {
    var u, w := User(src, va), User(c, va);
    var f := ptes[u].frame;
    var cow := ptes[u].rw || ptes[u].cow;
    assert EntryOk(ptes, pages, u);
    assert FrameOk(ptes, pages, f);
    assert Maps1(ptes, u, f);
    Reflag(ptes, pages, data, u, false, cow);
    var ptes1 := ptes[u := Pte(f, false, cow)];
    assert Frozen(ptes1, f) by {
      forall v | v in ptes1 && ptes1[v].frame == f
        ensures !ptes1[v].rw
      {
        assert EntryOk(ptes, pages, v);
        if v != u && ptes[v].rw {
          OnlyUser(pages[f], u, v);
        }
      }
    }
    Share(ptes1, pages, data, w, Pte(f, false, cow));
    assert Held(areas, u);
  }

  /** Sharing a page keeps the invariant exactly if the counts of its frame are not at their limit. */
  lemma {:induction false} SharingIff(ptes: Ptes, areas: Areas, pages: Pages, data: Data, src: nat, c: nat, va: nat)
    requires Inv(ptes, areas, pages, data) && src in areas && c in areas && src != c && areas[c] == areas[src]
    requires User(src, va) in ptes && User(c, va) !in ptes
    ensures var u, w := User(src, va), User(c, va);
            var f := ptes[u].frame;
            var e := Pte(f, false, ptes[u].rw || ptes[u].cow);
            && f in pages
            && (Inv(ptes[u := e][w := e], areas, pages[f := Gain(pages[f], w)], data) <==> Sharable(ptes, pages, u))
  {
    var u, w := User(src, va), User(c, va);
    var f := ptes[u].frame;
    var e := Pte(f, false, ptes[u].rw || ptes[u].cow);
    if Sharable(ptes, pages, u) {
      Sharing(ptes, areas, pages, data, src, c, va);
    } else {
      assert FrameOk(ptes, pages, f);
      assert !Maps1(ptes, w, f);
      AddUserIff(pages[f], w);
      assert Users(Gain(pages[f], w)) == Users(AddUser(pages[f], w));
      assert !FrameOk(ptes[u := e][w := e], pages[f := Gain(pages[f], w)], f);
    }
    assert EntryOk(ptes, pages, u);
  }

  lemma {:induction false} LaterSharable(ptes: Ptes, pages: Pages, m: nat, lo: nat, hi: nat)
    requires SharableFrom(ptes, pages, m, lo) && lo <= hi
    ensures SharableFrom(ptes, pages, m, hi)
  {
  }

  /** Sharing a page leaves those above it sharable: a frame is mapped at one address only. */
  lemma {:induction false} StillSharable(ptes: Ptes, pages: Pages, data: Data, src: nat, c: nat, va: nat)
    requires Frames(ptes, pages, data) && src != c && User(src, va) in ptes && SharableFrom(ptes, pages, src, va)
    ensures var u, w := User(src, va), User(c, va);
            var f := ptes[u].frame;
            var e := Pte(f, false, ptes[u].rw || ptes[u].cow);
            f in pages && SharableFrom(ptes[u := e][w := e], pages[f := Gain(pages[f], w)], src, va + PAGE)
  {
    var u, w := User(src, va), User(c, va);
    var f := ptes[u].frame;
    assert EntryOk(ptes, pages, u);
    assert FrameOk(ptes, pages, f);
    assert Maps1(ptes, u, f);
    forall v | v in ptes && v.mm == src && va + PAGE <= v.va
      ensures ptes[v].frame != f && Sharable(ptes, pages, v)
    {
      assert EntryOk(ptes, pages, v);
      assert FrameOk(ptes, pages, ptes[v].frame);
      assert Maps1(ptes, v, ptes[v].frame);
    }
  }

  /** With fewer than 65535 address spaces every page can be shared. */
  lemma {:induction false} FewForks(ptes: Ptes, areas: Areas, pages: Pages, data: Data, src: nat)
    requires Inv(ptes, areas, pages, data) && |areas| < 0xFFFF
    ensures SharableFrom(ptes, pages, src, 0)
  {
    forall u | u in ptes && ptes[u].frame in pages
      ensures Sharable(ptes, pages, u)
    {
      UsersBound(ptes, areas, pages, data, ptes[u].frame);
      assert FrameOk(ptes, pages, ptes[u].frame);
    }
  }

  lemma {:induction false} Newborn(ptes: Ptes, areas: Areas, pages: Pages, data: Data, src: nat, c: nat)
    requires Inv(ptes, areas, pages, data) && src in areas && c !in areas && c != 0
    ensures Inv(ptes, areas[c := areas[src]], pages, data) && Forking(ptes, ptes, src, c, 0)
  {
  }

  /** The pages of the parent below `b` are shared with the child, and no others. */
  ghost predicate Forking(P: Ptes, Q: Ptes, src: nat, c: nat, b: nat) {
    && src != c
    && (forall v: User | v.mm != c :: v in Q <==> v in P)
    && (forall v | v in P && v.mm != c :: v in Q && Q[v].frame == P[v].frame)
    && (forall v: User | v.mm == c :: v in Q <==> User(src, v.va) in P && v.va < b)
    && (forall v | v in Q && v.mm == c :: User(src, v.va) in P && Q[v].frame == P[User(src, v.va)].frame)
  }

  lemma {:induction false} MoreForked(P: Ptes, Q: Ptes, R: Ptes, pages: Pages, data: Data, src: nat, c: nat, va: nat)
    requires Forking(P, Q, src, c, va) && Shared(Q, R, src, c, va) && Frames(R, pages, data) && va % PAGE == 0
    ensures Forking(P, R, src, c, va + PAGE)
  {
    forall v | v in P && v.mm == src
      ensures v.va % PAGE == 0
    {
      assert v in Q && v in R;
      assert EntryOk(R, pages, v);
    }
    forall v: User | v.mm == c
      ensures v in R <==> User(src, v.va) in P && v.va < va + PAGE
      ensures v in R ==> User(src, v.va) in P && R[v].frame == P[User(src, v.va)].frame
    {
      var u := User(src, v.va);
      assert u.mm == src;
      assert u in P <==> u in Q;
      if v.va != va {
        assert v in R <==> v in Q;
      } else {
        assert v == User(c, va);
      }
    }
  }

  lemma {:induction false} SkipGap(P: Ptes, Q: Ptes, areas: Areas, pages: Pages, src: nat, c: nat, i: nat)
    requires src in areas && i < |areas[src]| && Perms(Q, areas) && Shaped(areas)
    requires Forking(P, Q, src, c, if i == 0 then 0 else areas[src][i - 1].end)
    requires SharableFrom(Q, pages, src, if i == 0 then 0 else areas[src][i - 1].end)
    ensures Forking(P, Q, src, c, areas[src][i].start) && SharableFrom(Q, pages, src, areas[src][i].start)
  {
    var A := areas[src];
    if i > 0 {
      SortedAt(A, i - 1, i);
    }
    LaterSharable(Q, pages, src, if i == 0 then 0 else A[i - 1].end, A[i].start);
    forall u | u in P && u.mm == src && u.va < A[i].start
      ensures i > 0 && u.va < A[i - 1].end
    {
      assert u in Q;
      assert Held(areas, u);
      if i == 0 || A[i - 1].end <= u.va {
        Between(A, i, u.va);
      }
    }
  }

  lemma {:induction false} AllForked(P: Ptes, Q: Ptes, areas: Areas, data: Data, src: nat, c: nat)
    requires src in areas && c !in areas && Perms(P, areas) && Shaped(areas)
    requires var A := areas[src]; Forking(P, Q, src, c, if A == [] then 0 else A[|A| - 1].end)
    ensures var areas' := areas[c := areas[src]];
            && (forall v: User | v.mm != c :: See(Q, areas', data, v) == See(P, areas, data, v))
            && (forall va :: See(Q, areas', data, User(c, va)) == See(P, areas, data, User(src, va)))
            && (forall v: User :: v in Q <==> (if v.mm == c then User(src, v.va) else v) in P)
  {
    var A := areas[src];
    forall va | User(src, va) in P
      ensures User(c, va) in Q
    {
      assert Held(areas, User(src, va));
      var k := AtSome(A, va);
      SortedAt(A, k, |A| - 1);
      SortedAt(A, |A| - 1, |A| - 1);
    }
  }
}
