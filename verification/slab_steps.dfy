/** The steps of the slab allocator on values, each keeping the invariant. */
module SlabSteps {
  import opened Lists
  import opened Machine
  import opened SlabModel

  // ------------------------------------------------------------------ one object

  /** The first free object of the slab becomes live. */
  ghost function Take(st: State, r: Ref): State
    requires r in st.slabs && r in st.free && st.free[r] != [] && st.slabs[r].freelist in st.mem
  {
    var s := st.slabs[r];
    st.(slabs := st.slabs[r := s.(freelist := st.mem[s.freelist], inuse := s.inuse + 1)],
        free := st.free[r := st.free[r][1..]], live := st.live[s.freelist := r])
  }

  lemma {:induction false} TakeOk(st: State, r: Ref)
    requires Inv(st) && r in st.used && Serves(st, r) && st.slabs[r].freelist != 0
    ensures st.free[r] != [] && st.slabs[r].freelist == st.free[r][0] && st.slabs[r].freelist in st.mem
    ensures st.free[r][0] !in st.live && st.free[r][0] in ObjsIn(st, r) && Inv(Take(st, r))
  {
    assert UsedOk(st, r);
    var o, f := st.free[r][0], st.free[r];
    var t := Take(st, r);
    assert f == [o] + f[1..] && o in f && o !in f[1..];
    assert o !in st.live by {
      NotLive(st, r, o);
    }
    forall q {:trigger UsedOk(t, q)} | q in t.used
      ensures UsedOk(t, q)
    {
      assert UsedOk(st, q);
    }
    KeepCaches(st, t);
    forall p {:trigger LiveAt(t, p)} | p in t.live
      ensures LiveAt(t, p)
    {
      if p != o {
        assert LiveAt(st, p);
      }
    }
    forall q, p {:trigger Homed(t, q, p)} | q in t.used
      ensures Homed(t, q, p)
    {
      assert Homed(st, q, p);
    }
  }

  /** A free object is not live, in any slab. */
  lemma {:induction false} NotLive(st: State, r: Ref, o: Addr)
    requires Inv(st) && r in st.used && Serves(st, r) && o in st.free[r]
    ensures o !in st.live
  {
    assert UsedOk(st, r);
    forall p | p in st.live
      ensures p != o
    {
      assert LiveAt(st, p);
      if st.live[p] != r {
        Elsewhere(st, r, o, st.live[p], p);
      }
    }
  }

  /** Objects of different slabs are different. */
  lemma {:induction false} Elsewhere(st: State, r: Ref, o: Addr, q: Ref, p: Addr)
    requires Inv(st) && r in st.used && q in st.used && r != q && Serves(st, r) && Serves(st, q) && o in ObjsIn(st, r)
    requires p in ObjsIn(st, q)
    ensures o != p
  {
    assert UsedOk(st, r) && UsedOk(st, q);
    InPage(st.slabs[r].vaddr, SizeIn(st, r), o);
    InPage(st.slabs[q].vaddr, SizeIn(st, q), p);
    PagesApart(st.slabs[r].vaddr, st.slabs[q].vaddr);
  }

  /** Updates that leave the caches, the slabs in use and the cache of each slab alone keep the cache lists. */
  lemma {:induction false} KeepCaches(st: State, t: State)
    requires Inv(st) && t.caches == st.caches && t.used == st.used && t.pageMap == st.pageMap
    requires forall r | r in st.slabs ::
               r in t.slabs && t.slabs[r].cache == st.slabs[r].cache && t.slabs[r].vaddr == st.slabs[r].vaddr
    ensures forall c {:trigger CacheOk(t, c)} | 0 <= c < |t.caches| :: CacheOk(t, c)
    ensures Distinct(t.slabs, t.used)
  {
    forall c {:trigger CacheOk(t, c)} | 0 <= c < |t.caches|
      ensures CacheOk(t, c)
    {
      assert CacheOk(st, c);
    }
    forall r | r in st.used
      ensures r in st.slabs
    {
      assert UsedOk(st, r);
    }
  }

  /** A live object goes to the front of the free list. */
  ghost function Put(st: State, o: Addr): State
    requires o in st.live && st.live[o] in st.slabs && st.live[o] in st.free && st.slabs[st.live[o]].inuse > 0
  {
    var r := st.live[o];
    var s := st.slabs[r];
    st.(mem := st.mem[o := s.freelist], slabs := st.slabs[r := s.(freelist := o, inuse := s.inuse - 1)],
        free := st.free[r := [o] + st.free[r]], live := st.live - {o})
  }

  lemma {:induction false} PutOk(st: State, o: Addr)
    requires Inv(st) && o in st.live
    ensures var r := st.live[o]; r in st.used && Serves(st, r) && st.slabs[r].inuse > 0 && Inv(Put(st, o))
  {
    var r := st.live[o];
    assert LiveAt(st, o);
    assert UsedOk(st, r);
    SomeLive(st, o);
    var t := Put(st, o);
    AppendOk(st.free[r], o);
    forall q {:trigger UsedOk(t, q)} | q in t.used
      ensures UsedOk(t, q)
    {
      assert UsedOk(st, q);
      PutChain(st, o, q);
    }
    KeepCaches(st, t);
    forall p {:trigger LiveAt(t, p)} | p in t.live
      ensures LiveAt(t, p)
    {
      assert LiveAt(st, p);
    }
    forall q, p {:trigger Homed(t, q, p)} | q in t.used
      ensures Homed(t, q, p)
    {
      assert Homed(st, q, p);
    }
  }

  lemma {:induction false} SomeLive(st: State, o: Addr)
    requires Inv(st) && o in st.live
    ensures st.live[o] in st.slabs && st.slabs[st.live[o]].inuse > 0 && o != 0
  {
    assert LiveAt(st, o);
    var r := st.live[o];
    InuseCounts(st, r);
    assert o in LiveIn(st, r);
    assert UsedOk(st, r);
    InPage(st.slabs[r].vaddr, SizeIn(st, r), o);
  }

  lemma {:induction false} PutChain(st: State, o: Addr, q: Ref)
    requires Inv(st) && o in st.live && q in st.used && Serves(st, q)
    ensures var m := st.mem[o := if st.live[o] in st.slabs then st.slabs[st.live[o]].freelist else 0];
            Chain(m, st.slabs[q].freelist, st.free[q])
  {
    assert LiveAt(st, o) && UsedOk(st, q);
    assert o !in st.free[q] by {
      forall p | p in st.free[q]
        ensures p != o
      {
        NotLive(st, q, p);
      }
    }
    ChainFrame(st.mem, st.mem[o := st.slabs[st.live[o]].freelist], st.slabs[q].freelist, st.free[q]);
  }

  // ------------------------------------------------------------------ stores by the owner of an object

  /** A word stored inside a live object is not the link of a free one. */
  lemma {:induction false} ScribbleOk(st: State, o: Addr, a: Addr, v: Addr)
    requires Inv(st) && o in st.live && Serves(st, st.live[o]) && o <= a && a + 4 <= o + SizeIn(st, st.live[o])
    ensures Inv(st.(mem := st.mem[a := v]))
  {
    var t := st.(mem := st.mem[a := v]);
    assert LiveAt(st, o);
    forall q {:trigger UsedOk(t, q)} | q in t.used
      ensures UsedOk(t, q)
    {
      assert UsedOk(st, q);
      forall p | p in st.free[q]
        ensures p != a
      {
        NotLive(st, q, p);
        ObjectsApart(st, st.live[o], o, q, p);
      }
      ChainFrame(st.mem, t.mem, st.slabs[q].freelist, st.free[q]);
    }
    KeepCaches(st, t);
    forall p {:trigger LiveAt(t, p)} | p in t.live
      ensures LiveAt(t, p)
    {
      assert LiveAt(st, p);
    }
    forall q, p {:trigger Homed(t, q, p)} | q in t.used
      ensures Homed(t, q, p)
    {
      assert Homed(st, q, p);
    }
  }

  // ------------------------------------------------------------------ one slab

  /** The page of a new slab: no slab in use has it, and outside it memory is as before. */
  ghost predicate NewPage(st: State, v: Addr, mem: Memory) {
    && v != 0 && v % PAGE == 0 && (forall q | q in st.used && q in st.slabs :: st.slabs[q].vaddr != v)
    && (forall a | a in st.mem && !(v <= a < v + PAGE) :: a in mem && mem[a] == st.mem[a])
  }

  /** A slab with a page full of free objects goes to the front of its cache's list. */
  ghost function Enter(st: State, r: Ref, s: Slab, f: seq<Addr>, mem: Memory): State
    requires 0 <= s.cache < |st.caches|
  {
    var c := st.caches[s.cache];
    st.(mem := mem, slabs := st.slabs[r := s], caches := st.caches[s.cache := c.(slabs := [r] + c.slabs)],
        pageMap := st.pageMap + [r], used := st.used + {r}, free := st.free[r := f])
  }

  ghost predicate CanEnter(st: State, r: Ref, s: Slab, f: seq<Addr>, mem: Memory) {
    && r != 0 && r !in st.used && 0 <= s.cache < |st.caches| && NewPage(st, s.vaddr, mem)
    && SlabOk(mem, s, f, st.caches[s.cache].size) && forall o | o in Objs(s.vaddr, st.caches[s.cache].size, s.total) ::
         o in f
  }

  lemma {:induction false} EnterOk(st: State, r: Ref, s: Slab, f: seq<Addr>, mem: Memory)
    requires Inv(st) && CanEnter(st, r, s, f, mem)
    ensures Inv(Enter(st, r, s, f, mem))
  {
    var t := Enter(st, r, s, f, mem);
    forall q {:trigger UsedOk(t, q)} | q in t.used
      ensures UsedOk(t, q)
    {
      if q == r {
        assert t.pageMap[|st.pageMap|] == r && t.caches[s.cache].slabs[0] == r;
      } else {
        EnterUsed(st, r, s, f, mem, q);
      }
    }
    forall c {:trigger CacheOk(t, c)} | 0 <= c < |t.caches|
      ensures CacheOk(t, c)
    {
      EnterCache(st, r, s, f, mem, c);
    }
    forall p {:trigger LiveAt(t, p)} | p in t.live
      ensures LiveAt(t, p)
    {
      assert LiveAt(st, p);
    }
    forall q, p {:trigger Homed(t, q, p)} | q in t.used
      ensures Homed(t, q, p)
    {
      if q != r {
        assert UsedOk(st, q) && Homed(st, q, p);
      }
    }
    forall q | q in st.used
      ensures q in st.slabs
    {
      assert UsedOk(st, q);
    }
  }

  lemma {:induction false} EnterUsed(st: State, r: Ref, s: Slab, f: seq<Addr>, mem: Memory, q: Ref)
    requires Inv(st) && CanEnter(st, r, s, f, mem) && q in st.used
    ensures UsedOk(Enter(st, r, s, f, mem), q)
  {
    assert UsedOk(st, q);
    forall p | p in st.free[q]
      ensures !(s.vaddr <= p < s.vaddr + PAGE)
    {
      InPage(st.slabs[q].vaddr, SizeIn(st, q), p);
      PagesApart(st.slabs[q].vaddr, s.vaddr);
    }
    ChainFrame(st.mem, mem, st.slabs[q].freelist, st.free[q]);
  }

  lemma {:induction false} EnterCache(st: State, r: Ref, s: Slab, f: seq<Addr>, mem: Memory, c: nat)
    requires Inv(st) && CanEnter(st, r, s, f, mem) && c < |st.caches|
    ensures CacheOk(Enter(st, r, s, f, mem), c)
  {
    assert CacheOk(st, c);
    AppendOk(st.caches[c].slabs, r);
  }

  /** A slab without live objects leaves its cache; its entry in the page map becomes NULL. */
  ghost function Drop(st: State, r: Ref, j: nat): State
    requires Serves(st, r) && j < |st.pageMap|
  {
    var c := st.slabs[r].cache;
    st.(slabs := st.slabs[r := st.slabs[r].(vaddr := 0, cache := -1)],
        caches := st.caches[c := st.caches[c].(slabs := Without(st.caches[c].slabs, r))],
        pageMap := st.pageMap[j := 0], used := st.used - {r})
  }

  lemma {:induction false} DropOk(st: State, r: Ref, j: nat)
    requires Inv(st) && r in st.used && Serves(st, r) && st.slabs[r].inuse == 0 && j < |st.pageMap|
    requires st.pageMap[j] == r
    ensures Inv(Drop(st, r, j)) && forall o | o in st.live :: st.live[o] != r
  {
    var t := Drop(st, r, j);
    assert UsedOk(st, r);
    NoneLive(st, r);
    assert CacheOk(st, st.slabs[r].cache);
    WithoutOk(st.caches[st.slabs[r].cache].slabs, r);
    forall q {:trigger UsedOk(t, q)} | q in t.used
      ensures UsedOk(t, q)
    {
      assert UsedOk(st, q);
      assert q in t.pageMap by {
        var i :| 0 <= i < |st.pageMap| && st.pageMap[i] == q;
        assert t.pageMap[i] == q;
      }
    }
    forall c {:trigger CacheOk(t, c)} | 0 <= c < |t.caches|
      ensures CacheOk(t, c)
    {
      assert CacheOk(st, c);
    }
    forall p {:trigger LiveAt(t, p)} | p in t.live
      ensures LiveAt(t, p)
    {
      assert LiveAt(st, p);
    }
    forall q, p {:trigger Homed(t, q, p)} | q in t.used
      ensures Homed(t, q, p)
    {
      assert Homed(st, q, p);
    }
  }

  lemma {:induction false} NoneLive(st: State, r: Ref)
    requires Inv(st) && r in st.used && r in st.slabs && st.slabs[r].inuse == 0
    ensures forall o | o in st.live :: st.live[o] != r
  {
    InuseCounts(st, r);
    forall o | o in st.live
      ensures st.live[o] != r
    {
      assert o !in LiveIn(st, r);
    }
  }

  // ------------------------------------------------------------------ the objects of a new page

  /** The free list that slab_init_objects builds: the last object first. */
  ghost function Pile(base: Addr, size: nat, n: nat): seq<Addr> {
    if n == 0 then [] else [Obj(base, size, n - 1)] + Pile(base, size, n - 1)
  }

  lemma {:induction false} PileOk(base: Addr, size: nat, n: nat)
    requires size > 0
    ensures NoDup(Pile(base, size, n)) && |Pile(base, size, n)| == n
    ensures forall o :: o in Pile(base, size, n) <==> o in Objs(base, size, n)
  {
    if n > 0 {
      PileOk(base, size, n - 1);
      var o, f := Obj(base, size, n - 1), Pile(base, size, n - 1);
      assert o !in Objs(base, size, n - 1) by {
        forall i: nat | i < n - 1
          ensures Obj(base, size, i) != o
        {
          ObjApart(base, size, i, n - 1);
        }
      }
      AppendOk(f, o);
      assert Objs(base, size, n) == Objs(base, size, n - 1) + {o};
    }
  }
}
