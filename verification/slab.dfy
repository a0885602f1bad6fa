/** mm/slab.c: the slab allocator. */
module SlabAllocator {
  import opened Lists
  import opened Machine
  import opened SlabModel
  import opened SlabSteps

  const SLAB_MAX_PAGES: nat := 4096
  const SLAB_MAX_CACHE: nat := 9
  const CACHE_SIZES: seq<nat> := [8, 16, 32, 64, 128, 256, 512, 1024, 2048]

  /** The size rounded up to a multiple of 8, in 32-bit arithmetic, and to no less than a pointer. */
  function ObjectSize(size: nat): (r: nat)
    requires size < WORD
    ensures r >= 4 && (r % 8 == 0 || r == 4)
    ensures if size <= 0xFFFF_FFF8 then size <= r < size + 8 else r == 4
  {
    var sum := if size + 7 < WORD then size + 7 else size + 7 - WORD;
    if sum - sum % 8 < 4 then 4 else sum - sum % 8
  }

  /** The index of the built-in cache with the smallest objects that are large enough. */
  function ClassOf(size: nat): (c: nat)
    requires size <= 2048
    ensures c < SLAB_MAX_CACHE && size <= CACHE_SIZES[c] && (c > 0 ==> CACHE_SIZES[c - 1] < size)
    ensures forall i | 0 <= i < c :: CACHE_SIZES[i] < size
  {
    if size <= 8 then 0 else if size <= 16 then 1 else if size <= 32 then 2 else if size <= 64 then 3
    else if size <= 128 then 4 else if size <= 256 then 5 else if size <= 512 then 6 else if size <= 1024 then 7 else 8
  }

  class Allocator {
    var mem: Memory
    var slabs: Slabs
    var caches: seq<Cache>
    var pageMap: seq<Ref>
    var metaFree: seq<Ref>
    ghost var used: set<Ref>
    ghost var free: map<Ref, seq<Addr>>
    ghost var live: map<Addr, Ref>

    ghost function S(): State
      reads this
    {
      State(mem, slabs, caches, pageMap, used, free, live)
    }

    ghost predicate Valid()
      reads this
    {
      && Inv(S()) && |pageMap| <= SLAB_MAX_PAGES && |caches| >= SLAB_MAX_CACHE
      && (forall i | 0 <= i < SLAB_MAX_CACHE :: caches[i].size == CACHE_SIZES[i])
      && NoDup(metaFree) && forall r | r in metaFree :: r != 0 && r !in used && r in slabs
    }

    /** kmem_cache_init */
    constructor ()
      ensures Valid() && live == map[] && |metaFree| == 4096 && pageMap == [] && |caches| == 9
    {
      mem := map[];
      var pool := seq(SLAB_MAX_PAGES, i requires i >= 0 => i + 1);
      slabs := map r | r in pool :: Slab(0, 0, 0, 0, -1);
      metaFree := pool;
      caches := seq(SLAB_MAX_CACHE, i requires 0 <= i < SLAB_MAX_CACHE => Cache(CACHE_SIZES[i], []));
      pageMap, used, free, live := [], {}, map[], map[];
    }

    /** kmem_cache_create: one more cache; its objects are as large as asked for unless rounding up wraps */
    method KmemCacheCreate(size: nat) returns (c: nat)
      requires Valid() && size < WORD
      modifies this`caches
      ensures Valid() && c == |old(caches)| && caches == old(caches) + [Cache(ObjectSize(size), [])]
      ensures caches[c].size >= size <==> size <= 0xFFFF_FFF8
    {
      var aligned := ObjectSize(size);
      c := |caches|;
      ghost var st := S();
      MoreCaches(st, Cache(aligned, []));
      caches := caches + [Cache(aligned, [])];
    }

    /** slab_from_ptr: the slab in use whose page holds the address, NULL if there is none */
    method SlabFromPtr(p: Addr) returns (r: Ref)
      requires Valid()
      ensures r != 0 ==> r in used && r in slabs && slabs[r].vaddr == p / PAGE * PAGE
      ensures r == 0 ==> forall q | q in used && q in slabs :: slabs[q].vaddr != p / PAGE * PAGE
    {
      var base := p / PAGE * PAGE;
      var i := 0;
      while i < |pageMap|
        invariant 0 <= i <= |pageMap|
        invariant forall j | 0 <= j < i && pageMap[j] != 0 && pageMap[j] in slabs :: slabs[pageMap[j]].vaddr != base
      {
        var s := pageMap[i];
        if s != 0 {
          assert UsedOk(S(), s);
          if slabs[s].vaddr == base {
            return s;
          }
        }
        i := i + 1;
      }
      forall q | q in used && q in slabs
        ensures slabs[q].vaddr != base
      {
        assert UsedOk(S(), q);
      }
      return 0;
    }

    /** What may be freed: a live object, or an address outside the pages of slabs, NULL among them. */
    ghost predicate MayFree(p: Addr)
      reads this
    {
      p in live || forall q | q in used && q in slabs :: slabs[q].vaddr != p / PAGE * PAGE
    }

    /** kmem_cache_free: a live object of the cache stops being live and the rest stays; other pointers are ignored. */
    method KmemCacheFree(c: nat, p: Addr)
      requires Valid() && MayFree(p)
      modifies this`mem, this`slabs, this`free, this`live
      ensures Valid()
      ensures p in old(live) ==> old(live)[p] in old(slabs)
      ensures live == if p in old(live) && old(slabs)[old(live)[p]].cache == c then old(live) - {p} else old(live)
      ensures SameOutside(old(mem), mem, p, p + 1) && (live == old(live) ==> mem == old(mem))
      ensures forall o | o in live :: o in old(live) && Holds(old(S()), mem, o)
    {
      ghost var st := S();
      OthersApart(st, p, mem);
      if p in live {
        OwnPage(st, p);
      }
      if p == 0 {
        NullIsDead(st);
        return;
      }
      var s := SlabFromPtr(p);
      if s == 0 || slabs[s].cache != c {
        if p in live {
          SameSlab(st, p, s);
        }
        return;
      }
      SameSlab(st, p, s);
      PutBack(s, p);
      OthersApart(st, p, mem);
    }

    /** The object becomes the first free one of its slab. */
    method PutBack(s: Ref, p: Addr)
      requires Valid() && p in live && live[p] == s
      modifies this`mem, this`slabs, this`free, this`live
      ensures Valid() && live == old(live) - {p} && SameOutside(old(mem), mem, p, p + 1)
    {
      ghost var st := S();
      PutOk(st, p);
      mem := mem[p := slabs[s].freelist];
      slabs := slabs[s := slabs[s].(freelist := p)];
      if slabs[s].inuse > 0 {
        slabs := slabs[s := slabs[s].(inuse := slabs[s].inuse - 1)];
      }
      free := free[s := [p] + free[s]];
      live := live - {p};
      assert S() == Put(st, p);
    }

    /** What alloc_page may return: no page, or one that no slab has. */
    ghost predicate PageOk(page: Addr)
      reads this
    {
      page % PAGE == 0 && (page != 0 ==> forall q | q in used && q in slabs :: slabs[q].vaddr != page)
    }

    /** No slab of the cache has a free object. */
    ghost predicate Full(c: nat)
      requires c < |caches|
      reads this
    {
      forall r | r in caches[c].slabs && r in slabs :: slabs[r].freelist == 0
    }

    /** No new slab can be made: no record, no entry in the page map or no page, or objects larger than a page. */
    ghost predicate Stuck(c: nat, page: Addr)
      requires c < |caches|
      reads this
    {
      metaFree == [] || |pageMap| >= SLAB_MAX_PAGES || page == 0 || caches[c].size > PAGE
    }

    /** What making a new slab uses up: a record, even if there is then no page, and an entry in the page map. */
    twostate predicate Spent(making: bool, page: Addr)
      reads this
    {
      && metaFree == (if making && old(metaFree) != [] then old(metaFree)[1..] else old(metaFree))
      && |pageMap| == |old(pageMap)| +
           if making && old(metaFree) != [] && |old(pageMap)| < SLAB_MAX_PAGES && page != 0 then 1 else 0
    }

    /** kmem_cache_alloc: an object of the cache that was not live, NULL exactly if every slab is full and no new one
        can be made; nothing else changes. `page` is the page that alloc_page has to offer. */
    method KmemCacheAlloc(c: nat, page: Addr) returns (o: Addr)
      requires Valid() && c < |caches| && PageOk(page)
      modifies this
      ensures Valid() && |caches| == |old(caches)|
      ensures forall i | 0 <= i < |caches| :: caches[i].size == old(caches)[i].size
      ensures if o == 0 then live == old(live)
              else o !in old(live) && o in live && live == old(live)[o := live[o]] && live[o] in slabs
                     && slabs[live[o]].cache == c
      ensures o == 0 <==> old(Full(c) && Stuck(c, page))
      ensures Spent(old(Full(c)), page)
      ensures SameOutside(old(mem), mem, page, page + PAGE) && forall p | p in old(live) :: Holds(old(S()), mem, p)
    {
      ghost var st := S();
      var s := FirstWithRoom(c);
      if s == 0 {
        s := NewSlab(c, page);
        if s == 0 {
          AllApart(st, page, mem);
          return 0;
        }
      }
      o := TakeFrom(s);
      AllApart(st, page, mem);
    }

    /** The first free object of the slab, NULL if there is none. */
    method TakeFrom(s: Ref) returns (o: Addr)
      requires Valid() && s in used && s in slabs
      modifies this`slabs, this`free, this`live
      ensures Valid() && s in slabs && slabs[s].cache == old(slabs)[s].cache
      ensures if o == 0 then live == old(live) else o !in old(live) && live == old(live)[o := s]
      ensures o == old(slabs)[s].freelist
    {
      o := slabs[s].freelist;
      if o == 0 {
        return 0;
      }
      ghost var st := S();
      assert UsedOk(st, s);
      TakeOk(st, s);
      slabs := slabs[s := slabs[s].(freelist := mem[o], inuse := slabs[s].inuse + 1)];
      free := free[s := free[s][1..]];
      live := live[o := s];
      assert S() == Take(st, s);
    }

    /** The first slab of the cache that has a free object. */
    method FirstWithRoom(c: nat) returns (s: Ref)
      requires Valid() && c < |caches|
      ensures s != 0 ==> s in used && s in slabs && slabs[s].cache == c && slabs[s].freelist != 0
      ensures s != 0 <==> !Full(c)
    {
      assert CacheOk(S(), c);
      var i := 0;
      while i < |caches[c].slabs|
        invariant 0 <= i <= |caches[c].slabs|
        invariant forall k | 0 <= k < i && caches[c].slabs[k] in slabs :: slabs[caches[c].slabs[k]].freelist == 0
      {
        s := caches[c].slabs[i];
        assert s in caches[c].slabs;
        assert UsedOk(S(), s);
        if slabs[s].freelist != 0 {
          return s;
        }
        i := i + 1;
      }
      return 0;
    }

    /** A slab with a new page, put at the front of the cache's list; its record is lost if there is no page. */
    method NewSlab(c: nat, page: Addr) returns (s: Ref)
      requires Valid() && c < |caches| && PageOk(page)
      modifies this`mem, this`slabs, this`caches, this`pageMap, this`metaFree, this`used, this`free
      ensures Valid() && |caches| == |old(caches)|
      ensures forall i | 0 <= i < |caches| :: caches[i].size == old(caches)[i].size
      ensures s != 0 ==>
                s in used && s in slabs && slabs[s].cache == c && (slabs[s].freelist == 0 <==> caches[c].size > PAGE)
      ensures s == 0 <==> old(metaFree == [] || |pageMap| >= SLAB_MAX_PAGES || page == 0)
      ensures Spent(true, page)
      ensures SameOutside(old(mem), mem, page, page + PAGE)
    {
      if metaFree == [] {
        return 0;
      }
      s := metaFree[0];
      ghost var st := S();
      Popped(st, metaFree, Slab(0, 0, 0, 0, c));
      metaFree := metaFree[1..];
      slabs := slabs[s := Slab(0, 0, 0, 0, c)];
      if |pageMap| >= SLAB_MAX_PAGES || page == 0 {
        return 0;
      }
      FillSlab(s, c, page);
    }

    /** slab_alloc_page and slab_init_objects: the page's objects, the last one first on the free list */
    method FillSlab(s: Ref, c: nat, v: Addr)
      requires Valid() && c < |caches| && s != 0 && s !in used && s in slabs && s !in metaFree
      requires |pageMap| < SLAB_MAX_PAGES
      requires v != 0 && v % PAGE == 0 && forall q | q in used && q in slabs :: slabs[q].vaddr != v
      modifies this`mem, this`slabs, this`caches, this`pageMap, this`used, this`free
      ensures Valid() && |caches| == |old(caches)|
      ensures forall i | 0 <= i < |caches| :: caches[i].size == old(caches)[i].size
      ensures s in used && s in slabs && slabs[s].cache == c && (slabs[s].freelist == 0 <==> caches[c].size > PAGE)
      ensures SameOutside(old(mem), mem, v, v + PAGE) && |pageMap| == |old(pageMap)| + 1
    {
      ghost var st := S();
      assert CacheOk(st, c);
      var size := caches[c].size;
      pageMap := pageMap + [s];
      var total := PAGE / size;
      var head := InitObjects(v, size, total);
      var slab := Slab(head, 0, total, v, c);
      Filled(st, s, slab, size, mem);
      slabs := slabs[s := slab];
      caches := caches[c := caches[c].(slabs := [s] + caches[c].slabs)];
      used, free := used + {s}, free[s := Pile(v, size, total)];
      assert S() == Enter(st, s, slab, Pile(v, size, total), mem);
    }

    /** The loop of slab_init_objects. */
    method InitObjects(base: Addr, size: nat, total: nat) returns (head: Addr)
      requires base != 0 && size > 0 && total == PAGE / size
      modifies this`mem
      ensures Chain(mem, head, Pile(base, size, total)) && (head == 0 <==> size > PAGE)
      ensures forall a | a in old(mem) && !(base <= a < base + PAGE) :: a in mem && mem[a] == old(mem)[a]
    {
      head := 0;
      SomeFit(size);
      var i, obj := 0, base;
      while i < total
        invariant 0 <= i <= total && obj == Obj(base, size, i) && Chain(mem, head, Pile(base, size, i))
        invariant forall a | a in old(mem) && !(base <= a < base + PAGE) :: a in mem && mem[a] == old(mem)[a]
      {
        InPage(base, size, obj);
        PileOk(base, size, i);
        ghost var mem0 := mem;
        mem := mem[obj := head];
        assert obj !in Objs(base, size, i) by {
          forall j: nat | j < i
            ensures Obj(base, size, j) != obj
          {
            ObjApart(base, size, j, i);
          }
        }
        ChainFrame(mem0, mem, head, Pile(base, size, i));
        head := obj;
        i, obj := i + 1, obj + size;
        assert Pile(base, size, i)[1..] == Pile(base, size, i - 1);
      }
    }

    /** kmalloc of at most 2048 bytes: an object at least that large, or NULL */
    method Kmalloc(size: nat, page: Addr) returns (o: Addr)
      requires Valid() && PageOk(page) && size <= 2048
      modifies this
      ensures Valid() && (size == 0 ==> o == 0)
      ensures if o == 0 then live == old(live)
              else o !in old(live) && o in live && live == old(live)[o := live[o]] && Serves(S(), live[o])
                     && SizeIn(S(), live[o]) == CACHE_SIZES[ClassOf(size)] >= size
      ensures o == 0 <==> size == 0 || old(Full(ClassOf(size)) && Stuck(ClassOf(size), page))
      ensures Spent(size != 0 && old(Full(ClassOf(size))), page)
      ensures SameOutside(old(mem), mem, page, page + PAGE) && forall p | p in old(live) :: Holds(old(S()), mem, p)
    {
      if size == 0 {
        AllApart(S(), page, mem);
        return 0;
      }
      var i := 0;
      while size > CACHE_SIZES[i]
        invariant 0 <= i <= ClassOf(size)
        decreases SLAB_MAX_CACHE - i
      {
        i := i + 1;
      }
      o := KmemCacheAlloc(i, page);
      if o != 0 {
        assert LiveAt(S(), o);
      }
    }

    /** kfree of NULL or of a live object of a slab */
    method Kfree(p: Addr)
      requires Valid() && (p == 0 || p in live)
      modifies this`mem, this`slabs, this`free, this`live
      ensures Valid() && live == old(live) - {p} && SameOutside(old(mem), mem, p, p + 1)
      ensures forall o | o in live :: o in old(live) && Holds(old(S()), mem, o)
    {
      if p == 0 {
        NullIsDead(S());
        OthersApart(S(), p, mem);
        return;
      }
      var s := SlabFromPtr(p);
      SameSlab(S(), p, s);
      OwnPage(S(), p);
      assert UsedOk(S(), live[p]);
      if s != 0 && slabs[s].cache >= 0 {
        KmemCacheFree(slabs[s].cache, p);
      }
    }

    /** A store by the owner of a live object, within the object. */
    method Scribble(o: Addr, a: Addr, v: Addr)
      requires Valid() && o in live && Serves(S(), live[o]) && o <= a && a + 4 <= o + SizeIn(S(), live[o])
      modifies this`mem
      ensures Valid() && mem == old(mem)[a := v]
    {
      ScribbleOk(S(), o, a, v);
      mem := mem[a := v];
    }

    /** Every slab of the cache has a live object. */
    ghost predicate Busy(c: nat)
      requires c < |caches|
      reads this
    {
      forall r | r in caches[c].slabs && r in slabs :: slabs[r].inuse != 0
    }

    /** Takes the slab at index `k` of the list of cache `i` apart and returns its page. */
    method Release(i: nat, k: nat) returns (page: Addr)
      requires Valid() && i < |caches| && k < |caches[i].slabs| && caches[i].slabs[k] in used
      requires caches[i].slabs[k] in slabs
      requires slabs[caches[i].slabs[k]].inuse == 0
      modifies this`slabs, this`caches, this`pageMap, this`metaFree, this`used
      ensures Valid() && |caches| == |old(caches)|
      ensures forall i | 0 <= i < |caches| :: caches[i].size == old(caches)[i].size
      ensures page != 0
      ensures forall o | o in live :: live[o] in slabs && slabs[live[o]].vaddr != page && o / PAGE * PAGE != page
      ensures Given(old(slabs), old(used), used, page)
      ensures |metaFree| == |old(metaFree)| + 1 && |pageMap| == |old(pageMap)|
    {
      var s := caches[i].slabs[k];
      ghost var st := S();
      assert UsedOk(st, s) && CacheOk(st, i);
      WithoutAt(caches[i].slabs, s, k);
      var j := 0;
      while pageMap[j] != s
        invariant 0 <= j < |pageMap| && s !in pageMap[..j]
        decreases |pageMap| - j
      {
        j := j + 1;
      }
      page := slabs[s].vaddr;
      DropOk(st, s, j);
      caches := caches[i := caches[i].(slabs := caches[i].slabs[..k] + caches[i].slabs[k + 1..])];
      pageMap := pageMap[j := 0];
      slabs := slabs[s := slabs[s].(vaddr := 0, cache := -1)];
      used := used - {s};
      AppendOk(metaFree, s);
      metaFree := [s] + metaFree;
      assert S() == Drop(st, s, j);
      forall o | o in live
        ensures live[o] in slabs && slabs[live[o]].vaddr != page && o / PAGE * PAGE != page
      {
        OwnPage(st, o);
      }
    }

    /** slab_reclaim_one: gives back the page of a slab of a built-in cache, one in which no object is live */
    method SlabReclaimOne() returns (page: Addr)
      requires Valid()
      modifies this`slabs, this`caches, this`pageMap, this`metaFree, this`used
      ensures Valid() && |caches| == |old(caches)|
      ensures forall i | 0 <= i < |caches| :: caches[i].size == old(caches)[i].size
      ensures page != 0 ==> Given(old(slabs), old(used), used, page)
      ensures page != 0 ==>
                forall o | o in live :: live[o] in slabs && slabs[live[o]].vaddr != page && o / PAGE * PAGE != page
      ensures page == 0 <==> forall i | 0 <= i < SLAB_MAX_CACHE :: old(Busy(i))
      ensures if page == 0 then unchanged(this)
              else |metaFree| == |old(metaFree)| + 1 && |pageMap| == |old(pageMap)|
    {
      var i := 0;
      while i < SLAB_MAX_CACHE
        invariant 0 <= i <= SLAB_MAX_CACHE && unchanged(this) && forall j | 0 <= j < i :: Busy(j)
      {
        assert CacheOk(S(), i);
        var k := 0;
        while k < |caches[i].slabs|
          invariant 0 <= k <= |caches[i].slabs| && unchanged(this)
          invariant forall j | 0 <= j < k && caches[i].slabs[j] in slabs :: slabs[caches[i].slabs[j]].inuse != 0
        {
          var s := caches[i].slabs[k];
          assert s in caches[i].slabs;
          assert UsedOk(S(), s);
          if slabs[s].inuse == 0 && slabs[s].vaddr != 0 {
            assert !old(Busy(i));
            page := Release(i, k);
            return;
          }
          k := k + 1;
        }
        i := i + 1;
      }
      return 0;
    }
  }

  /** The slab that had the page is no longer in use; all others are. */
  ghost predicate Given(slabs: Slabs, used: set<Ref>, used': set<Ref>, page: Addr) {
    exists r :: r in used && r in slabs && slabs[r].vaddr == page && used' == used - {r}
  }

  /** The page of a live object is the page of its slab. */
  lemma {:induction false} OwnPage(st: State, o: Addr)
    requires Inv(st) && o in st.live
    ensures st.live[o] in st.used && st.live[o] in st.slabs && st.slabs[st.live[o]].vaddr == o / PAGE * PAGE
  {
    assert LiveAt(st, o) && UsedOk(st, st.live[o]);
    InPage(st.slabs[st.live[o]].vaddr, SizeIn(st, st.live[o]), o);
  }

  lemma {:induction false} SameSlab(st: State, o: Addr, s: Ref)
    requires Inv(st) && o in st.live
    requires (s != 0 ==> s in st.used && s in st.slabs && st.slabs[s].vaddr == o / PAGE * PAGE)
    requires s == 0 ==> forall q | q in st.used && q in st.slabs :: st.slabs[q].vaddr != o / PAGE * PAGE
    ensures s == st.live[o]
  {
    OwnPage(st, o);
  }

  lemma {:induction false} MoreCaches(st: State, c: Cache)
    requires Inv(st) && c.size >= 4 && c.slabs == []
    ensures Inv(st.(caches := st.caches + [c]))
  {
    var t := st.(caches := st.caches + [c]);
    forall q {:trigger UsedOk(t, q)} | q in t.used
      ensures UsedOk(t, q)
    {
      assert UsedOk(st, q);
    }
    forall d {:trigger CacheOk(t, d)} | 0 <= d < |t.caches|
      ensures CacheOk(t, d)
    {
      if d < |st.caches| {
        assert CacheOk(st, d);
      }
    }
    forall p {:trigger LiveAt(t, p)} | p in t.live
      ensures LiveAt(t, p)
    {
      assert LiveAt(st, p);
    }
    forall q, p {:trigger Homed(t, q, p)} | q in t.used
      ensures Homed(t, q, p)
    {
      assert UsedOk(st, q) && Homed(st, q, p);
    }
  }

  /** Taking a record off the pool of unused ones. */
  lemma {:induction false} Popped(st: State, pool: seq<Ref>, s: Slab)
    requires Inv(st) && NoDup(pool) && pool != [] && forall r | r in pool :: r != 0 && r !in st.used && r in st.slabs
    ensures Inv(st.(slabs := st.slabs[pool[0] := s])) && pool[0] !in pool[1..] && NoDup(pool[1..]) && pool[0] != 0
    ensures pool[0] !in st.used
    ensures forall r | r in pool[1..] :: r in pool
  {
    var r := pool[0];
    var t := st.(slabs := st.slabs[r := s]);
    assert r in pool;
    forall q {:trigger UsedOk(t, q)} | q in t.used
      ensures UsedOk(t, q)
    {
      assert UsedOk(st, q);
    }
    forall d {:trigger CacheOk(t, d)} | 0 <= d < |t.caches|
      ensures CacheOk(t, d)
    {
      assert CacheOk(st, d);
    }
    forall p {:trigger LiveAt(t, p)} | p in t.live
      ensures LiveAt(t, p)
    {
      assert LiveAt(st, p);
    }
    forall q, p {:trigger Homed(t, q, p)} | q in t.used
      ensures Homed(t, q, p)
    {
      assert Homed(st, q, p);
    }
  }

  lemma {:induction false} Filled(st: State, r: Ref, s: Slab, size: nat, mem: Memory)
    requires Inv(st) && r != 0 && r !in st.used && 0 <= s.cache < |st.caches| && NewPage(st, s.vaddr, mem)
    requires size == st.caches[s.cache].size > 0 && s.total == PAGE / size && s.inuse == 0
    requires Chain(mem, s.freelist, Pile(s.vaddr, size, s.total))
    ensures Inv(Enter(st, r, s, Pile(s.vaddr, size, s.total), mem))
  {
    PileOk(s.vaddr, size, s.total);
    EnterOk(st, r, s, Pile(s.vaddr, size, s.total), mem);
  }

  lemma {:induction false} NullIsDead(st: State)
    requires Inv(st)
    ensures 0 !in st.live && st.live - {0} == st.live
  {
    forall o | o in st.live
      ensures o != 0
    {
      SomeLive(st, o);
    }
  }

  /** A page holds at least one object exactly if objects are no larger than a page. */
  lemma {:induction false} SomeFit(size: nat)
    requires size > 0
    ensures PAGE / size > 0 <==> size <= PAGE
  {
  }

  lemma {:induction false} AllApart(st: State, page: Addr, mem': Memory)
    requires Inv(st) && page % PAGE == 0 && SameOutside(st.mem, mem', page, page + PAGE)
    requires page != 0 ==> forall q | q in st.used && q in st.slabs :: st.slabs[q].vaddr != page
    ensures forall p | p in st.live :: Holds(st, mem', p)
  {
    forall p | p in st.live
      ensures Holds(st, mem', p)
    {
      PageApart(st, page, mem', p);
    }
  }

  lemma {:induction false} OthersApart(st: State, p: Addr, mem': Memory)
    requires Inv(st) && (mem' == st.mem || p in st.live) && SameOutside(st.mem, mem', p, p + 1)
    ensures forall o | o in st.live && (o != p || mem' == st.mem) :: Holds(st, mem', o)
  {
    forall o | o in st.live && (o != p || mem' == st.mem)
      ensures Holds(st, mem', o)
    {
      assert LiveAt(st, o);
      if o != p && p in st.live {
        WordApart(st, p, mem', o);
      }
    }
  }

  /** A request for almost 4 GiB that gets a cache for objects of 4 bytes. */
  method RoundingExample() returns (s: Allocator, c: nat)
    ensures s.Valid() && c < |s.caches| && s.caches[c].size == 4
  {
    s := new Allocator();
    c := s.KmemCacheCreate(0xFFFF_FFFF);
  }
}
