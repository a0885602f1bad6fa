/** Slabs: pages cut into objects of one size, with the free objects threaded through their own memory. */
module SlabModel {
  import opened Lists
  import opened Machine

  type Ref = nat
  type Addr = nat
  type Memory = map<Addr, Addr>

  /** `cache` is the index of the cache the slab serves, -1 for none. */
  datatype Slab = Slab(freelist: Addr, inuse: nat, total: nat, vaddr: Addr, cache: int)

  /** `slabs` is the cache's list of slabs, first to last. */
  datatype Cache = Cache(size: nat, slabs: seq<Ref>)

  type Slabs = map<Ref, Slab>

  // ------------------------------------------------------------------ the objects of a page

  /** The address of the object at index `i`. */
  function Obj(base: Addr, size: nat, i: nat): Addr {
    if i == 0 then base else Obj(base, size, i - 1) + size
  }

  ghost function Objs(base: Addr, size: nat, n: nat): set<Addr> {
    set i: nat | i < n :: Obj(base, size, i)
  }

  lemma {:induction false} ObjApart(base: Addr, size: nat, i: nat, j: nat)
    requires i < j
    ensures Obj(base, size, i) + size <= Obj(base, size, j)
    decreases j
  {
    if i < j - 1 {
      ObjApart(base, size, i, j - 1);
    }
  }

  lemma {:induction false} ObjIs(base: Addr, size: nat, i: nat)
    ensures Obj(base, size, i) == base + i * size
  {
    if i > 0 {
      ObjIs(base, size, i - 1);
      assert (i - 1) * size + size == i * size;
    }
  }

  /** All objects lie within the page. */
  lemma {:induction false} InPage(base: Addr, size: nat, o: Addr)
    requires size > 0 && o in Objs(base, size, PAGE / size)
    ensures base <= o && o + size <= base + PAGE
  {
    var i: nat :| i < PAGE / size && o == Obj(base, size, i);
    ObjIs(base, size, i);
    ObjApart(base, size, i, PAGE / size);
    ObjIs(base, size, PAGE / size);
    Whole(size);
    assert i * size >= 0;
  }

  lemma {:induction false} Whole(size: nat)
    requires size > 0
    ensures PAGE / size * size <= PAGE
  {
  }

  lemma {:induction false} Apart(base: Addr, size: nat, n: nat, o: Addr, q: Addr)
    requires o in Objs(base, size, n) && q in Objs(base, size, n) && o != q
    ensures o + size <= q || q + size <= o
  {
    var i: nat :| i < n && o == Obj(base, size, i);
    var j: nat :| j < n && q == Obj(base, size, j);
    if i < j {
      ObjApart(base, size, i, j);
    } else {
      ObjApart(base, size, j, i);
    }
  }

  /** There are as many objects as indices. */
  lemma {:induction false} ObjsCount(base: Addr, size: nat, n: nat)
    requires size > 0
    ensures |Objs(base, size, n)| == n
  {
    if n > 0 {
      ObjsCount(base, size, n - 1);
      var s := Objs(base, size, n - 1);
      forall i: nat | i < n - 1
        ensures Obj(base, size, i) != Obj(base, size, n - 1)
      {
        ObjApart(base, size, i, n - 1);
      }
      assert Objs(base, size, n) == s + {Obj(base, size, n - 1)};
    }
  }

  // ------------------------------------------------------------------ free lists

  /** Following the first word of each free object from `head` visits the objects `f`. */
  ghost predicate Chain(mem: Memory, head: Addr, f: seq<Addr>)
    decreases |f|
  {
    if f == [] then head == 0 else head == f[0] && head != 0 && head in mem && Chain(mem, mem[head], f[1..])
  }

  lemma {:induction false} ChainFrame(mem: Memory, mem': Memory, head: Addr, f: seq<Addr>)
    requires Chain(mem, head, f) && forall a | a in f && a in mem :: a in mem' && mem'[a] == mem[a]
    ensures Chain(mem', head, f)
    decreases |f|
  {
    if f != [] {
      assert f[0] in f;
      ChainFrame(mem, mem', mem[head], f[1..]);
    }
  }

  // ------------------------------------------------------------------ the invariant

  /** `pageMap` is slab_map, 0 where a slab was reclaimed. `used` are the slabs that have a page, `free` their
      free objects, and `live` takes each allocated object to its slab. */
  datatype State = State(mem: Memory, slabs: Slabs, caches: seq<Cache>, pageMap: seq<Ref>,
                         used: set<Ref>, free: map<Ref, seq<Addr>>, live: map<Addr, Ref>)

  /** The slab serves an existing cache. */
  ghost predicate Serves(st: State, r: Ref) {
    r in st.slabs && r in st.free && 0 <= st.slabs[r].cache < |st.caches|
  }

  ghost function SizeIn(st: State, r: Ref): nat
    requires Serves(st, r)
  {
    st.caches[st.slabs[r].cache].size
  }

  /** The objects of a slab. */
  ghost function ObjsIn(st: State, r: Ref): set<Addr>
    requires Serves(st, r)
  {
    Objs(st.slabs[r].vaddr, SizeIn(st, r), st.slabs[r].total)
  }

  /** One slab of objects of the given size: the free ones are on its list, `inuse` counts the others. */
  ghost predicate SlabOk(mem: Memory, s: Slab, f: seq<Addr>, size: nat) {
    && s.vaddr != 0 && s.vaddr % PAGE == 0 && size > 0 && s.total == PAGE / size && s.inuse + |f| == s.total
    && Chain(mem, s.freelist, f) && NoDup(f) && forall o | o in f :: o in Objs(s.vaddr, size, s.total)
  }

  /** A slab in use is on the list of its cache and in the page map. */
  ghost predicate UsedOk(st: State, r: Ref) {
    && Serves(st, r) && r != 0 && r in st.caches[st.slabs[r].cache].slabs && r in st.pageMap
    && SlabOk(st.mem, st.slabs[r], st.free[r], SizeIn(st, r))
  }

  /** The list of a cache: no slab twice, and only slabs that serve it. */
  ghost predicate CacheOk(st: State, c: nat)
    requires c < |st.caches|
  {
    && st.caches[c].size >= 4 && NoDup(st.caches[c].slabs)
    && forall r | r in st.caches[c].slabs :: r in st.used && r in st.slabs && st.slabs[r].cache == c
  }

  ghost predicate MapOk(used: set<Ref>, pageMap: seq<Ref>) {
    && (forall i | 0 <= i < |pageMap| && pageMap[i] != 0 :: pageMap[i] in used)
    && (forall i, j | 0 <= i < j < |pageMap| && pageMap[i] != 0 :: pageMap[i] != pageMap[j])
  }

  /** No two slabs share a page. */
  ghost predicate Distinct(slabs: Slabs, used: set<Ref>) {
    forall r, q | r in used && q in used && r in slabs && q in slabs && r != q :: slabs[r].vaddr != slabs[q].vaddr
  }

  /** A live object belongs to its slab and is not free. */
  ghost predicate LiveAt(st: State, o: Addr)
    requires o in st.live
  {
    var r := st.live[o];
    r in st.used && Serves(st, r) && o in ObjsIn(st, r) && o !in st.free[r]
  }

  /** An object of a slab is free or live. */
  ghost predicate Homed(st: State, r: Ref, o: Addr) {
    Serves(st, r) && o in ObjsIn(st, r) ==> o in st.free[r] || (o in st.live && st.live[o] == r)
  }

  ghost predicate Inv(st: State) {
    && (forall r {:trigger UsedOk(st, r)} | r in st.used :: UsedOk(st, r))
    && (forall c {:trigger CacheOk(st, c)} | 0 <= c < |st.caches| :: CacheOk(st, c))
    && MapOk(st.used, st.pageMap) && Distinct(st.slabs, st.used)
    && (forall o {:trigger LiveAt(st, o)} | o in st.live :: LiveAt(st, o))
    && (forall r, o {:trigger Homed(st, r, o)} | r in st.used :: Homed(st, r, o))
  }

  // ------------------------------------------------------------------ consequences

  /** Two objects of slabs in use, live or free, do not overlap. */
  lemma {:induction false} ObjectsApart(st: State, r: Ref, o: Addr, q: Ref, p: Addr)
    requires Inv(st) && r in st.used && q in st.used && Serves(st, r) && Serves(st, q) && o in ObjsIn(st, r)
    requires p in ObjsIn(st, q) && o != p
    ensures o + SizeIn(st, r) <= p || p + SizeIn(st, q) <= o
  {
    assert UsedOk(st, r) && UsedOk(st, q);
    InPage(st.slabs[r].vaddr, SizeIn(st, r), o);
    InPage(st.slabs[q].vaddr, SizeIn(st, q), p);
    if r == q {
      Apart(st.slabs[r].vaddr, SizeIn(st, r), st.slabs[r].total, o, p);
    } else {
      PagesApart(st.slabs[r].vaddr, st.slabs[q].vaddr);
    }
  }

  lemma {:induction false} PagesApart(a: Addr, b: Addr)
    requires a % PAGE == 0 && b % PAGE == 0 && a != b
    ensures a + PAGE <= b || b + PAGE <= a
  {
  }

  /** No two live objects overlap. */
  lemma {:induction false} LiveDisjoint(st: State, o: Addr, p: Addr)
    requires Inv(st) && o in st.live && p in st.live && o != p
    ensures Serves(st, st.live[o]) && Serves(st, st.live[p])
    ensures o + SizeIn(st, st.live[o]) <= p || p + SizeIn(st, st.live[p]) <= o
  {
    assert LiveAt(st, o) && LiveAt(st, p);
    ObjectsApart(st, st.live[o], o, st.live[p], p);
  }

  lemma {:induction false} LiveOrFree(st: State, r: Ref, o: Addr)
    requires Inv(st) && r in st.used && Serves(st, r)
    ensures o in st.live && st.live[o] == r <==> o in ObjsIn(st, r) && o !in st.free[r]
    ensures o in st.free[r] ==> o in ObjsIn(st, r)
  {
    assert UsedOk(st, r);
    assert Homed(st, r, o);
    if o in st.live {
      assert LiveAt(st, o);
    }
  }

  ghost function LiveIn(st: State, r: Ref): set<Addr> {
    set o | o in st.live && st.live[o] == r
  }

  /** `inuse` is the number of live objects of the slab. */
  lemma {:induction false} InuseCounts(st: State, r: Ref)
    requires Inv(st) && r in st.used
    ensures r in st.slabs && st.slabs[r].inuse == |LiveIn(st, r)|
  {
    assert UsedOk(st, r);
    var alive := LiveIn(st, r);
    forall o
      ensures o in alive <==> o in ObjsIn(st, r) && o !in st.free[r]
      ensures o in st.free[r] ==> o in ObjsIn(st, r)
    {
      LiveOrFree(st, r, o);
    }
    ObjsCount(st.slabs[r].vaddr, SizeIn(st, r), st.slabs[r].total);
    CountRest(ObjsIn(st, r), st.free[r], alive);
  }

  lemma {:induction false} CountRest(all: set<Addr>, f: seq<Addr>, rest: set<Addr>)
    requires NoDup(f) && (forall o :: o in rest <==> o in all && o !in f) && forall o | o in f :: o in all
    ensures |all| == |f| + |rest|
  {
    var s := set o | o in f;
    SizeOf(f, s);
    assert all == rest + s;
  }

  // ------------------------------------------------------------------ what live objects hold

  /** Memory outside the range is as it was. */
  ghost predicate SameOutside(mem: Memory, mem': Memory, lo: Addr, hi: Addr) {
    forall a | a in mem && !(lo <= a < hi) :: a in mem' && mem'[a] == mem[a]
  }

  /** The words of a live object are as they were. */
  ghost predicate Holds(st: State, mem': Memory, o: Addr)
    requires o in st.live
  {
    && Serves(st, st.live[o])
    && forall a | a in st.mem && o <= a < o + SizeIn(st, st.live[o]) :: a in mem' && mem'[a] == st.mem[a]
  }

  /** A change within a page that no slab has leaves every live object alone. */
  lemma {:induction false} PageApart(st: State, page: Addr, mem': Memory, o: Addr)
    requires Inv(st) && o in st.live && page % PAGE == 0 && SameOutside(st.mem, mem', page, page + PAGE)
    requires page != 0 ==> forall q | q in st.used && q in st.slabs :: st.slabs[q].vaddr != page
    ensures Holds(st, mem', o)
  {
    var r := st.live[o];
    assert LiveAt(st, o);
    assert UsedOk(st, r);
    InPage(st.slabs[r].vaddr, SizeIn(st, r), o);
    PagesApart(st.slabs[r].vaddr, page);
  }

  /** A change of the first word of one live object leaves every other one alone. */
  lemma {:induction false} WordApart(st: State, p: Addr, mem': Memory, o: Addr)
    requires Inv(st) && o in st.live && p in st.live && o != p && SameOutside(st.mem, mem', p, p + 1)
    ensures Holds(st, mem', o)
  {
    assert LiveAt(st, o) && LiveAt(st, p);
    assert UsedOk(st, st.live[p]);
    LiveDisjoint(st, o, p);
  }
}
