/** Descriptors, chains and rings of a virtqueue. */
module VringModel {
  import opened Lists

  // ------------------------------------------------------------------ who has a descriptor

  /** Each descriptor is on the free list, in hand while a chain is built or taken apart, or in a chain.
      `owner` says which: -1, -2, or the head of the chain. */
  datatype Parts = Parts(owner: seq<int>, free: seq<nat>, work: seq<nat>, chains: map<nat, seq<nat>>)

  const FREE: int := -1
  const WORK: int := -2

  ghost predicate Placed(p: Parts, d: nat) {
    && (d in p.free <==> d < |p.owner| && p.owner[d] == FREE)
    && (d in p.work <==> d < |p.owner| && p.owner[d] == WORK)
    && (d < |p.owner| && p.owner[d] != FREE && p.owner[d] != WORK ==> p.owner[d] >= 0 && p.owner[d] in p.chains)
  }

  ghost predicate InChain(p: Parts, h: nat, d: nat)
    requires h in p.chains
  {
    d in p.chains[h] <==> d < |p.owner| && p.owner[d] == h
  }

  ghost predicate ChainShape(p: Parts, h: nat)
    requires h in p.chains
  {
    NoDup(p.chains[h]) && p.chains[h] != [] && p.chains[h][0] == h
  }

  /** Every descriptor is in exactly one place. */
  ghost predicate Partition(p: Parts) {
    && NoDup(p.free) && NoDup(p.work)
    && (forall d: nat {:trigger Placed(p, d)} :: Placed(p, d))
    && (forall h {:trigger ChainShape(p, h)} | h in p.chains :: ChainShape(p, h))
    && (forall h, d: nat {:trigger InChain(p, h, d)} | h in p.chains :: InChain(p, h, d))
  }

  /** vq_alloc_desc */
  ghost function Alloc(p: Parts): Parts
    requires p.free != [] && p.free[0] < |p.owner|
  {
    var d := p.free[0];
    p.(owner := p.owner[d := WORK], free := p.free[1..], work := p.work + [d])
  }

  lemma {:induction false} AllocOk(p: Parts)
    requires Partition(p) && p.free != []
    ensures p.free[0] < |p.owner| && p.free[0] !in p.work && Partition(Alloc(p))
  {
    var d, rest := p.free[0], p.free[1..];
    assert p.free == [d] + rest && d in p.free && d !in rest;
    assert Placed(p, d);
    AppendOk(p.work, d);
    var q := Alloc(p);
    forall e: nat {:trigger Placed(q, e)}
      ensures Placed(q, e)
    {
      assert Placed(p, e);
    }
    SameChains(p, q);
  }

  /** vq_free_desc of the first descriptor in hand */
  ghost function Release(p: Parts): Parts
    requires p.work != [] && p.work[0] < |p.owner|
  {
    var d := p.work[0];
    p.(owner := p.owner[d := FREE], free := [d] + p.free, work := p.work[1..])
  }

  lemma {:induction false} ReleaseOk(p: Parts)
    requires Partition(p) && p.work != []
    ensures p.work[0] < |p.owner| && p.work[0] !in p.free && Partition(Release(p))
  {
    var d, rest := p.work[0], p.work[1..];
    assert p.work == [d] + rest && d in p.work && d !in rest;
    assert Placed(p, d);
    AppendOk(p.free, d);
    var q := Release(p);
    forall e: nat {:trigger Placed(q, e)}
      ensures Placed(q, e)
    {
      assert Placed(p, e);
    }
    SameChains(p, q);
  }

  lemma {:induction false} SameChains(p: Parts, q: Parts)
    requires Partition(p) && q.chains == p.chains && |q.owner| == |p.owner|
    requires forall d | 0 <= d < |p.owner| :: q.owner[d] == p.owner[d] || (q.owner[d] < 0 && p.owner[d] < 0)
    ensures forall h {:trigger ChainShape(q, h)} | h in q.chains :: ChainShape(q, h)
    ensures forall h, d: nat {:trigger InChain(q, h, d)} | h in q.chains :: InChain(q, h, d)
  {
    forall h {:trigger ChainShape(q, h)} | h in q.chains
      ensures ChainShape(q, h)
    {
      assert ChainShape(p, h);
    }
    forall h, d: nat {:trigger InChain(q, h, d)} | h in q.chains
      ensures InChain(q, h, d)
    {
      assert InChain(p, h, d);
    }
  }

  /** The owners once the descriptors `c` belong to `to`. */
  ghost function Assigned(owner: seq<int>, c: seq<nat>, to: int): (r: seq<int>)
    ensures |r| == |owner|
  {
    seq(|owner|, d requires 0 <= d < |owner| => if d in c then to else owner[d])
  }

  /** The descriptors in hand become a chain. */
  ghost function Seal(p: Parts): Parts
    requires p.work != []
  {
    var h := p.work[0];
    p.(owner := Assigned(p.owner, p.work, h), work := [], chains := p.chains[h := p.work])
  }

  lemma {:induction false} SealOk(p: Parts)
    requires Partition(p) && p.work != []
    ensures p.work[0] !in p.chains && Partition(Seal(p))
  {
    var h := p.work[0];
    assert h in p.work;
    assert Placed(p, h);
    forall k | k in p.chains
      ensures k != h
    {
      assert ChainShape(p, k) && InChain(p, k, k);
      assert k in p.chains[k];
    }
    var q := Seal(p);
    forall e: nat {:trigger Placed(q, e)}
      ensures Placed(q, e)
    {
      assert Placed(p, e);
    }
    forall k {:trigger ChainShape(q, k)} | k in q.chains
      ensures ChainShape(q, k)
    {
      if k != h {
        assert ChainShape(p, k);
      }
    }
    forall k, d: nat {:trigger InChain(q, k, d)} | k in q.chains
      ensures InChain(q, k, d)
    {
      assert Placed(p, d);
      if k != h {
        assert InChain(p, k, d);
      }
    }
  }

  /** A chain is taken in hand. */
  ghost function Open(p: Parts, h: nat): Parts
    requires h in p.chains
  {
    p.(owner := Assigned(p.owner, p.chains[h], WORK), work := p.chains[h], chains := p.chains - {h})
  }

  lemma {:induction false} OpenOk(p: Parts, h: nat)
    requires Partition(p) && p.work == [] && h in p.chains
    ensures Partition(Open(p, h))
  {
    var q := Open(p, h);
    assert ChainShape(p, h);
    forall e: nat {:trigger Placed(q, e)}
      ensures Placed(q, e)
    {
      assert Placed(p, e) && InChain(p, h, e);
    }
    forall k {:trigger ChainShape(q, k)} | k in q.chains
      ensures ChainShape(q, k)
    {
      assert ChainShape(p, k);
    }
    forall k, d: nat {:trigger InChain(q, k, d)} | k in q.chains
      ensures InChain(q, k, d)
    {
      assert InChain(p, k, d) && InChain(p, h, d);
    }
  }

  // ------------------------------------------------------------------ how many chains there can be

  lemma {:induction false} Below(s: set<nat>, n: nat)
    requires forall x | x in s :: x < n
    ensures |s| <= n
  {
    if n == 0 {
      assert s == {};
    } else {
      Below(s - {n - 1}, n - 1);
      if n - 1 in s {
        assert s == (s - {n - 1}) + {n - 1};
      } else {
        assert s == s - {n - 1};
      }
    }
  }

  /** The free descriptors and the heads of the chains are different descriptors. */
  lemma {:induction false} ChainsBound(p: Parts)
    requires Partition(p)
    ensures |p.free| + |p.chains| <= |p.owner|
  {
    var f := set d | d in p.free;
    var heads := p.chains.Keys;
    SizeOf(p.free, f);
    forall h | h in heads
      ensures h < |p.owner| && h !in f
    {
      assert ChainShape(p, h) && InChain(p, h, h);
      assert h in p.chains[h];
      assert Placed(p, h);
    }
    forall d | d in f
      ensures d < |p.owner|
    {
      assert Placed(p, d);
    }
    Below(f + heads, |p.owner|);
    assert |f + heads| == |f| + |heads|;
  }

  // ------------------------------------------------------------------ ring slots

  const WRAP: nat := 0x1_0000

  lemma {:induction false} ModAdd(s: nat, k: nat, n: nat)
    requires n > 0
    ensures (k * n + s) % n == s % n
  {
    if k > 0 {
      ModAdd(s, k - 1, n);
      assert k * n + s == ((k - 1) * n + s) + n;
      ModStep((k - 1) * n + s, n);
    }
  }

  lemma {:induction false} ModStep(x: nat, n: nat)
    requires n > 0
    ensures (x + n) % n == x % n
  {
    var q, r := x / n, x % n;
    assert x + n == n * (q + 1) + r;
    ModIs(x + n, q + 1, r, n);
  }

  lemma {:induction false} ModIs(x: nat, q: nat, r: nat, n: nat)
    requires n > 0 && r < n && x == n * q + r
    ensures x % n == r
  {
    var q', r' := x / n, x % n;
    assert x == n * q' + r';
    if r' > r {
      assert r' - r == n * (q - q');
      NoMultiple(r' - r, q - q', n);
    } else if r' < r {
      assert r - r' == n * (q' - q);
      NoMultiple(r - r', q' - q, n);
    }
  }

  /** The slot that the 16-bit index of a count stands for. */
  function Slot(t: nat, n: nat): nat
    requires n > 0
  {
    t % WRAP % n
  }

  /** The entries of two counts share a slot. */
  ghost predicate Clash(t: nat, i: nat, n: nat)
    requires n > 0
  {
    Slot(t, n) == Slot(t + i, n)
  }

  /** `n` entries in a row, from any count on, have different slots: none is overwritten while it waits. */
  ghost predicate NoReuse(n: nat)
    requires n > 0
  {
    forall t: nat, i: nat {:trigger Clash(t, i, n)} | 0 < i < n :: !Clash(t, i, n)
  }

  lemma {:induction false} NoClash(t: nat, i: nat, n: nat)
    requires 0 < i < n && WRAP % n == 0
    ensures !Clash(t, i, n)
  {
    SlotOf(t, n);
    SlotOf(t + i, n);
    SlotsApart(t, 0, i, n);
  }

  /** The entries at the last multiple of `n` before the wrap of the index and at the wrap. */
  lemma {:induction false} Collision(n: nat) returns (t: nat, i: nat)
    requires n > 0 && WRAP % n != 0
    ensures 0 < i < n && Clash(t, i, n)
  {
    var q := WRAP / n;
    i := WRAP % n;
    t := WRAP - i;
    assert t == q * n;
    ModAdd(0, q, n);
    assert t % WRAP == t;
    assert Slot(t, n) == 0;
    assert (t + i) % WRAP == 0;
    ModAdd(0, 0, n);
  }

  /** No slot is reused early if and only if the ring size divides 65536. */
  lemma {:induction false} NoReuseIff(n: nat)
    requires n > 0
    ensures NoReuse(n) <==> WRAP % n == 0
  {
    if WRAP % n == 0 {
      forall t: nat, i: nat {:trigger Clash(t, i, n)} | 0 < i < n
        ensures !Clash(t, i, n)
      {
        NoClash(t, i, n);
      }
    } else {
      var t, i := Collision(n);
    }
  }

  predicate SameSlot(t: nat, n: nat)
    requires n > 0
  {
    t % WRAP % n == t % n
  }

  lemma {:induction false} SlotOf(t: nat, n: nat)
    requires n > 0 && WRAP % n == 0
    ensures SameSlot(t, n)
  {
    var m, q, s := WRAP / n, t / WRAP, t % WRAP;
    assert WRAP == m * n;
    assert t == q * (m * n) + s;
    assert q * (m * n) == (q * m) * n;
    ModAdd(s, q * m, n);
  }

  /** Slots of different positions less than a ring apart are different. */
  lemma {:induction false} SlotsApart(base: nat, i: nat, j: nat, n: nat)
    requires i < j < i + n
    ensures (base + i) % n != (base + j) % n
  {
    var x, y := base + i, base + j;
    if x % n == y % n {
      assert x == n * (x / n) + x % n && y == n * (y / n) + y % n;
      assert y - x == n * (y / n - x / n);
      NoMultiple(y - x, y / n - x / n, n);
    }
  }

  lemma {:induction false} NoMultiple(d: int, k: int, n: nat)
    requires 0 < d < n
    ensures d != n * k
  {
  }

  /** The ring holds `q`, the oldest entry in the slot of `base`. */
  ghost predicate RingOk<T>(ring: seq<T>, n: nat, base: nat, q: seq<T>) {
    n > 0 && |ring| == n && |q| <= n && forall k {:trigger InSlot(ring, n, base, q, k)} | 0 <= k < |q| ::
      InSlot(ring, n, base, q, k)
  }

  ghost predicate InSlot<T>(ring: seq<T>, n: nat, base: nat, q: seq<T>, k: nat)
    requires n > 0 && |ring| == n && k < |q|
  {
    ring[(base + k) % n] == q[k]
  }

  /** A new entry goes into a slot that no waiting entry has. */
  lemma {:induction false} RingPush<T>(ring: seq<T>, n: nat, base: nat, q: seq<T>, x: T)
    requires RingOk(ring, n, base, q) && |q| < n
    ensures RingOk(ring[(base + |q|) % n := x], n, base, q + [x])
  {
    var ring' := ring[(base + |q|) % n := x];
    forall k {:trigger InSlot(ring', n, base, q + [x], k)} | 0 <= k < |q + [x]|
      ensures InSlot(ring', n, base, q + [x], k)
    {
      if k < |q| {
        SlotsApart(base, k, |q|, n);
        assert InSlot(ring, n, base, q, k);
      }
    }
  }

  lemma {:induction false} RingPop<T>(ring: seq<T>, n: nat, base: nat, q: seq<T>)
    requires RingOk(ring, n, base, q) && q != []
    ensures ring[base % n] == q[0] && RingOk(ring, n, base + 1, q[1..])
  {
    assert InSlot(ring, n, base, q, 0);
    forall k {:trigger InSlot(ring, n, base + 1, q[1..], k)} | 0 <= k < |q[1..]|
      ensures InSlot(ring, n, base + 1, q[1..], k)
    {
      assert InSlot(ring, n, base, q, k + 1);
      assert base + 1 + k == base + (k + 1);
    }
  }
}
