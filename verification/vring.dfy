/** drivers/virtio/virtio_ring.c: the driver's side of a virtqueue, and the device it talks to. */
module Vring {
  import opened Lists
  import opened VringModel

  const VQ_DESC_CHAIN_END: nat := 0xFFFF
  const VRING_DESC_F_NEXT: nat := 1
  const VRING_DESC_F_WRITE: nat := 2

  datatype Buf = Buf(addr: nat, len: nat, write: bool)
  datatype Desc = Desc(addr: nat, len: nat, flags: nat, next: nat)
  datatype Elem = Elem(id: nat, len: nat)

  /** How far a chain has come: offered, taken by the device, completed by the device, seen by the driver. */
  datatype Stage = Posted | Taken | Used | Seen

  // ------------------------------------------------------------------ the descriptor table

  /** Following desc_next from `head` visits the free descriptors `f`. */
  ghost predicate FreeRep(next: seq<nat>, head: nat, f: seq<nat>)
    decreases |f|
  {
    if f == [] then head == VQ_DESC_CHAIN_END else head == f[0] && head < |next| && FreeRep(next, next[head], f[1..])
  }

  lemma {:induction false} FreeFrame(next: seq<nat>, next': seq<nat>, head: nat, f: seq<nat>)
    requires FreeRep(next, head, f) && |next'| == |next| && forall d | 0 <= d < |next| && d in f :: next'[d] == next[d]
    ensures FreeRep(next', head, f)
    decreases |f|
  {
    if f != [] {
      assert f[0] in f;
      FreeFrame(next, next', next[head], f[1..]);
    }
  }

  /** The descriptor of buffer `k` of the chain `c`: its buffer, the WRITE flag as asked, NEXT except on the last. */
  ghost predicate LinkOk(desc: seq<Desc>, c: seq<nat>, bufs: seq<Buf>, k: nat)
    requires k < |c| == |bufs|
  {
    && c[k] < |desc|
    && desc[c[k]] == Desc(bufs[k].addr, bufs[k].len,
                          (if bufs[k].write then VRING_DESC_F_WRITE else 0)
                            + (if k + 1 < |c| then VRING_DESC_F_NEXT else 0),
                          if k + 1 < |c| then c[k + 1] else 0)
  }

  ghost predicate ChainOk(desc: seq<Desc>, c: seq<nat>, bufs: seq<Buf>) {
    |c| == |bufs| && forall k {:trigger LinkOk(desc, c, bufs, k)} | 0 <= k < |c| :: LinkOk(desc, c, bufs, k)
  }

  lemma {:induction false} ChainFrame(desc: seq<Desc>, desc': seq<Desc>, c: seq<nat>, bufs: seq<Buf>)
    requires ChainOk(desc, c, bufs) && |desc'| == |desc| && forall d | 0 <= d < |desc| && d in c :: desc'[d] == desc[d]
    ensures ChainOk(desc', c, bufs)
  {
    forall k {:trigger LinkOk(desc', c, bufs, k)} | 0 <= k < |c|
      ensures LinkOk(desc', c, bufs, k)
    {
      assert LinkOk(desc, c, bufs, k);
      assert c[k] in c;
    }
  }

  /** The descriptor table after one more buffer of a chain under construction. */
  function Extended(desc: seq<Desc>, c: seq<nat>, id: nat, b: Buf): (r: seq<Desc>)
    requires id < |desc| && forall d | d in c :: d < |desc|
    ensures |r| == |desc|
  {
    var desc1 := desc[id := Desc(b.addr, b.len, if b.write then VRING_DESC_F_WRITE else 0, 0)];
    if c == [] then desc1 else
    var prev := c[|c| - 1];
    assert prev in c;
    desc1[prev := desc1[prev].(flags := if desc1[prev].flags % 2 == 0 then desc1[prev].flags + VRING_DESC_F_NEXT
      else desc1[prev].flags, next := id)]
  }

  lemma {:induction false} ExtendOk(desc: seq<Desc>, c: seq<nat>, bufs: seq<Buf>, id: nat, b: Buf)
    requires ChainOk(desc, c, bufs) && id < |desc| && id !in c && NoDup(c)
    ensures (forall d | d in c :: d < |desc|) && ChainOk(Extended(desc, c, id, b), c + [id], bufs + [b])
  {
    forall d | d in c
      ensures d < |desc|
    {
      var k :| 0 <= k < |c| && c[k] == d;
      assert LinkOk(desc, c, bufs, k);
    }
    var desc', c', bufs' := Extended(desc, c, id, b), c + [id], bufs + [b];
    forall k {:trigger LinkOk(desc', c', bufs', k)} | 0 <= k < |c'|
      ensures LinkOk(desc', c', bufs', k)
    {
      if k < |c| {
        assert LinkOk(desc, c, bufs, k);
        assert c[k] in c && c[|c| - 1] in c;
      }
    }
  }

  ghost predicate TableOk(num: nat, desc: seq<Desc>, next: seq<nat>, freeHead: nat, numFree: nat, p: Parts,
                          bufs: map<nat, seq<Buf>>) {
    && Partition(p) && |p.owner| == |desc| == |next| == num && FreeRep(next, freeHead, p.free) && numFree == |p.free|
    && (forall h {:trigger Described(desc, p, bufs, h)} | h in p.chains :: Described(desc, p, bufs, h))
  }

  ghost predicate Described(desc: seq<Desc>, p: Parts, bufs: map<nat, seq<Buf>>, h: nat)
    requires h in p.chains
  {
    h in bufs && ChainOk(desc, p.chains[h], bufs[h])
  }

  // ------------------------------------------------------------------ the two rings

  ghost predicate AvailOk(num: nat, ring: seq<nat>, idx: nat, devIdx: nat, taken: seq<nat>, pending: seq<nat>,
                          stage: map<nat, Stage>) {
    && RingOk(ring, num, |taken|, pending) && idx == (|taken| + |pending|) % WRAP && devIdx == |taken| % WRAP
         && NoDup(pending)
    && (forall h {:trigger h in pending} :: h in pending <==> h in stage && stage[h] == Posted)
  }

  ghost function Ids(s: seq<Elem>): seq<nat> {
    seq(|s|, i requires 0 <= i < |s| => s[i].id)
  }

  ghost predicate UsedOk(num: nat, ring: seq<Elem>, idx: nat, lastIdx: nat, got: seq<Elem>, done: seq<Elem>,
                         stage: map<nat, Stage>) {
    && RingOk(ring, num, |got|, done) && idx == (|got| + |done|) % WRAP && lastIdx == |got| % WRAP && NoDup(Ids(done))
    && (forall h {:trigger h in Ids(done)} :: h in Ids(done) <==> h in stage && stage[h] == Used)
  }

  class Virtqueue {
    const num: nat
    var desc: seq<Desc>
    var descNext: seq<nat>
    var freeHead: nat
    var numFree: nat
    var availRing: seq<nat>
    var availIdx: nat
    var usedRing: seq<Elem>
    var usedIdx: nat
    var lastUsedIdx: nat
    var devIdx: nat
    var stage: map<nat, Stage> // what the two parties remember of each outstanding chain
    ghost var parts: Parts
    ghost var bufs: map<nat, seq<Buf>>
    ghost var pending: seq<nat>
    ghost var taken: seq<nat>
    ghost var done: seq<Elem>
    ghost var got: seq<Elem>

    ghost predicate Descs()
      reads this
    {
      TableOk(num, desc, descNext, freeHead, numFree, parts, bufs)
    }

    ghost predicate Rings()
      reads this
    {
      && AvailOk(num, availRing, availIdx, devIdx, taken, pending, stage)
      && UsedOk(num, usedRing, usedIdx, lastUsedIdx, got, done, stage)
    }

    ghost predicate Valid()
      reads this
    {
      && 0 < num <= 0x8000 && WRAP % num == 0 && Descs() && Rings()
      && parts.work == [] && stage.Keys == parts.chains.Keys
    }

    /** vring_new_virtqueue */
    constructor (n: nat)
      requires 0 < n <= 0x8000 && WRAP % n == 0
      ensures Valid() && num == n && numFree == n && stage == map[]
    {
      num := n;
      desc := seq(n, _ => Desc(0, 0, 0, 0));
      var next := seq(n, i requires i >= 0 => if i == n - 1 then VQ_DESC_CHAIN_END else i + 1);
      descNext, freeHead, numFree := next, 0, n;
      availRing, availIdx, usedRing, usedIdx, lastUsedIdx, devIdx := seq(n, _ => 0), 0, seq(n, _ => Elem(0, 0)), 0, 0,
        0;
      parts, bufs, stage := Parts(seq(n, _ => FREE), seq(n, i requires i >= 0 => i), [], map[]), map[], map[];
      pending, taken, done, got := [], [], [], [];
      new;
      AllFree(next, n, 0);
      assert parts.free[0..] == parts.free;
      forall d: nat {:trigger Placed(parts, d)}
        ensures Placed(parts, d)
      {
        assert d < n ==> parts.free[d] == d;
      }
    }

    // ------------------------------------------------------------------ the driver

    /** vq_alloc_desc: the first free descriptor comes to hand */
    method AllocDesc() returns (id: nat)
      requires Descs() && numFree > 0
      modifies this`freeHead, this`numFree, this`parts
      ensures parts.free == old(parts).free[1..] && parts.work == old(parts).work + [id]
      ensures parts.chains == old(parts).chains
      ensures Descs() && id < num && id !in old(parts).work && id == old(parts).free[0]
    {
      AllocOk(parts);
      id := freeHead;
      freeHead := descNext[id];
      numFree := numFree - 1;
      ghost var p := parts;
      parts := Alloc(parts);
      forall h {:trigger Described(desc, parts, bufs, h)} | h in parts.chains
        ensures Described(desc, parts, bufs, h)
      {
        assert Described(desc, p, bufs, h);
      }
    }

    /** vq_free_desc: the first descriptor in hand becomes the first free one */
    method FreeDesc(id: nat)
      requires Descs() && parts.work != [] && id == parts.work[0]
      modifies this`descNext, this`freeHead, this`numFree, this`parts
      ensures Descs() && parts.free == [id] + old(parts).free && parts.work == old(parts).work[1..]
      ensures parts.chains == old(parts).chains
    {
      ReleaseOk(parts);
      ghost var p, next0 := parts, descNext;
      descNext := descNext[id := freeHead];
      FreeFrame(next0, descNext, freeHead, parts.free);
      freeHead := id;
      numFree := numFree + 1;
      parts := Release(parts);
      assert parts.free[1..] == p.free;
      forall h {:trigger Described(desc, parts, bufs, h)} | h in parts.chains
        ensures Described(desc, parts, bufs, h)
      {
        assert Described(desc, p, bufs, h);
      }
    }

    /** Writes the descriptor `id` of one more buffer and links it to the one before. */
    method Link(id: nat, b: Buf, ghost c: seq<nat>, ghost bs: seq<Buf>, prev: nat)
      requires Descs() && parts.work == c + [id] && NoDup(c) && id !in c && id < num && ChainOk(desc, c, bs)
      requires prev == if c == [] then VQ_DESC_CHAIN_END else c[|c| - 1]
      requires num <= 0x8000
      modifies this`desc
      ensures Descs() && ChainOk(desc, c + [id], bs + [b])
    {
      ghost var desc0 := desc;
      ExtendOk(desc, c, bs, id, b);
      desc := desc[id := Desc(b.addr, b.len, if b.write then VRING_DESC_F_WRITE else 0, 0)];
      if c != [] {
        assert c[|c| - 1] in c;
      }
      if prev != VQ_DESC_CHAIN_END {
        if desc[prev].flags % 2 == 0 {
          desc := desc[prev := desc[prev].(flags := desc[prev].flags + VRING_DESC_F_NEXT)];
        }
        desc := desc[prev := desc[prev].(next := id)];
      }
      assert desc == Extended(desc0, c, id, b);
      forall h {:trigger Described(desc, parts, bufs, h)} | h in parts.chains
        ensures Described(desc, parts, bufs, h)
      {
        assert Described(desc0, parts, bufs, h);
        OthersKept(parts, c, id, h);
        ChainFrame(desc0, desc, parts.chains[h], bufs[h]);
      }
    }

    /** The loop of virtqueue_add_buf: a chain of the buffers, in hand. */
    method BuildChain(bs: seq<Buf>) returns (first: nat)
      requires Descs() && parts.work == [] && 0 < |bs| <= numFree && num <= 0x8000
      modifies this`desc, this`freeHead, this`numFree, this`parts
      ensures Descs() && parts.chains == old(parts).chains && |parts.work| == |bs| && parts.work[0] == first < num
      ensures parts.free == old(parts).free[|bs|..] && ChainOk(desc, parts.work, bs)
    {
      first := VQ_DESC_CHAIN_END;
      var prev := VQ_DESC_CHAIN_END;
      var i := 0;
      while i < |bs|
        invariant Descs() && parts.chains == old(parts).chains && 0 <= i <= |bs| && |parts.work| == i
        invariant parts.free == old(parts).free[i..] && ChainOk(desc, parts.work, bs[..i])
        invariant first == if i == 0 then VQ_DESC_CHAIN_END else parts.work[0]
        invariant prev == if i == 0 then VQ_DESC_CHAIN_END else parts.work[i - 1]
        invariant forall d | d in parts.work :: d < num
      {
        ghost var c := parts.work;
        assert NoDup(c) && (c != [] ==> c[0] in c);
        if numFree == 0 {
          // the source would give the chain back and fail; the check on num_free rules it out
          assert false;
        }
        var id := AllocDesc();
        if first == VQ_DESC_CHAIN_END {
          first := id;
        }
        Link(id, bs[i], c, bs[..i], prev);
        assert bs[..i] + [bs[i]] == bs[..i + 1];
        prev := id;
        i := i + 1;
      }
      assert bs[..i] == bs && parts.work[0] in parts.work;
    }

    /** virtqueue_add_buf: a chain that lists the buffers in order, offered to the device behind all others. It
        fails, and changes nothing, exactly if there are no buffers or not enough free descriptors. */
    method AddBuf(bs: seq<Buf>) returns (r: int, head: nat)
      requires Valid()
      modifies this`desc, this`freeHead, this`numFree, this`parts, this`bufs, this`stage, this`availRing, this`availIdx,
                 this`pending
      ensures Valid() && r == if 0 < |bs| <= old(numFree) then 0 else -1
      ensures r == -1 ==> unchanged(this)
      ensures r == 0 ==> pending == old(pending) + [head] && head !in old(stage) && stage == old(stage)[head := Posted]
      ensures r == 0 ==> bufs == old(bufs)[head := bs] && numFree == old(numFree) - |bs|
      ensures r == 0 ==> head in parts.chains && ChainOk(desc, parts.chains[head], bs)
      ensures r == 0 ==> parts.chains == old(parts).chains[head := parts.chains[head]]
    {
      r, head := -1, 0;
      if |bs| == 0 {
        return;
      }
      if numFree < |bs| {
        return;
      }
      Room(parts, stage, pending);
      head := MakeChain(bs);
      Post(head);
      r := 0;
    }

    method MakeChain(bs: seq<Buf>) returns (head: nat)
      requires Descs() && parts.work == [] && 0 < |bs| <= numFree && num <= 0x8000
      modifies this`desc, this`freeHead, this`numFree, this`parts, this`bufs
      ensures Descs() && parts.work == [] && head !in old(parts).chains && bufs == old(bufs)[head := bs]
      ensures numFree == old(numFree) - |bs|
      ensures head in parts.chains && parts.chains == old(parts).chains[head := parts.chains[head]]
      ensures ChainOk(desc, parts.chains[head], bs)
    {
      head := BuildChain(bs);
      SealChain(bs, head);
    }

    /** The chain in hand becomes an outstanding one. */
    ghost method SealChain(bs: seq<Buf>, head: nat)
      requires Descs() && |parts.work| == |bs| > 0 && parts.work[0] == head && ChainOk(desc, parts.work, bs)
      modifies this`parts, this`bufs
      ensures Descs() && parts.work == [] && head !in old(parts).chains && bufs == old(bufs)[head := bs]
      ensures parts.free == old(parts).free
      ensures parts.chains == old(parts).chains[head := old(parts).work]
    {
      SealOk(parts);
      ghost var p, b := parts, bufs;
      parts, bufs := Seal(parts), bufs[head := bs];
      forall h {:trigger Described(desc, parts, bufs, h)} | h in parts.chains
        ensures Described(desc, parts, bufs, h)
      {
        if h != head {
          assert Described(desc, p, b, h);
        }
      }
    }

    /** Puts the head into the next slot of the available ring, which no waiting chain has. */
    method Post(head: nat)
      requires 0 < num && WRAP % num == 0 && Rings() && head !in stage && |pending| < num
      modifies this`stage, this`availRing, this`availIdx, this`pending
      ensures Rings() && pending == old(pending) + [head] && stage == old(stage)[head := Posted]
    {
      AvailPost(num, availRing, availIdx, devIdx, taken, pending, stage, head);
      UsedKept(num, usedRing, usedIdx, lastUsedIdx, got, done, stage, stage[head := Posted]);
      var slot := availIdx % num;
      availRing := availRing[slot := head];
      availIdx := (availIdx + 1) % WRAP;
      pending, stage := pending + [head], stage[head := Posted];
    }

    /** virtqueue_get_buf: the completions in the order of the device, each one once; 0 exactly if all were seen */
    method GetBuf() returns (r: int, head: nat, len: nat)
      requires Valid()
      modifies this`lastUsedIdx, this`got, this`done, this`stage
      ensures Valid() && r == if old(done) == [] then 0 else 1
      ensures r == 0 ==> unchanged(this)
      ensures r == 1 ==>
                Elem(head, len) == old(done)[0] && got == old(got) + [Elem(head, len)] && done == old(done)[1..]
      ensures r == 1 ==> head in old(stage) && old(stage)[head] == Used && stage == old(stage)[head := Seen]
    {
      r, head, len := 0, 0, 0;
      IndexMoved(|got|, |done|);
      if lastUsedIdx == usedIdx {
        return;
      }
      head, len := PopUsed();
      r := 1;
    }

    method PopUsed() returns (head: nat, len: nat)
      requires Rings() && 0 < num && WRAP % num == 0 && done != []
      modifies this`lastUsedIdx, this`got, this`done, this`stage
      ensures Rings() && Elem(head, len) == old(done)[0] && got == old(got) + [Elem(head, len)]
      ensures done == old(done)[1..]
      ensures head in old(stage) && old(stage)[head] == Used && stage == old(stage)[head := Seen]
    {
      UsedPop(num, usedRing, usedIdx, lastUsedIdx, got, done, stage);
      AvailKept(num, availRing, availIdx, devIdx, taken, pending, stage, stage[done[0].id := Seen]);
      var idx := lastUsedIdx % num;
      head, len := usedRing[idx].id, usedRing[idx].len;
      lastUsedIdx := (lastUsedIdx + 1) % WRAP;
      got, done, stage := got + [done[0]], done[1..], stage[head := Seen];
    }

    /** virtqueue_free_chain of a chain the driver has seen completed: its descriptors, and no others, become free */
    method FreeChain(head: nat)
      requires Valid() && head in stage && stage[head] == Seen
      modifies this`descNext, this`freeHead, this`numFree, this`parts, this`stage
      ensures Valid() && stage == old(stage) - {head} && parts.chains == old(parts).chains - {head}
      ensures numFree == old(numFree) + |old(parts).chains[head]|
      ensures forall d :: d in parts.free <==> d in old(parts).free || d in old(parts).chains[head]
    {
      ghost var c := parts.chains[head];
      assert ChainShape(parts, head) && Described(desc, parts, bufs, head);
      OpenChain(head);
      FreeLinks(head, c, bufs[head]);
      AvailKept(num, availRing, availIdx, devIdx, taken, pending, stage, stage - {head});
      UsedKept(num, usedRing, usedIdx, lastUsedIdx, got, done, stage, stage - {head});
      stage := stage - {head};
    }

    /** The loop of virtqueue_free_chain. */
    method FreeLinks(head: nat, ghost c: seq<nat>, ghost bs: seq<Buf>)
      requires Descs() && c != [] && parts.work == c && c[0] == head && ChainOk(desc, c, bs) && num <= 0x8000
      modifies this`descNext, this`freeHead, this`numFree, this`parts
      ensures Descs() && parts.work == [] && parts.chains == old(parts).chains && numFree == old(numFree) + |c|
      ensures forall d :: d in parts.free <==> d in old(parts).free || d in c
    {
      ghost var free := parts.free;
      var i := head;
      ghost var k := 0;
      assert parts.work == c[0..];
      while true
        invariant Descs() && 0 <= k < |c| && i == c[k] && parts.work == c[k..] && parts.chains == old(parts).chains
        invariant |parts.free| == |free| + k && forall d :: d in parts.free <==> d in free || d in c[..k]
        decreases |c| - k
      {
        assert LinkOk(desc, c, bs, k) && (k + 1 < |c| ==> LinkOk(desc, c, bs, k + 1));
        var next := VQ_DESC_CHAIN_END;
        if desc[i].flags % 2 == 1 {
          next := desc[i].next;
        }
        FreeDesc(i);
        k := k + 1;
        assert c[..k] == c[..k - 1] + [i] && c[k - 1..][1..] == c[k..];
        if next == VQ_DESC_CHAIN_END {
          break;
        }
        i := next;
      }
      assert c[..k] == c;
    }

    ghost method OpenChain(head: nat)
      requires Descs() && parts.work == [] && head in parts.chains
      modifies this`parts
      ensures Descs() && parts == Open(old(parts), head)
    {
      OpenOk(parts, head);
      ghost var p := parts;
      parts := Open(parts, head);
      forall h {:trigger Described(desc, parts, bufs, h)} | h in parts.chains
        ensures Described(desc, parts, bufs, h)
      {
        assert Described(desc, p, bufs, h);
      }
    }

    // ------------------------------------------------------------------ the device

    /** The device takes the chain that was offered first and has not been taken, and reads its buffers. */
    method DeviceTake() returns (r: int, head: nat, bs: seq<Buf>)
      requires Valid()
      modifies this`devIdx, this`taken, this`pending, this`stage
      ensures Valid() && r == if old(pending) == [] then 0 else 1
      ensures r == 0 ==> unchanged(this)
      ensures r == 1 ==> head == old(pending)[0] && taken == old(taken) + [head] && pending == old(pending)[1..]
      ensures r == 1 ==> head in bufs && bs == bufs[head] && stage == old(stage)[head := Taken]
    {
      r, head, bs := 0, 0, [];
      IndexMoved(|taken|, |pending|);
      if devIdx == availIdx {
        return;
      }
      head := PopAvail();
      bs := ReadChain(head);
      r := 1;
    }

    method PopAvail() returns (head: nat)
      requires Rings() && 0 < num && WRAP % num == 0 && pending != []
      modifies this`devIdx, this`taken, this`pending, this`stage
      ensures Rings() && head == old(pending)[0] && taken == old(taken) + [head] && pending == old(pending)[1..]
      ensures head in old(stage) && stage == old(stage)[head := Taken]
    {
      AvailTake(num, availRing, availIdx, devIdx, taken, pending, stage);
      UsedKept(num, usedRing, usedIdx, lastUsedIdx, got, done, stage, stage[pending[0] := Taken]);
      head := availRing[devIdx % num];
      devIdx := (devIdx + 1) % WRAP;
      taken, pending, stage := taken + [head], pending[1..], stage[head := Taken];
    }

    /** The device follows a chain: it finds the buffers in the order in which they were added. */
    method ReadChain(head: nat) returns (bs: seq<Buf>)
      requires Descs() && head in parts.chains && num <= 0x8000
      ensures head in bufs && bs == bufs[head]
    {
      ghost var c := parts.chains[head];
      assert ChainShape(parts, head) && Described(desc, parts, bufs, head);
      bs := [];
      var i := head;
      while true
        invariant |bs| < |c| && i == c[|bs|] && bs == bufs[head][..|bs|]
        decreases |c| - |bs|
      {
        assert LinkOk(desc, c, bufs[head], |bs|);
        bs := bs + [Buf(desc[i].addr, desc[i].len, desc[i].flags / 2 % 2 == 1)];
        if desc[i].flags % 2 == 0 {
          break;
        }
        i := desc[i].next;
      }
      assert bufs[head][..|bs|] == bufs[head];
    }

    /** The device completes a chain it has taken, in any order it likes. */
    method DeviceUse(head: nat, len: nat)
      requires Valid() && head in stage && stage[head] == Taken
      modifies this`usedRing, this`usedIdx, this`done, this`stage
      ensures Valid() && done == old(done) + [Elem(head, len)] && stage == old(stage)[head := Used]
    {
      ChainsBound(parts);
      DoneBound(stage, done, head);
      UsedPush(num, usedRing, usedIdx, lastUsedIdx, got, done, stage, Elem(head, len));
      AvailKept(num, availRing, availIdx, devIdx, taken, pending, stage, stage[head := Used]);
      usedRing := usedRing[usedIdx % num := Elem(head, len)];
      usedIdx := (usedIdx + 1) % WRAP;
      done, stage := done + [Elem(head, len)], stage[head := Used];
    }
  }

  lemma {:induction false} AllFree(next: seq<nat>, n: nat, k: nat)
    requires k <= n == |next| && forall i | 0 <= i < n :: next[i] == if i == n - 1 then VQ_DESC_CHAIN_END else i + 1
    ensures FreeRep(next, if k < n then k else VQ_DESC_CHAIN_END, seq(n, i requires i >= 0 => i)[k..])
    decreases n - k
  {
    if k < n {
      AllFree(next, n, k + 1);
      assert seq(n, i requires i >= 0 => i)[k..][1..] == seq(n, i requires i >= 0 => i)[k + 1..];
    }
  }

  /** A chain does not contain descriptors that are in hand. */
  lemma {:induction false} OthersKept(p: Parts, c: seq<nat>, id: nat, h: nat)
    requires Partition(p) && p.work == c + [id] && h in p.chains
    ensures id !in p.chains[h] && forall d | d in c :: d !in p.chains[h]
  {
    forall d | d in c + [id]
      ensures d !in p.chains[h]
    {
      assert Placed(p, d) && InChain(p, h, d);
    }
    assert (c + [id])[|c|] == id;
  }

  /** No more chains wait for the device than there are. */
  lemma {:induction false} PendingBound(stage: map<nat, Stage>, pending: seq<nat>)
    requires NoDup(pending) && forall h | h in pending :: h in stage
    ensures |pending| <= |stage|
  {
    var s := set h | h in pending;
    SizeOf(pending, s);
    assert s <= stage.Keys;
    Subset(s, stage.Keys);
  }

  /** While a descriptor is free, the available ring has a free slot. */
  lemma {:induction false} Room(p: Parts, stage: map<nat, Stage>, pending: seq<nat>)
    requires Partition(p) && p.free != [] && stage.Keys == p.chains.Keys && NoDup(pending)
    requires forall h | h in pending :: h in stage
    ensures |pending| < |p.owner|
  {
    ChainsBound(p);
    PendingBound(stage, pending);
    assert |stage.Keys| == |p.chains.Keys|;
  }

  /** A chain that is not completed leaves room on the used ring. */
  lemma {:induction false} DoneBound(stage: map<nat, Stage>, done: seq<Elem>, h: nat)
    requires NoDup(Ids(done))
    requires (forall k {:trigger k in Ids(done)} :: k in Ids(done) <==> k in stage && stage[k] == Used)
    requires h in stage && stage[h] != Used
    ensures |done| < |stage|
  {
    assert h !in Ids(done);
    AppendOk(Ids(done), h);
    PendingBound(stage, Ids(done) + [h]);
  }

  lemma {:induction false} Subset(a: set<nat>, b: set<nat>)
    requires a <= b
    ensures |a| <= |b|
  {
    assert b == a + (b - a);
  }

  /** Two 16-bit indices of counts less than 65536 apart are equal exactly if the counts are. */
  lemma {:induction false} IndexMoved(base: nat, n: nat)
    requires n < WRAP
    ensures (base + n) % WRAP == base % WRAP <==> n == 0
  {
  }

  // ------------------------------------------------------------------ steps of the rings

  /** The same chains are in the given stage. */
  ghost predicate SameAt(stage: map<nat, Stage>, stage': map<nat, Stage>, s: Stage) {
    forall h {:trigger h in stage} {:trigger h in stage'} ::
      h in stage && stage[h] == s <==> h in stage' && stage'[h] == s
  }

  lemma {:induction false} AvailKept(num: nat, ring: seq<nat>, idx: nat, devIdx: nat, taken: seq<nat>,
                                     pending: seq<nat>, stage: map<nat, Stage>, stage': map<nat, Stage>)
    requires AvailOk(num, ring, idx, devIdx, taken, pending, stage) && SameAt(stage, stage', Posted)
    ensures AvailOk(num, ring, idx, devIdx, taken, pending, stage')
  {
  }

  lemma {:induction false} UsedKept(num: nat, ring: seq<Elem>, idx: nat, lastIdx: nat, got: seq<Elem>, done: seq<Elem>,
                                    stage: map<nat, Stage>, stage': map<nat, Stage>)
    requires UsedOk(num, ring, idx, lastIdx, got, done, stage) && SameAt(stage, stage', Used)
    ensures UsedOk(num, ring, idx, lastIdx, got, done, stage')
  {
  }

  lemma {:induction false} NextIndex(t: nat)
    ensures (t % WRAP + 1) % WRAP == (t + 1) % WRAP
  {
  }

  lemma {:induction false} AvailPost(num: nat, ring: seq<nat>, idx: nat, devIdx: nat, taken: seq<nat>,
                                     pending: seq<nat>, stage: map<nat, Stage>, h: nat)
    requires AvailOk(num, ring, idx, devIdx, taken, pending, stage) && WRAP % num == 0 && |pending| < num && h !in stage
    ensures AvailOk(num, ring[idx % num := h], (idx + 1) % WRAP, devIdx, taken, pending + [h], stage[h := Posted])
  {
    SlotOf(|taken| + |pending|, num);
    RingPush(ring, num, |taken|, pending, h);
    NextIndex(|taken| + |pending|);
    AppendOk(pending, h);
  }

  lemma {:induction false} AvailTake(num: nat, ring: seq<nat>, idx: nat, devIdx: nat, taken: seq<nat>,
                                     pending: seq<nat>, stage: map<nat, Stage>)
    requires AvailOk(num, ring, idx, devIdx, taken, pending, stage) && WRAP % num == 0 && pending != []
    ensures var h := pending[0];
            && ring[devIdx % num] == h && h in stage && stage[h] == Posted
            && AvailOk(num, ring, idx, (devIdx + 1) % WRAP, taken + [h], pending[1..], stage[h := Taken])
  {
    SlotOf(|taken|, num);
    RingPop(ring, num, |taken|, pending);
    NextIndex(|taken|);
    TakenOne(pending, stage);
  }

  lemma {:induction false} UsedPush(num: nat, ring: seq<Elem>, idx: nat, lastIdx: nat, got: seq<Elem>, done: seq<Elem>,
                                    stage: map<nat, Stage>, e: Elem)
    requires UsedOk(num, ring, idx, lastIdx, got, done, stage) && WRAP % num == 0 && |done| < num && e.id in stage
    requires stage[e.id] != Used
    ensures UsedOk(num, ring[idx % num := e], (idx + 1) % WRAP, lastIdx, got, done + [e], stage[e.id := Used])
  {
    SlotOf(|got| + |done|, num);
    RingPush(ring, num, |got|, done, e);
    NextIndex(|got| + |done|);
    assert Ids(done + [e]) == Ids(done) + [e.id];
    assert e.id !in Ids(done);
    AppendOk(Ids(done), e.id);
  }

  lemma {:induction false} UsedPop(num: nat, ring: seq<Elem>, idx: nat, lastIdx: nat, got: seq<Elem>, done: seq<Elem>,
                                   stage: map<nat, Stage>)
    requires UsedOk(num, ring, idx, lastIdx, got, done, stage) && WRAP % num == 0 && done != []
    ensures var h := done[0].id;
            && ring[lastIdx % num] == done[0] && h in stage && stage[h] == Used
            && UsedOk(num, ring, idx, (lastIdx + 1) % WRAP, got + [done[0]], done[1..], stage[h := Seen])
  {
    SlotOf(|got|, num);
    RingPop(ring, num, |got|, done);
    NextIndex(|got|);
    SeenOne(done, stage);
  }

  lemma {:induction false} HeadOff(s: seq<nat>)
    requires s != [] && NoDup(s)
    ensures NoDup(s[1..]) && s[0] in s && forall x :: x in s[1..] <==> x in s && x != s[0]
  {
  }

  lemma {:induction false} SeenOne(done: seq<Elem>, stage: map<nat, Stage>)
    requires done != [] && NoDup(Ids(done))
    requires forall h {:trigger h in Ids(done)} :: h in Ids(done) <==> h in stage && stage[h] == Used
    ensures var h := done[0].id;
            && h in stage && stage[h] == Used && NoDup(Ids(done[1..]))
            && forall k {:trigger k in Ids(done[1..])} ::
                 k in Ids(done[1..]) <==> k in stage[h := Seen] && stage[h := Seen][k] == Used
  {
    assert Ids(done)[1..] == Ids(done[1..]);
    HeadOff(Ids(done));
  }

  lemma {:induction false} TakenOne(pending: seq<nat>, stage: map<nat, Stage>)
    requires pending != [] && NoDup(pending)
    requires forall h {:trigger h in pending} :: h in pending <==> h in stage && stage[h] == Posted
    ensures var h := pending[0];
            && h in stage && stage[h] == Posted && NoDup(pending[1..])
            && forall k {:trigger k in pending[1..]} ::
                 k in pending[1..] <==> k in stage[h := Taken] && stage[h := Taken][k] == Posted
  {
    HeadOff(pending);
  }

  lemma {:induction false} Outstanding(p: Parts, stage: map<nat, Stage>)
    requires Partition(p) && stage.Keys == p.chains.Keys
    ensures |stage| + |p.free| <= |p.owner|
  {
    ChainsBound(p);
    assert |stage.Keys| == |p.chains.Keys|;
  }
}
