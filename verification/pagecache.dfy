/** mm/filemap.c, mm/page-writeback.c, fs/block_dev.c: reads, writes, flushes and reclaim of a device's page cache. */
module PageCache {
  import opened Kmalloc
  import opened Lists
  import opened Machine
  import opened PageCacheModel

  const WB_DIRTY_LIMIT: nat := 64

  class Mapping {
    var entries: Entries
    var hash: seq<seq<Ref>>
    var clean: seq<Ref>
    var dirty: seq<Ref>
    var nrpages: nat
    var nrClean: nat
    var nrDirty: nat
    var wbDirty: nat
    var disk: Bytes
    ghost var cached: map<nat, Ref>

    /** Chains, lists and counts describe the same entries. */
    ghost predicate Shape()
      reads this
    {
      && Hashed(entries, hash) && Indexed(entries, cached) && Listed(entries, clean, dirty) && 0 !in entries
      && nrClean == |clean| && nrDirty == wbDirty == |dirty| && nrpages == nrClean + nrDirty
    }

    /** Every clean cached page equals the device. */
    ghost predicate Valid()
      reads this
    {
      Shape() && Synced(entries, disk, 0)
    }

    /** The flat array that the cache and the device stand for. */
    ghost function Content(): Bytes
      reads this
    {
      Flat(entries, cached, disk)
    }

    /** i_size of the device's inode, which keeps 32 bits of the device size. */
    function ISize(): nat
      reads this
    {
      |disk| % WORD
    }

    constructor (device: Bytes)
      ensures Valid() && disk == device && Content() == device
    {
      entries, hash, clean, dirty := map[], seq(PAGECACHE_HASH_SIZE, _ => []), [], [];
      nrpages, nrClean, nrDirty, wbDirty := 0, 0, 0, 0;
      disk, cached := device, map[];
    }

    // ------------------------------------------------------------------ writeback and reclaim

    /** blkdev_writepage on the entry `r`, which then is clean and joins the clean list. */
    method FlushOne(r: Ref)
      requires Valid() && r in dirty
      modifies this`entries, this`disk, this`clean, this`dirty, this`nrClean, this`nrDirty, this`wbDirty
      ensures Valid() && Content() == old(Content()) && |disk| == |old(disk)| && dirty == Without(old(dirty), r)
    {
      assert OnList(entries, clean, dirty, r) && SyncedAt(entries, disk, 0, r);
      if entries[r].dirty {
        FlushOk(entries, cached, disk, r);
        disk := Flushed(entries[r], disk);
        SetOk(entries, hash, cached, r, entries[r].(dirty := false));
        MarkOk(entries, clean, dirty, r, entries[r].(dirty := false));
        WithoutOk(dirty, r);
        entries := entries[r := entries[r].(dirty := false)];
        if wbDirty > 0 {
          wbDirty := wbDirty - 1;
        }
      }
      dirty := Without(dirty, r);
      clean := clean + [r];
      if nrDirty > 0 {
        nrDirty := nrDirty - 1;
      }
      nrClean := nrClean + 1;
    }

    /** writeback_flush_all: afterwards nothing is dirty and the device holds the flat array. */
    method FlushAll()
      requires Valid()
      modifies this`entries, this`disk, this`clean, this`dirty, this`nrClean, this`nrDirty, this`wbDirty
      ensures Valid() && Content() == old(Content()) && |disk| == |old(disk)|
      ensures dirty == [] && disk == Content()
    {
      while dirty != []
        invariant Valid() && Content() == old(Content()) && |disk| == |old(disk)|
        decreases |dirty|
      {
        WithoutOk(dirty, dirty[0]);
        FlushOne(dirty[0]);
      }
      AllClean(entries, cached, clean, disk);
    }

    /** balance_dirty_pages_ratelimited: keeps the number of dirty pages at or below the limit */
    method BalanceDirtyPages()
      requires Valid()
      modifies this`entries, this`disk, this`clean, this`dirty, this`nrClean, this`nrDirty, this`wbDirty
      ensures Valid() && Content() == old(Content()) && |disk| == |old(disk)| && |dirty| <= WB_DIRTY_LIMIT
      ensures old(|dirty|) <= WB_DIRTY_LIMIT ==> unchanged(this)
    {
      if wbDirty > WB_DIRTY_LIMIT {
        FlushAll();
      }
    }

    /** page_cache_hash_del */
    method HashDel(r: Ref)
      requires Hashed(entries, hash) && r in entries
      modifies this`hash
      ensures var b := entries[r].index % PAGECACHE_HASH_SIZE; hash == old(hash)[b := Without(old(hash)[b], r)]
    {
      var b := entries[r].index % PAGECACHE_HASH_SIZE;
      assert Chained(entries, hash, r);
      var i := 0;
      while hash[b][i] != r
        invariant 0 <= i < |hash[b]| && r !in hash[b][..i]
        decreases |hash[b]| - i
      {
        assert r in hash[b];
        i := i + 1;
      }
      WithoutAt(hash[b], r, i);
      hash := hash[b := hash[b][..i] + hash[b][i + 1..]];
    }

    /** page_cache_reclaim_one: drops the oldest clean page, which changes nothing that can be read */
    method ReclaimOne() returns (done: bool)
      requires Valid()
      modifies this`entries, this`hash, this`clean, this`nrpages, this`nrClean, this`cached
      ensures Valid() && Content() == old(Content()) && (done <==> old(clean) != []) && cached.Keys <= old(cached).Keys
      ensures clean == if done then old(clean)[1..] else []
    {
      if nrClean == 0 || clean == [] {
        return false;
      }
      var r := clean[0];
      assert OnList(entries, clean, dirty, r);
      ghost var i := entries[r].index;
      RemoveSynced(entries, disk, r);
      assert SyncedAt(entries, disk, 0, r) && Found(entries, cached, r);
      RemoveHashed(entries, hash, r);
      RemoveIndexed(entries, cached, r);
      RemoveListed(entries, clean, dirty, r);
      FlatAgrees(entries, cached, disk, i);
      WithoutOk(clean, r);
      FlatFrame(entries, entries - {r}, cached - {i}, disk);
      HashDel(r);
      clean := clean[1..];
      if nrpages > 0 {
        nrpages := nrpages - 1;
      }
      if nrClean > 0 {
        nrClean := nrClean - 1;
      }
      cached := cached - {i};
      entries := entries - {r};
      return true;
    }

    // ------------------------------------------------------------------ looking pages up and bringing them in

    /** find_get_page */
    method FindGetPage(index: nat) returns (r: Ref)
      requires Shape()
      ensures if r == 0 then index !in cached
                else index in cached && cached[index] == r && r in entries && entries[r].index == index
    {
      var b := index % PAGECACHE_HASH_SIZE;
      assert ChainOk(entries, hash[b], b);
      var i := 0;
      while i < |hash[b]|
        invariant 0 <= i <= |hash[b]|
        invariant forall j | 0 <= j < i :: hash[b][j] in entries && entries[hash[b][j]].index != index
      {
        var p := hash[b][i];
        assert p in hash[b];
        if entries[p].index == index {
          assert Found(entries, cached, p);
          return p;
        }
        i := i + 1;
      }
      forall k | k in cached
        ensures k != index
      {
        assert Chained(entries, hash, cached[k]);
      }
      return 0;
    }

    /** alloc_page: memory pressure may flush pages and reclaim clean ones first; without memory there may be no page */
    method AllocPage(memory: bool) returns (ok: bool)
      requires Valid()
      modifies this
      ensures (memory ==> ok) && |dirty| <= |old(dirty)|
      ensures Valid() && Content() == old(Content()) && |disk| == |old(disk)| && cached.Keys <= old(cached).Keys
    {
      var rounds: nat :| true;
      while rounds > 0
        invariant Valid() && Content() == old(Content()) && |disk| == |old(disk)| && cached.Keys <= old(cached).Keys
        invariant |dirty| <= |old(dirty)|
      {
        if * {
          FlushAll();
        }
        var _ := ReclaimOne();
        rounds := rounds - 1;
      }
      ok :| memory ==> ok;
    }

    /** add_to_page_cache: a page of zeros, which need not agree with the device yet */
    method AddToPageCache(index: nat, memory: bool) returns (r: Ref)
      requires Valid() && index !in cached && index * PAGE < WORD
      modifies this
      ensures |disk| == |old(disk)| && (memory ==> r != 0) && |dirty| <= |old(dirty)|
      ensures r == 0 ==> Valid() && Content() == old(Content())
      ensures r != 0 ==> Fresh(r, index) && Flat(entries, cached - {index}, disk) == old(Content())
    {
      var ok := AllocPage(memory);
      if !ok {
        return 0;
      }
      r := Enter(Entry(index, seq(PAGE, _ => 0), false));
    }

    method Enter(e: Entry) returns (r: Ref)
      requires Valid() && e.index !in cached && e.index * PAGE < WORD && |e.bytes| == PAGE && !e.dirty
      modifies this`entries, this`hash, this`clean, this`nrpages, this`nrClean, this`cached
      ensures r != 0 && Fresh(r, e.index) && Flat(entries, cached - {e.index}, disk) == old(Content())
    {
      FreshExists(entries.Keys);
      r :| r != 0 && r !in entries;
      AddHashed(entries, hash, r, e);
      AddIndexed(entries, cached, r, e);
      AddListed(entries, clean, dirty, r, e);
      SetSynced(entries, disk, 0, r, e);
      FlatFrame(entries, entries[r := e], cached, disk);
      assert cached[e.index := r] - {e.index} == cached;
      entries := entries[r := e];
      nrpages := nrpages + 1;
      nrClean := nrClean + 1;
      clean := clean + [r];
      var b := e.index % PAGECACHE_HASH_SIZE;
      hash := hash[b := [r] + hash[b]];
      cached := cached[e.index := r];
    }

    /** The clean entry `r` is the cached page `index`; it alone may differ from the device. */
    ghost predicate Fresh(r: Ref, index: nat)
      reads this
    {
      && Shape() && Synced(entries, disk, r) && index in cached && cached[index] == r && r in entries
      && entries[r].index == index && |entries[r].bytes| == PAGE && !entries[r].dirty
    }

    /** blkdev_readpage */
    method ReadPage(r: Ref, ghost index: nat)
      requires Fresh(r, index)
      modifies this`entries
      ensures Valid() && Content() == Flat(old(entries), cached - {index}, disk) && r in entries
      ensures entries[r].index == index
    {
      ghost var E := entries;
      var e := Filled(entries[r], disk);
      FilledAgrees(entries[r], disk);
      SetOk(entries, hash, cached, r, e);
      MarkOk(entries, clean, dirty, r, e);
      assert SyncedAt(entries, disk, r, r);
      SetSynced(entries, disk, r, r, e);
      entries := entries[r := e];
      FlatAgrees(entries, cached, disk, index);
      FlatFrame(E, entries, cached - {index}, disk);
    }

    // ------------------------------------------------------------------ reads

    /** generic_file_read: the bytes of the flat array; without memory, possibly zeros in their place */
    method Read(offset: nat, size: nat, memory: bool) returns (buf: Bytes)
      requires Valid() && offset < WORD && size < WORD
      modifies this
      ensures Valid() && Content() == old(Content()) && |disk| == |old(disk)| && |dirty| <= |old(dirty)|
      ensures Span(|disk| % WORD, offset, size, |buf|)
      ensures memory ==> ReadExact(Content(), |disk| % WORD, offset, size, buf)
      ensures forall k | 0 <= k < |buf| :: buf[k] == Content()[offset + k] || buf[k] == 0
    {
      buf := [];
      var isize := ISize();
      if size == 0 || offset >= isize {
        return;
      }
      var remain := isize - offset;
      var size' := if size > remain then remain else size;
      while |buf| < size'
        invariant Valid() && Content() == old(Content()) && |disk| == |old(disk)| && |buf| <= size'
        invariant |dirty| <= |old(dirty)|
        invariant forall k | 0 <= k < |buf| :: buf[k] == Content()[offset + k] || (!memory && buf[k] == 0)
      {
        var chunk := ReadChunk(offset + |buf|, size' - |buf|, memory);
        ghost var was := buf;
        buf := buf + chunk;
        forall k | 0 <= k < |buf|
          ensures buf[k] == Content()[offset + k] || (!memory && buf[k] == 0)
        {
          assert k >= |was| ==> buf[k] == chunk[k - |was|] && offset + |was| + (k - |was|) == offset + k;
        }
      }
    }

    /** One turn of that loop: the part of the range that lies in one page. */
    method ReadChunk(offset: nat, size: nat, memory: bool) returns (chunk: Bytes)
      requires Valid() && size > 0 && offset + size <= ISize()
      modifies this
      ensures Valid() && Content() == old(Content()) && |disk| == |old(disk)| && 0 < |chunk| <= size
      ensures |dirty| <= |old(dirty)|
      ensures chunk == Content()[offset..offset + |chunk|] || (!memory && forall k | 0 <= k < |chunk| :: chunk[k] == 0)
    {
      var index, po := offset / PAGE, offset % PAGE;
      var bytes := if PAGE - po > size then size else PAGE - po;
      var p := FindGetPage(index);
      if p == 0 {
        p := AddToPageCache(index, memory);
        if p == 0 {
          return seq(bytes, _ => 0);
        }
        ReadPage(p, index);
      }
      assert SyncedAt(entries, disk, 0, p) && Found(entries, cached, p);
      chunk := entries[p].bytes[po..po + bytes];
      InPage(entries, cached, disk, p, offset, bytes);
    }

    // ------------------------------------------------------------------ writes

    /** How many bytes generic_file_write sets out to write; the sum is taken in 32 bits. */
    function Clamp(offset: nat, size: nat): nat
      reads this
    {
      ClampTo(ISize(), offset, size)
    }

    /** generic_file_write: stores the first `n` bytes into the flat array. A range that does not wrap ends within
        the device, and the write replaces it, all of it and nothing else. */
    method Write(offset: nat, buf: Bytes, memory: bool) returns (n: nat)
      requires Valid() && offset < WORD && |buf| < WORD
      modifies this
      ensures Valid() && |disk| == |old(disk)| && |dirty| <= if n > 0 then WB_DIRTY_LIMIT else |old(dirty)|
      ensures n <= Clamp(offset, |buf|) && n <= |buf| && (memory ==> n == Clamp(offset, |buf|))
      ensures memory && offset + |buf| < WORD ==> Span(|disk| % WORD, offset, |buf|, n)
      ensures Content() == PokeAll(old(Content()), offset, buf[..n])
      ensures offset + |buf| < WORD && n > 0 ==>
                offset + n <= ISize() && Content() == old(Content())[..offset] + buf[..n] + old(Content())[offset + n..]
      ensures memory ==> Content() == Apply(old(Content()), ISize(), WriteOp(offset, buf))
      ensures RangeFits(|disk|, offset, |buf|) ==>
                forall y | 0 <= y < |disk| ::
                  Content()[y] == if offset <= y < offset + n && y < ISize() then buf[y - offset] else old(Content())[y]
    {
      n := 0;
      var size := WriteSize(offset, |buf|);
      if size == 0 {
        assert buf[..n] == [];
        return;
      }
      ghost var s, isize := Content(), ISize();
      n := WriteLoop(offset, buf[..size], memory);
      assert buf[..size][..n] == buf[..n];
      WriteMeans(s, isize, offset, buf, n);
    }

    /** The checks at the top of generic_file_write. */
    method WriteSize(offset: nat, size: nat) returns (n: nat)
      requires offset < WORD && size < WORD
      ensures n == Clamp(offset, size) && n <= size && (n > 0 ==> offset < ISize() <= |disk|)
    {
      var isize := ISize();
      if size == 0 || offset >= isize {
        return 0;
      }
      ClampShort(isize, offset, size);
      n := size;
      if (offset + size) % WORD > isize {
        n := isize - offset;
      }
    }

    method WriteLoop(offset: nat, buf: Bytes, memory: bool) returns (n: nat)
      requires Valid() && offset < WORD
      modifies this
      ensures Valid() && |disk| == |old(disk)| && n <= |buf| && (memory ==> n == |buf|)
      ensures |dirty| <= if n > 0 then WB_DIRTY_LIMIT else |old(dirty)|
      ensures Content() == PokeAll(old(Content()), offset, buf[..n])
    {
      n := 0;
      ghost var s := Content();
      while n < |buf|
        invariant Valid() && |disk| == |old(disk)| && n <= |buf| && Content() == PokeAll(s, offset, buf[..n])
        invariant |dirty| <= if n > 0 then WB_DIRTY_LIMIT else |old(dirty)|
      {
        var more := WriteNext(offset, buf, n, memory, s);
        if more == n {
          break;
        }
        n := more;
      }
    }

    method WriteNext(offset: nat, buf: Bytes, n: nat, memory: bool, ghost s: Bytes) returns (n': nat)
      requires Valid() && offset < WORD && n < |buf| && Content() == PokeAll(s, offset, buf[..n])
      modifies this
      ensures Valid() && |disk| == |old(disk)| && n <= n' <= |buf| && (memory ==> n' > n)
      ensures Content() == PokeAll(s, offset, buf[..n'])
      ensures |dirty| <= if n' > n then WB_DIRTY_LIMIT else |old(dirty)|
    {
      var pos, rest := (offset + n) % WORD, buf[n..];
      var m := WriteChunk(pos, rest, memory);
      n' := n + m;
      WriteStep(s, offset, buf, n, m, pos, rest);
    }

    /** One turn of that loop: the part of the range that lies in one page; 0 when no page can be allocated. */
    method WriteChunk(pos: nat, rest: Bytes, memory: bool) returns (m: nat)
      requires Valid() && pos < WORD && rest != []
      modifies this
      ensures Valid() && |disk| == |old(disk)| && m <= |rest| && (memory ==> m > 0)
      ensures |dirty| <= if m > 0 then WB_DIRTY_LIMIT else |old(dirty)|
      ensures Content() == PokeAll(old(Content()), pos, rest[..m])
    {
      var index, po := pos / PAGE, pos % PAGE;
      var bytes := if PAGE - po > |rest| then |rest| else PAGE - po;
      var chunk := rest[..bytes];
      var p := GrabPage(index, po != 0 || bytes < PAGE, chunk, memory);
      if p == 0 {
        return 0;
      }
      StoreChunk(p, po, chunk);
      BalanceDirtyPages();
      m := bytes;
    }

    /** The cached page, brought in if need be; a page that will be overwritten as a whole is not read. */
    method GrabPage(index: nat, part: bool, ghost chunk: Bytes, memory: bool) returns (p: Ref)
      requires Valid() && index * PAGE < WORD && (part || |chunk| == PAGE)
      modifies this
      ensures |disk| == |old(disk)| && (memory ==> p != 0) && |dirty| <= |old(dirty)|
      ensures p == 0 ==> Valid() && Content() == old(Content())
      ensures p != 0 ==> Shape() && Synced(entries, disk, p) && p in entries && entries[p].index == index
      ensures p != 0 && part ==> Content() == old(Content())
      ensures p != 0 && !part ==>
                PokeAll(Content(), index * PAGE, chunk) == PokeAll(old(Content()), index * PAGE, chunk)
    {
      p := FindGetPage(index);
      if p != 0 {
        SyncedBut(entries, disk, p);
        return;
      }
      p := AddToPageCache(index, memory);
      if p == 0 {
        return;
      }
      if part {
        ReadPage(p, index);
        SyncedBut(entries, disk, p);
      } else {
        FlatCovered(entries, cached, disk, index, chunk);
      }
    }

    /** Copies bytes into the entry `p` and marks it dirty. */
    method StoreChunk(p: Ref, po: nat, chunk: Bytes)
      requires Shape() && Synced(entries, disk, p) && p in entries && po + |chunk| <= PAGE
      modifies this`entries, this`clean, this`dirty, this`nrClean, this`nrDirty, this`wbDirty
      ensures Valid() && Content() == PokeAll(old(Content()), old(entries)[p].index * PAGE + po, chunk)
    {
      PatchPage(p, po, chunk);
      MarkDirty(p);
    }

    method PatchPage(p: Ref, po: nat, chunk: Bytes)
      requires Shape() && Synced(entries, disk, p) && p in entries && po + |chunk| <= PAGE
      modifies this`entries
      ensures Shape() && Synced(entries, disk, p) && p in entries
      ensures Content() == PokeAll(old(Content()), old(entries)[p].index * PAGE + po, chunk)
    {
      assert SyncedAt(entries, disk, p, p);
      var e := Patched(entries[p], po, chunk);
      SetOk(entries, hash, cached, p, e);
      MarkOk(entries, clean, dirty, p, e);
      SetSynced(entries, disk, p, p, e);
      FlatPatched(entries, cached, disk, p, po, chunk, e.dirty);
      entries := entries[p := e];
    }

    method MarkDirty(p: Ref)
      requires Shape() && Synced(entries, disk, p) && p in entries
      modifies this`entries, this`clean, this`dirty, this`nrClean, this`nrDirty, this`wbDirty
      ensures Valid() && Content() == old(Content())
    {
      assert OnList(entries, clean, dirty, p) && SyncedAt(entries, disk, p, p);
      var e := entries[p].(dirty := true);
      SetOk(entries, hash, cached, p, e);
      MarkOk(entries, clean, dirty, p, e);
      SetSynced(entries, disk, p, p, e);
      FlatFrame(entries, entries[p := e], cached, disk);
      if !entries[p].dirty {
        WithoutOk(clean, p);
        wbDirty := wbDirty + 1;
        if nrClean > 0 {
          nrClean := nrClean - 1;
        }
        nrDirty := nrDirty + 1;
        clean := Without(clean, p);
        dirty := dirty + [p];
      }
      entries := entries[p := e];
    }
  }

  lemma {:induction false} AllClean(E: Entries, cached: map<nat, Ref>, clean: seq<Ref>, disk: Bytes)
    requires Indexed(E, cached) && Listed(E, clean, []) && Synced(E, disk, 0) && 0 !in E
    ensures disk == Flat(E, cached, disk)
  {
    forall x | 0 <= x < |disk|
      ensures ByteAt(E, cached, disk, x) == disk[x]
    {
      if x / PAGE in cached {
        var r := cached[x / PAGE];
        assert OnList(E, clean, [], r) && SyncedAt(E, disk, 0, r);
        assert Agrees(E[r], disk);
        assert E[r].index * PAGE + x % PAGE == x;
      }
    }
  }

  /** A piece of a cached page is a piece of the flat array. */
  lemma {:induction false} InPage(E: Entries, cached: map<nat, Ref>, disk: Bytes, r: Ref, offset: nat, n: nat)
    requires r in E && Found(E, cached, r) && |E[r].bytes| == PAGE && E[r].index == offset / PAGE
    requires offset % PAGE + n <= PAGE && offset + n <= |disk|
    ensures Flat(E, cached, disk)[offset..offset + n] == E[r].bytes[offset % PAGE..offset % PAGE + n]
  {
  }

  lemma {:induction false} WriteStep(s: Bytes, offset: nat, buf: Bytes, n: nat, m: nat, pos: nat, rest: Bytes)
    requires offset < WORD && n <= |buf| && m <= |buf| - n && pos == (offset + n) % WORD && rest == buf[n..]
    ensures PokeAll(PokeAll(s, offset, buf[..n]), pos, rest[..m]) == PokeAll(s, offset, buf[..n + m])
  {
    assert buf[..n] + rest[..m] == buf[..n + m];
    PokeAllSplit(s, offset, buf[..n], rest[..m]);
  }

  // ------------------------------------------------------------------ whole runs

  /** What read `i` returned is what the writes before it, in order, made of a flat array. */
  ghost predicate ReadRight(s: Bytes, end: nat, ops: seq<Op>, out: seq<Bytes>, i: nat)
    requires i < |out| <= |ops| && end <= |s|
  {
    ops[i].ReadOp? ==> ReadExact(ApplyAll(s, end, ops[..i]), end, ops[i].offset, ops[i].size, out[i])
  }

  /** The first `i` operations returned `out`, and the flat array is `t` now. */
  ghost predicate RanTo(s: Bytes, end: nat, ops: seq<Op>, out: seq<Bytes>, i: nat, t: Bytes)
    requires end <= |s|
  {
    && i == |out| <= |ops| && t == ApplyAll(s, end, ops[..i])
    && forall j | 0 <= j < i :: ReadRight(s, end, ops, out, j)
  }

  lemma {:induction false} RanMore(s: Bytes, end: nat, ops: seq<Op>, out: seq<Bytes>, i: nat, t: Bytes, r: Bytes,
                                   u: Bytes)
    requires end <= |s| && RanTo(s, end, ops, out, i, t) && i < |ops| && u == Apply(t, end, ops[i])
    requires ops[i].ReadOp? ==> ReadExact(t, end, ops[i].offset, ops[i].size, r)
    ensures RanTo(s, end, ops, out + [r], i + 1, u)
  {
    assert ops[..i + 1][..i] == ops[..i];
    forall j | 0 <= j < i
      ensures ReadRight(s, end, ops, out + [r], j)
    {
      assert ReadRight(s, end, ops, out, j);
    }
  }

  method OneMore(m: Mapping, ops: seq<Op>, out: seq<Bytes>, i: nat, ghost s: Bytes, ghost end: nat)
    returns (out': seq<Bytes>)
    requires m.Valid() && i < |ops| && OpOk(ops[i])
    requires end == |m.disk| % WORD && end <= |s| && RanTo(s, end, ops, out, i, m.Content())
    modifies m
    ensures m.Valid() && |m.disk| == |old(m.disk)| && RanTo(s, end, ops, out', i + 1, m.Content())
    ensures ops[i].FlushOp? ==> m.disk == m.Content()
    ensures |old(m.dirty)| <= 64 ==> |m.dirty| <= 64
  {
    var r := Step(m, ops[i]);
    RanMore(s, end, ops, out, i, old(m.Content()), r, m.Content());
    out' := out + [r];
  }

  /** Transparency: over any run of reads, writes, flushes and reclaims with enough memory, every read returns
      what a flat array with the writes applied in order holds, after a flush the device holds that array, and never
      more than 64 pages stay dirty. */
  method Run(m: Mapping, ops: seq<Op>) returns (out: seq<Bytes>)
    requires m.Valid() && forall i | 0 <= i < |ops| :: OpOk(ops[i])
    modifies m
    ensures m.Valid() && |m.disk| == |old(m.disk)| && |out| == |ops|
    ensures m.Content() == ApplyAll(old(m.Content()), |m.disk| % WORD, ops)
    ensures forall i | 0 <= i < |ops| :: ReadRight(old(m.Content()), |m.disk| % WORD, ops, out, i)
    ensures ops != [] && ops[|ops| - 1].FlushOp? ==> m.disk == m.Content()
    ensures |old(m.dirty)| <= 64 ==> |m.dirty| <= 64
  {
    out := [];
    ghost var s, end := m.Content(), |m.disk| % WORD;
    var i := 0;
    while i < |ops|
      invariant i <= |ops| && m.Valid() && |m.disk| == |old(m.disk)| && RanTo(s, end, ops, out, i, m.Content())
      invariant i > 0 && ops[i - 1].FlushOp? ==> m.disk == m.Content()
      invariant |old(m.dirty)| <= 64 ==> |m.dirty| <= 64
    {
      out := OneMore(m, ops, out, i, s, end);
      i := i + 1;
    }
    assert ops[..i] == ops;
  }

  method Step(m: Mapping, op: Op) returns (r: Bytes)
    requires m.Valid() && OpOk(op)
    modifies m
    ensures m.Valid() && |m.disk| == |old(m.disk)| && m.Content() == Apply(old(m.Content()), |m.disk| % WORD, op)
    ensures op.ReadOp? ==> ReadExact(old(m.Content()), |m.disk| % WORD, op.offset, op.size, r)
    ensures op.FlushOp? ==> m.disk == m.Content()
    ensures |old(m.dirty)| <= 64 ==> |m.dirty| <= 64
  {
    r := [];
    match op
    case ReadOp(offset, size) =>
      r := m.Read(offset, size, true);
    case WriteOp(offset, buf) =>
      var _ := m.Write(offset, buf, true);
    case FlushOp =>
      m.FlushAll();
    case ReclaimOp =>
      var _ := m.ReclaimOne();
  }

  /** A write that does not wrap stays inside and replaces its range. */
  lemma {:induction false} WriteMeans(s: Bytes, isize: nat, offset: nat, buf: Bytes, n: nat)
    requires isize == |s| % WORD && offset < isize && n <= ClampTo(isize, offset, |buf|) && n <= |buf| < WORD
    ensures offset + |buf| < WORD ==>
              offset + n <= isize && PokeAll(s, offset, buf[..n]) == s[..offset] + buf[..n] + s[offset + n..]
    ensures RangeFits(|s|, offset, |buf|) ==>
              forall y | 0 <= y < |s| ::
                PokeAll(s, offset, buf[..n])[y] == if offset <= y < offset + n && y < isize then buf[y - offset]
                  else s[y]
  {
    if offset + |buf| < WORD {
      ClampInside(isize, offset, |buf|);
      PokeAllInside(s, offset, buf[..n]);
    }
    if RangeFits(|s|, offset, |buf|) {
      forall y | 0 <= y < |s|
        ensures PokeAll(s, offset, buf[..n])[y] == if offset <= y < offset + n && y < isize then buf[y - offset]
                  else s[y]
      {
        PokeAllAt(s, offset, buf[..n], y);
      }
    }
  }

  /** A request that escapes the size check: two pages of zeros, and ones written from the second page on. The last
      of them lands on the first byte. */
  method WrappingExample() returns (m: Mapping)
    ensures m.Valid() && |m.disk| == 0x2000 && m.Content()[0] == 1
  {
    var device: Bytes := seq(0x2000, _ => 0);
    var buf: Bytes := seq(WORD - 0x1000 + 1, _ => 1);
    m := new Mapping(device);
    ClampEscapes(0x2000, 0x1000, |buf|);
    PokeAllWraps(device, 0x1000, buf);
    var n := m.Write(0x1000, buf, true);
    assert buf[..n] == buf;
  }
}
