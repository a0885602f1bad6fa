/** The page cache of a block device as a flat array of bytes.

    An entry caches one page of the device. The flat array is what the cache and the device mean together: the
    bytes of an entry where the page is cached, the bytes of the device elsewhere.
 */
module PageCacheModel {
  import opened Lists
  import opened Machine

  const PAGECACHE_HASH_SIZE: nat := 64

  type Ref = nat
  type Bytes = seq<bv8>
  datatype Entry = Entry(index: nat, bytes: Bytes, dirty: bool)
  type Entries = map<Ref, Entry>

  // ------------------------------------------------------------------ the invariant

  /** Every entry is on the chain of its bucket, once, and chains hold nothing else. */
  ghost predicate Hashed(E: Entries, hash: seq<seq<Ref>>) {
    && |hash| == PAGECACHE_HASH_SIZE
    && (forall r {:trigger Chained(E, hash, r)} | r in E :: Chained(E, hash, r))
    && (forall b {:trigger ChainOk(E, hash[b], b)} | 0 <= b < PAGECACHE_HASH_SIZE :: ChainOk(E, hash[b], b))
  }

  ghost predicate Chained(E: Entries, hash: seq<seq<Ref>>, r: Ref)
    requires |hash| == PAGECACHE_HASH_SIZE && r in E
  {
    r in hash[E[r].index % PAGECACHE_HASH_SIZE]
  }

  ghost predicate ChainOk(E: Entries, chain: seq<Ref>, b: nat) {
    NoDup(chain) && forall r | r in chain :: r in E && E[r].index % PAGECACHE_HASH_SIZE == b
  }

  /** `cached` finds the entry of a page: no page has two. */
  ghost predicate Indexed(E: Entries, cached: map<nat, Ref>) {
    && (forall r {:trigger Found(E, cached, r)} | r in E :: Found(E, cached, r))
    && (forall i {:trigger cached[i]} | i in cached :: cached[i] in E && E[cached[i]].index == i)
  }

  ghost predicate Found(E: Entries, cached: map<nat, Ref>, r: Ref)
    requires r in E
  {
    E[r].index in cached && cached[E[r].index] == r
  }

  /** The clean and the dirty list hold the entries that are clean, and those that are dirty. */
  ghost predicate Listed(E: Entries, clean: seq<Ref>, dirty: seq<Ref>) {
    NoDup(clean) && NoDup(dirty) && forall r {:trigger OnList(E, clean, dirty, r)} :: OnList(E, clean, dirty, r)
  }

  ghost predicate OnList(E: Entries, clean: seq<Ref>, dirty: seq<Ref>, r: Ref) {
    (r in clean <==> r in E && !E[r].dirty) && (r in dirty <==> r in E && E[r].dirty)
  }

  /** The entry agrees with the device, as far as the device reaches. */
  ghost predicate Agrees(e: Entry, disk: Bytes) {
    |e.bytes| == PAGE && forall k | 0 <= k < PAGE && e.index * PAGE + k < |disk| ::
      e.bytes[k] == disk[e.index * PAGE + k]
  }

  /** Every clean entry, except `but`, agrees with the device. */
  ghost predicate Synced(E: Entries, disk: Bytes, but: Ref) {
    forall r {:trigger SyncedAt(E, disk, but, r)} | r in E :: SyncedAt(E, disk, but, r)
  }

  ghost predicate SyncedAt(E: Entries, disk: Bytes, but: Ref, r: Ref)
    requires r in E
  {
    |E[r].bytes| == PAGE && E[r].index * PAGE < WORD && (!E[r].dirty && r != but ==> Agrees(E[r], disk))
  }

  // ------------------------------------------------------------------ the flat array

  ghost function ByteAt(E: Entries, cached: map<nat, Ref>, disk: Bytes, x: nat): bv8
    requires x < |disk|
  {
    var i := x / PAGE;
    if i in cached && cached[i] in E && |E[cached[i]].bytes| == PAGE then E[cached[i]].bytes[x % PAGE] else disk[x]
  }

  ghost function Flat(E: Entries, cached: map<nat, Ref>, disk: Bytes): (s: Bytes)
    ensures |s| == |disk|
  {
    seq(|disk|, x requires 0 <= x < |disk| => ByteAt(E, cached, disk, x))
  }

  /** A store of one byte, lost beyond the end. */
  function Poke(s: Bytes, x: nat, b: bv8): (t: Bytes)
    ensures |t| == |s|
  {
    if x < |s| then s[x := b] else s
  }

  /** Bytes stored one after the other, the position counted in 32 bits. */
  function PokeAll(s: Bytes, x: nat, buf: Bytes): (t: Bytes)
    ensures |t| == |s|
    decreases |buf|
  {
    if buf == [] then s else PokeAll(Poke(s, x, buf[0]), (x + 1) % WORD, buf[1..])
  }

  lemma {:induction false} NextPosition(x: nat, n: nat)
    requires x < WORD
    ensures ((x + 1) % WORD + n) % WORD == (x + 1 + n) % WORD
  {
  }

  /** The position `n` bytes on. */
  function Onward(x: nat, n: nat): nat
    decreases n
  {
    if n == 0 then x else Onward((x + 1) % WORD, n - 1)
  }

  lemma {:induction false} OnwardIs(x: nat, n: nat)
    requires x < WORD
    ensures Onward(x, n) == (x + n) % WORD
    decreases n
  {
    if n > 0 {
      OnwardIs((x + 1) % WORD, n - 1);
      NextPosition(x, n - 1);
    }
  }

  lemma {:induction false} PokeSplit(s: Bytes, x: nat, a: Bytes, b: Bytes)
    ensures PokeAll(s, x, a + b) == PokeAll(PokeAll(s, x, a), Onward(x, |a|), b)
    decreases |a|
  {
    if a == [] {
      assert a + b == b;
    } else {
      assert (a + b)[1..] == a[1..] + b;
      PokeSplit(Poke(s, x, a[0]), (x + 1) % WORD, a[1..], b);
    }
  }

  lemma {:induction false} PokeAllSplit(s: Bytes, x: nat, a: Bytes, b: Bytes)
    requires x < WORD
    ensures PokeAll(s, x, a + b) == PokeAll(PokeAll(s, x, a), (x + |a|) % WORD, b)
  {
    PokeSplit(s, x, a, b);
    OnwardIs(x, |a|);
  }

  /** Without wrap-around the bytes land next to each other. */
  lemma {:induction false} PokeAllAt(s: Bytes, x: nat, buf: Bytes, y: nat)
    requires x + |buf| <= WORD && y < |s|
    ensures PokeAll(s, x, buf)[y] == if x <= y < x + |buf| then buf[y - x] else s[y]
    decreases |buf|
  {
    if |buf| == 1 {
      assert PokeAll(Poke(s, x, buf[0]), (x + 1) % WORD, buf[1..]) == Poke(s, x, buf[0]);
    } else if buf != [] {
      PokeAllAt(Poke(s, x, buf[0]), x + 1, buf[1..], y);
    }
  }

  /** A write inside the array replaces its range, all of it and nothing else. */
  lemma {:induction false} PokeAllInside(s: Bytes, x: nat, buf: Bytes)
    requires x + |buf| <= |s| && x + |buf| <= WORD
    ensures PokeAll(s, x, buf) == s[..x] + buf + s[x + |buf|..]
  {
    forall y | 0 <= y < |s|
      ensures PokeAll(s, x, buf)[y] == (s[..x] + buf + s[x + |buf|..])[y]
    {
      PokeAllAt(s, x, buf, y);
    }
  }

  /** A write whose range passes the end of the 32-bit offsets goes on at the start of the array. */
  lemma {:induction false} PokeAllWraps(s: Bytes, x: nat, buf: Bytes)
    requires s != [] && x < WORD < x + |buf| && |buf| <= WORD
    ensures PokeAll(s, x, buf)[0] == buf[WORD - x]
  {
    var a, b := buf[..WORD - x], buf[WORD - x..];
    assert buf == a + b;
    PokeAllSplit(s, x, a, b);
    PokeAllAt(PokeAll(s, x, a), 0, b, 0);
  }

  // ------------------------------------------------------------------ operations on a flat array

  /** How many bytes a write sets out to store; the sum is taken in 32 bits. */
  function ClampTo(isize: nat, offset: nat, size: nat): nat {
    if offset >= isize then 0 else if (offset + size) % WORD > isize then isize - offset else size
  }

  /** Once the sum passes 2^32 the size check cuts nothing off. */
  lemma {:induction false} ClampEscapes(isize: nat, offset: nat, size: nat)
    requires offset < isize < WORD && size < WORD && offset + size >= WORD
    ensures ClampTo(isize, offset, size) == size
  {
    assert (offset + size) % WORD == offset + size - WORD;
  }

  /** The write replaces the part of its range below `isize`, and nothing else. */
  ghost predicate WriteExact(s: Bytes, isize: nat, offset: nat, buf: Bytes) {
    var t := Apply(s, isize, WriteOp(offset, buf));
    forall y | 0 <= y < |s| :: t[y] == if offset <= y < offset + |buf| && y < isize then buf[y - offset] else s[y]
  }

  /** The requests that are written as they should be: nothing to write, or a range that ends before 2^32, or at
      2^32 on a device that does not reach that far. */
  predicate RangeFits(size: nat, offset: nat, m: nat) {
    offset >= size % WORD || offset + m < WORD || (offset + m == WORD && size < WORD)
  }

  /** Writes of `m` bytes at `offset` are exact, whatever the bytes, if and only if the range fits. */
  lemma {:induction false} ExactIff(s: Bytes, offset: nat, m: nat)
    requires offset < WORD && m < WORD
    ensures (forall buf: Bytes | |buf| == m :: WriteExact(s, |s| % WORD, offset, buf)) <==> RangeFits(|s|, offset, m)
  {
    if RangeFits(|s|, offset, m) {
      forall buf: Bytes | |buf| == m
        ensures WriteExact(s, |s| % WORD, offset, buf)
      {
        FittingWrite(s, offset, buf);
      }
    } else {
      var y := if offset + m > WORD then 0 else |s| % WORD;
      var buf: Bytes := seq(m, _ => if s[y] == 0 then 1 else 0);
      EscapingWrite(s, offset, buf, y);
      assert !WriteExact(s, |s| % WORD, offset, buf);
    }
  }

  lemma {:induction false} FittingWrite(s: Bytes, offset: nat, buf: Bytes)
    requires offset < WORD && |buf| < WORD && RangeFits(|s|, offset, |buf|)
    ensures WriteExact(s, |s| % WORD, offset, buf)
  {
    var isize := |s| % WORD;
    var n := ClampTo(isize, offset, |buf|);
    if offset < isize {
      if offset + |buf| < WORD {
        ClampInside(isize, offset, |buf|);
      }
      ClampShort(isize, offset, |buf|);
      forall y | 0 <= y < |s|
        ensures PokeAll(s, offset, buf[..n])[y] == if offset <= y < offset + |buf| && y < isize then buf[y - offset]
                  else s[y]
      {
        PokeAllAt(s, offset, buf[..n], y);
      }
    }
  }

  /** A byte outside the part of the range below the device's size that a write changes all the same. */
  lemma {:induction false} EscapingWrite(s: Bytes, offset: nat, buf: Bytes, y: nat)
    requires offset < WORD && |buf| < WORD && !RangeFits(|s|, offset, |buf|)
    requires y == if offset + |buf| > WORD then 0 else |s| % WORD
    ensures y < |s| && !(offset <= y < |s| % WORD)
    ensures exists k :: 0 <= k < |buf| && Apply(s, |s| % WORD, WriteOp(offset, buf))[y] == buf[k]
  {
    var isize := |s| % WORD;
    ClampEscapes(isize, offset, |buf|);
    assert buf[..|buf|] == buf;
    if offset + |buf| > WORD {
      PokeAllWraps(s, offset, buf);
      assert Apply(s, isize, WriteOp(offset, buf))[y] == buf[WORD - offset];
    } else {
      PokeAllAt(s, offset, buf, y);
      assert Apply(s, isize, WriteOp(offset, buf))[y] == buf[y - offset];
    }
  }

  lemma {:induction false} ClampShort(isize: nat, offset: nat, size: nat)
    requires offset < isize < WORD && size < WORD
    ensures ClampTo(isize, offset, size) <= size
  {
  }

  lemma {:induction false} ClampInside(isize: nat, offset: nat, size: nat)
    requires offset < isize && offset + size < WORD
    ensures offset + ClampTo(isize, offset, size) <= isize
  {
    assert (offset + size) % WORD == offset + size;
  }

  datatype Op = ReadOp(offset: nat, size: nat) | WriteOp(offset: nat, buf: Bytes) | FlushOp | ReclaimOp

  predicate OpOk(op: Op) {
    match op
    case ReadOp(offset, size) => offset < WORD && size < WORD
    case WriteOp(offset, buf) => offset < WORD && |buf| < WORD
    case _ => true
  }

  /** A transfer of `size` bytes ends with its range or at the end of the array, whichever comes first. */
  predicate Span(end: nat, offset: nat, size: nat, n: nat) {
    n <= size && (n > 0 ==> offset + n <= end) && (n < size ==> end <= offset + n)
  }

  /** The bytes read are those of the range below `end`, all of them and in order. */
  ghost predicate ReadExact(s: Bytes, end: nat, offset: nat, size: nat, buf: Bytes)
    requires end <= |s|
  {
    && Span(end, offset, size, |buf|)
    && forall y | offset <= y < offset + size && y < end :: y - offset < |buf| && buf[y - offset] == s[y]
  }

  /** There is only one such answer to a read. */
  lemma {:induction false} ReadUnique(s: Bytes, end: nat, offset: nat, size: nat, a: Bytes, b: Bytes)
    requires end <= |s| && ReadExact(s, end, offset, size, a) && ReadExact(s, end, offset, size, b)
    ensures a == b
  {
    forall k | 0 <= k < |a|
      ensures k < |b| && a[k] == b[k]
    {
      assert s[offset + k] == a[offset + k - offset] == b[offset + k - offset];
    }
  }

  /** The flat array after an operation: only writes change it. */
  function Apply(s: Bytes, isize: nat, op: Op): (t: Bytes)
    ensures |t| == |s|
  {
    if op.WriteOp? && ClampTo(isize, op.offset, |op.buf|) <= |op.buf|
    then PokeAll(s, op.offset, op.buf[..ClampTo(isize, op.offset, |op.buf|)])
    else s
  }

  function ApplyAll(s: Bytes, isize: nat, ops: seq<Op>): (t: Bytes)
    ensures |t| == |s|
  {
    if ops == [] then s else Apply(ApplyAll(s, isize, ops[..|ops| - 1]), isize, ops[|ops| - 1])
  }

  // ------------------------------------------------------------------ single updates

  /** The device read of a page into its entry. */
  function Filled(e: Entry, disk: Bytes): Entry
    requires |e.bytes| == PAGE
  {
    var off := e.index * PAGE;
    if off >= |disk| then e
    else var n := if PAGE > |disk| - off then |disk| - off else PAGE; e.(bytes := disk[off..off + n] + e.bytes[n..])
  }

  lemma {:induction false} FilledAgrees(e: Entry, disk: Bytes)
    requires |e.bytes| == PAGE
    ensures Agrees(Filled(e, disk), disk)
  {
  }

  /** The device after the entry is written to it. */
  function Flushed(e: Entry, disk: Bytes): (d: Bytes)
    requires |e.bytes| == PAGE
    ensures |d| == |disk|
  {
    var off := e.index * PAGE;
    if off >= |disk| then disk
    else var n := if PAGE > |disk| - off then |disk| - off else PAGE; disk[..off] + e.bytes[..n] + disk[off + n..]
  }

  lemma {:induction false} FlushedAt(e: Entry, disk: Bytes, x: nat)
    requires |e.bytes| == PAGE && x < |disk|
    ensures Flushed(e, disk)[x] == if x / PAGE == e.index then e.bytes[x % PAGE] else disk[x]
  {
  }

  /** add_to_page_cache: a new clean entry at the head of its chain. */
  lemma {:induction false} AddHashed(E: Entries, hash: seq<seq<Ref>>, r: Ref, e: Entry)
    requires Hashed(E, hash) && r !in E
    ensures var b := e.index % PAGECACHE_HASH_SIZE; Hashed(E[r := e], hash[b := [r] + hash[b]])
  {
    var b := e.index % PAGECACHE_HASH_SIZE;
    var E', hash' := E[r := e], hash[b := [r] + hash[b]];
    assert ChainOk(E, hash[b], b);
    AppendOk(hash[b], r);
    forall c {:trigger ChainOk(E', hash'[c], c)} | 0 <= c < PAGECACHE_HASH_SIZE
      ensures ChainOk(E', hash'[c], c)
    {
      assert ChainOk(E, hash[c], c);
    }
    forall q {:trigger Chained(E', hash', q)} | q in E'
      ensures Chained(E', hash', q)
    {
      assert q == r || Chained(E, hash, q);
    }
  }

  lemma {:induction false} AddIndexed(E: Entries, cached: map<nat, Ref>, r: Ref, e: Entry)
    requires Indexed(E, cached) && r !in E && e.index !in cached
    ensures Indexed(E[r := e], cached[e.index := r])
  {
    forall q {:trigger Found(E[r := e], cached[e.index := r], q)} | q in E[r := e]
      ensures Found(E[r := e], cached[e.index := r], q)
    {
      assert q == r || Found(E, cached, q);
    }
  }

  lemma {:induction false} AddListed(E: Entries, clean: seq<Ref>, dirty: seq<Ref>, r: Ref, e: Entry)
    requires Listed(E, clean, dirty) && r !in E && !e.dirty
    ensures Listed(E[r := e], clean + [r], dirty)
  {
    assert OnList(E, clean, dirty, r);
    AppendOk(clean, r);
    forall q {:trigger OnList(E[r := e], clean + [r], dirty, q)}
      ensures OnList(E[r := e], clean + [r], dirty, q)
    {
      assert OnList(E, clean, dirty, q);
    }
  }

  /** New bytes or a new dirty flag leave the chains and the index alone. */
  lemma {:induction false} SetOk(E: Entries, hash: seq<seq<Ref>>, cached: map<nat, Ref>, r: Ref, e: Entry)
    requires Hashed(E, hash) && Indexed(E, cached) && r in E && e.index == E[r].index
    ensures Hashed(E[r := e], hash) && Indexed(E[r := e], cached)
  {
    var E' := E[r := e];
    forall c {:trigger ChainOk(E', hash[c], c)} | 0 <= c < PAGECACHE_HASH_SIZE
      ensures ChainOk(E', hash[c], c)
    {
      assert ChainOk(E, hash[c], c);
    }
    forall q | q in E'
      ensures Chained(E', hash, q) && Found(E', cached, q)
    {
      assert Chained(E, hash, q) && Found(E, cached, q);
    }
  }

  /** A clean entry becomes dirty, or a dirty one clean. */
  lemma {:induction false} MarkOk(E: Entries, clean: seq<Ref>, dirty: seq<Ref>, r: Ref, e: Entry)
    requires Listed(E, clean, dirty) && r in E
    ensures !E[r].dirty && e.dirty ==> Listed(E[r := e], Without(clean, r), dirty + [r])
    ensures E[r].dirty && !e.dirty ==> Listed(E[r := e], clean + [r], Without(dirty, r))
    ensures E[r].dirty == e.dirty ==> Listed(E[r := e], clean, dirty)
  {
    var clean' := if !E[r].dirty && e.dirty then Without(clean, r)
                  else if E[r].dirty && !e.dirty then clean + [r] else clean;
    var dirty' := if !E[r].dirty && e.dirty then dirty + [r]
                  else if E[r].dirty && !e.dirty then Without(dirty, r) else dirty;
    assert OnList(E, clean, dirty, r);
    if !E[r].dirty && e.dirty {
      WithoutOk(clean, r);
      AppendOk(dirty, r);
    }
    if E[r].dirty && !e.dirty {
      WithoutOk(dirty, r);
      AppendOk(clean, r);
    }
    forall q {:trigger OnList(E[r := e], clean', dirty', q)}
      ensures OnList(E[r := e], clean', dirty', q)
    {
      assert OnList(E, clean, dirty, q);
    }
  }

  /** page_cache_reclaim_one: an entry leaves its chain and the cache. */
  lemma {:induction false} RemoveHashed(E: Entries, hash: seq<seq<Ref>>, r: Ref)
    requires Hashed(E, hash) && r in E
    ensures var b := E[r].index % PAGECACHE_HASH_SIZE; Hashed(E - {r}, hash[b := Without(hash[b], r)])
  {
    var b := E[r].index % PAGECACHE_HASH_SIZE;
    var E', hash' := E - {r}, hash[b := Without(hash[b], r)];
    assert ChainOk(E, hash[b], b);
    WithoutOk(hash[b], r);
    forall c {:trigger ChainOk(E', hash'[c], c)} | 0 <= c < PAGECACHE_HASH_SIZE
      ensures ChainOk(E', hash'[c], c)
    {
      assert ChainOk(E, hash[c], c);
    }
    forall q {:trigger Chained(E', hash', q)} | q in E'
      ensures Chained(E', hash', q)
    {
      assert Chained(E, hash, q);
    }
  }

  lemma {:induction false} RemoveIndexed(E: Entries, cached: map<nat, Ref>, r: Ref)
    requires Indexed(E, cached) && r in E
    ensures Indexed(E - {r}, cached - {E[r].index})
  {
    assert Found(E, cached, r);
    forall q {:trigger Found(E - {r}, cached - {E[r].index}, q)} | q in E - {r}
      ensures Found(E - {r}, cached - {E[r].index}, q)
    {
      assert Found(E, cached, q);
    }
  }

  lemma {:induction false} RemoveListed(E: Entries, clean: seq<Ref>, dirty: seq<Ref>, r: Ref)
    requires Listed(E, clean, dirty) && r in E && !E[r].dirty
    ensures Listed(E - {r}, Without(clean, r), dirty)
  {
    WithoutOk(clean, r);
    forall q {:trigger OnList(E - {r}, Without(clean, r), dirty, q)}
      ensures OnList(E - {r}, Without(clean, r), dirty, q)
    {
      assert OnList(E, clean, dirty, q);
    }
  }

  lemma {:induction false} RemoveSynced(E: Entries, disk: Bytes, r: Ref)
    requires Synced(E, disk, 0)
    ensures Synced(E - {r}, disk, 0)
  {
    forall q {:trigger SyncedAt(E - {r}, disk, 0, q)} | q in E - {r}
      ensures SyncedAt(E - {r}, disk, 0, q)
    {
      assert SyncedAt(E, disk, 0, q);
    }
  }

  lemma {:induction false} SyncedBut(E: Entries, disk: Bytes, r: Ref)
    requires Synced(E, disk, 0) && 0 !in E
    ensures Synced(E, disk, r)
  {
    forall q {:trigger SyncedAt(E, disk, r, q)} | q in E
      ensures SyncedAt(E, disk, r, q)
    {
      assert SyncedAt(E, disk, 0, q);
    }
  }

  /** Setting one entry keeps the others in agreement. */
  lemma {:induction false} SetSynced(E: Entries, disk: Bytes, but: Ref, r: Ref, e: Entry)
    requires Synced(E, disk, but) && (but == 0 || but == r) && 0 !in E && r != 0 && |e.bytes| == PAGE
    requires e.index * PAGE < WORD
    ensures Synced(E[r := e], disk, r) && (e.dirty || Agrees(e, disk) ==> Synced(E[r := e], disk, 0))
  {
    forall q, b {:trigger SyncedAt(E[r := e], disk, b, q)} | q in E[r := e]
      && (b == r || (b == 0 && (e.dirty || Agrees(e, disk))))
      ensures SyncedAt(E[r := e], disk, b, q)
    {
      if q != r {
        assert SyncedAt(E, disk, but, q);
      }
    }
  }

  // ------------------------------------------------------------------ what updates do to the flat array

  /** An entry that agrees with the device could as well not be there. */
  lemma {:induction false} FlatAgrees(E: Entries, cached: map<nat, Ref>, disk: Bytes, i: nat)
    requires i in cached && cached[i] in E && E[cached[i]].index == i && Agrees(E[cached[i]], disk)
    ensures Flat(E, cached, disk) == Flat(E, cached - {i}, disk)
  {
    forall x | 0 <= x < |disk|
      ensures ByteAt(E, cached, disk, x) == ByteAt(E, cached - {i}, disk, x)
    {
      if x / PAGE == i {
        assert i * PAGE + x % PAGE == x;
      }
    }
  }

  /** Entries that the index does not lead to do not matter. */
  lemma {:induction false} FlatFrame(E: Entries, E': Entries, cached: map<nat, Ref>, disk: Bytes)
    requires forall i | i in cached :: cached[i] in E && cached[i] in E' && E'[cached[i]].bytes == E[cached[i]].bytes
    ensures Flat(E', cached, disk) == Flat(E, cached, disk)
  {
    forall x | 0 <= x < |disk|
      ensures ByteAt(E', cached, disk, x) == ByteAt(E, cached, disk, x)
    {
    }
  }

  /** Bytes copied into an entry. */
  function Patched(e: Entry, po: nat, chunk: Bytes): Entry
    requires |e.bytes| == PAGE && po + |chunk| <= PAGE
  {
    e.(bytes := e.bytes[..po] + chunk + e.bytes[po + |chunk|..])
  }

  lemma {:induction false} FlatPatched(E: Entries, cached: map<nat, Ref>, disk: Bytes, r: Ref, po: nat, chunk: Bytes,
                                       dirty: bool)
    requires Indexed(E, cached) && r in E && |E[r].bytes| == PAGE && po + |chunk| <= PAGE
    requires E[r].index * PAGE + PAGE <= WORD
    ensures Flat(E[r := Patched(E[r], po, chunk).(dirty := dirty)], cached, disk) ==
              PokeAll(Flat(E, cached, disk), E[r].index * PAGE + po, chunk)
  {
    var E' := E[r := Patched(E[r], po, chunk).(dirty := dirty)];
    var s, off := Flat(E, cached, disk), E[r].index * PAGE + po;
    forall x | 0 <= x < |disk|
      ensures ByteAt(E', cached, disk, x) == PokeAll(s, off, chunk)[x]
    {
      PokeAllAt(s, off, chunk, x);
      PatchedByte(E, cached, disk, r, po, chunk, dirty, x);
    }
  }

  lemma {:induction false} PatchedByte(E: Entries, cached: map<nat, Ref>, disk: Bytes, r: Ref, po: nat, chunk: Bytes,
                                       dirty: bool, x: nat)
    requires Indexed(E, cached) && r in E && |E[r].bytes| == PAGE && po + |chunk| <= PAGE && x < |disk|
    ensures var off := E[r].index * PAGE + po;
            ByteAt(E[r := Patched(E[r], po, chunk).(dirty := dirty)], cached, disk, x) ==
            if off <= x < off + |chunk| then chunk[x - off] else ByteAt(E, cached, disk, x)
  {
    if x / PAGE == E[r].index {
      PatchedAt(E[r], po, chunk, x);
      assert Found(E, cached, r);
    } else if x / PAGE in cached {
      assert cached[x / PAGE] != r;
    }
  }

  lemma {:induction false} PatchedAt(e: Entry, po: nat, chunk: Bytes, x: nat)
    requires |e.bytes| == PAGE && po + |chunk| <= PAGE && x / PAGE == e.index
    ensures var off := e.index * PAGE + po;
            Patched(e, po, chunk).bytes[x % PAGE] == if off <= x < off + |chunk| then chunk[x - off]
              else e.bytes[x % PAGE]
  {
    assert x == e.index * PAGE + x % PAGE;
  }

  /** A whole page overwritten: what the page held before does not matter. */
  lemma {:induction false} FlatCovered(E: Entries, cached: map<nat, Ref>, disk: Bytes, i: nat, chunk: Bytes)
    requires |chunk| == PAGE && i * PAGE + PAGE <= WORD
    ensures PokeAll(Flat(E, cached, disk), i * PAGE, chunk) == PokeAll(Flat(E, cached - {i}, disk), i * PAGE, chunk)
  {
    var s, t := Flat(E, cached, disk), Flat(E, cached - {i}, disk);
    forall x | 0 <= x < |disk|
      ensures PokeAll(s, i * PAGE, chunk)[x] == PokeAll(t, i * PAGE, chunk)[x]
    {
      PokeAllAt(s, i * PAGE, chunk, x);
      PokeAllAt(t, i * PAGE, chunk, x);
      if x / PAGE != i {
        assert ByteAt(E, cached, disk, x) == ByteAt(E, cached - {i}, disk, x);
      } else {
        assert i * PAGE <= x < i * PAGE + PAGE;
      }
    }
  }

  /** Writing a dirty entry back changes neither the flat array nor any other entry's agreement. */
  lemma {:induction false} FlushOk(E: Entries, cached: map<nat, Ref>, disk: Bytes, r: Ref)
    requires Indexed(E, cached) && Synced(E, disk, 0) && r in E && 0 !in E && |E[r].bytes| == PAGE
    ensures var E', disk' := E[r := E[r].(dirty := false)], Flushed(E[r], disk);
            Synced(E', disk', 0) && Flat(E', cached, disk') == Flat(E, cached, disk)
  {
    var E', disk' := E[r := E[r].(dirty := false)], Flushed(E[r], disk);
    assert SyncedAt(E, disk, 0, r) && Found(E, cached, r);
    forall x | 0 <= x < |disk|
      ensures disk'[x] == if x / PAGE == E[r].index then E[r].bytes[x % PAGE] else disk[x]
      ensures ByteAt(E', cached, disk', x) == ByteAt(E, cached, disk, x)
    {
      FlushedAt(E[r], disk, x);
    }
    forall q {:trigger SyncedAt(E', disk', 0, q)} | q in E'
      ensures SyncedAt(E', disk', 0, q)
    {
      assert SyncedAt(E, disk, 0, q);
      if !E'[q].dirty {
        FlushAgrees(E, cached, disk, r, q);
      }
    }
  }

  lemma {:induction false} FlushAgrees(E: Entries, cached: map<nat, Ref>, disk: Bytes, r: Ref, q: Ref)
    requires Indexed(E, cached) && r in E && q in E && |E[r].bytes| == |E[q].bytes| == PAGE
    requires (q == r || Agrees(E[q], disk))
    ensures Agrees(E[q].(dirty := false), Flushed(E[r], disk))
  {
    var disk' := Flushed(E[r], disk);
    assert Found(E, cached, r) && Found(E, cached, q);
    forall k | 0 <= k < PAGE && E[q].index * PAGE + k < |disk'|
      ensures E[q].bytes[k] == disk'[E[q].index * PAGE + k]
    {
      var x := E[q].index * PAGE + k;
      FlushedAt(E[r], disk, x);
      assert x / PAGE == E[q].index && x % PAGE == k;
      if q != r {
        assert E[q].index != E[r].index;
      }
    }
  }
}
