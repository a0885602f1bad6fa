/** radix_tree_gang_lookup: the stored items from a given index on, in ascending order. */
module RadixGang {
  import opened RadixModel
  import opened RadixTree

  /** `keys` are the first `max` stored keys from `first` on, as far as keys below `hi` are concerned. */
  ghost predicate Gang(items: map<nat, nat>, keys: seq<nat>, first: nat, hi: nat, max: nat) {
    && |keys| <= max
    && (forall i, j | 0 <= i < j < |keys| :: keys[i] < keys[j])
    && (forall i | 0 <= i < |keys| :: keys[i] in items && first <= keys[i] < hi)
    && (forall k | k in items && first <= k < hi ::
         k in keys || (|keys| == max && forall i | 0 <= i < |keys| :: keys[i] < k))
  }

  /** The items found are those of `keys`, in order. */
  ghost predicate Fetched(items: map<nat, nat>, keys: seq<nat>, results: seq<nat>) {
    |results| == |keys| && forall i | 0 <= i < |keys| :: keys[i] in items && results[i] == items[keys[i]]
  }

  /** Nothing is stored from `lo` to `hi`, or the buffer is full. */
  lemma {:induction false} GangSkip(items: map<nat, nat>, keys: seq<nat>, first: nat, lo: nat, hi: nat, max: nat)
    requires Gang(items, keys, first, lo, max) && lo <= hi
    requires |keys| == max || forall k | k in items && lo <= k < hi :: k < first
    ensures Gang(items, keys, first, hi, max)
  {
  }

  lemma {:induction false} GangAdd(items: map<nat, nat>, keys: seq<nat>, first: nat, k: nat, max: nat)
    requires Gang(items, keys, first, k, max) && |keys| < max && k in items && first <= k
    ensures Gang(items, keys + [k], first, k + 1, max)
  {
  }

  /** One more key: listed with its item if it is stored and wanted. */
  lemma {:induction false} GangOne(items: map<nat, nat>, keys: seq<nat>, results: seq<nat>, first: nat, k: nat,
                                   max: nat)
    requires Gang(items, keys, first, k, max) && |keys| < max && Fetched(items, keys, results)
    ensures if first <= k && k in items
            then Gang(items, keys + [k], first, k + 1, max) && Fetched(items, keys + [k], results + [items[k]])
            else Gang(items, keys, first, k + 1, max)
  {
    if first <= k && k in items {
      GangAdd(items, keys, first, k, max);
    } else {
      GangSkip(items, keys, first, k, k + 1, max);
    }
  }

  /** There is only one such list. */
  lemma {:induction false} GangUnique(items: map<nat, nat>, keys: seq<nat>, keys': seq<nat>, first: nat, hi: nat,
                                      max: nat)
    requires Gang(items, keys, first, hi, max) && Gang(items, keys', first, hi, max)
    ensures keys == keys'
  {
    forall i | 0 <= i < |keys| && i < |keys'|
      ensures keys[i] == keys'[i]
    {
      SamePrefix(items, keys, keys', first, hi, max, i);
    }
    if |keys| < |keys'| {
      GangMore(items, keys, keys', first, hi, max);
    } else if |keys'| < |keys| {
      GangMore(items, keys', keys, first, hi, max);
    }
  }

  lemma {:induction false} GangMore(items: map<nat, nat>, keys: seq<nat>, keys': seq<nat>, first: nat, hi: nat,
                                    max: nat)
    requires Gang(items, keys, first, hi, max) && Gang(items, keys', first, hi, max)
    requires forall i | 0 <= i < |keys| && i < |keys'| :: keys[i] == keys'[i]
    ensures |keys'| <= |keys|
  {
    var k := if |keys| < |keys'| then keys'[|keys|] else hi;
    assert k < hi ==> k in items && first <= k;
    assert |keys| < max && k < hi ==> k in keys;
  }

  lemma {:induction false} SamePrefix(items: map<nat, nat>, keys: seq<nat>, keys': seq<nat>, first: nat, hi: nat,
                                      max: nat, n: nat)
    requires Gang(items, keys, first, hi, max) && Gang(items, keys', first, hi, max) && n < |keys| && n < |keys'|
    ensures keys[n] == keys'[n]
    decreases n
  {
    forall i | 0 <= i < n
      ensures keys[i] == keys'[i]
    {
      SamePrefix(items, keys, keys', first, hi, max, i);
    }
    NotLess(items, keys, keys', first, hi, max, n);
    NotLess(items, keys', keys, first, hi, max, n);
  }

  lemma {:induction false} NotLess(items: map<nat, nat>, keys: seq<nat>, keys': seq<nat>, first: nat, hi: nat, max: nat,
                                   n: nat)
    requires Gang(items, keys, first, hi, max) && Gang(items, keys', first, hi, max) && n < |keys| && n < |keys'|
    requires forall i | 0 <= i < n :: keys[i] == keys'[i]
    ensures keys[n] <= keys'[n]
  {
  }

  // ------------------------------------------------------------------ key ranges of nodes

  lemma {:induction false} LowAdd(h: nat, p: nat, q: nat)
    ensures Low(h, p + q) == Low(h, p) + Low(h, q)
  {
    if h > 0 {
      LowAdd(h - 1, p * SIZE, q * SIZE);
    }
  }

  /** A key is in a node's range exactly when it has the node's prefix. */
  lemma {:induction false} InRange(k: nat, h: nat, p: nat)
    ensures Low(h, p) <= k < Low(h, p + 1) <==> Prefix(k, h) == p
  {
    LowPrefix(k, h);
    PrefixHigh(k, h);
    if Prefix(k, h) < p {
      LowMono(h, Prefix(k, h) + 1, p);
    } else if Prefix(k, h) > p {
      LowMono(h, p + 1, Prefix(k, h));
    }
  }

  /** Ranges below the top level end at or before 2^32. */
  lemma {:induction false} LowBound(j: nat, q: nat)
    requires 1 <= j <= 5 && Low(j, q) < LIMIT
    ensures Low(j, q + 1) <= LIMIT && MaxIndex(j) == Low(j, 1) - 1
  {
    LowClosed(q);
    LowClosed(q + 1);
    LowClosed(1);
    MaxIndexes();
  }

  lemma {:induction false} LowClosed(q: nat)
    ensures Low(1, q) == 0x40 * q && Low(2, q) == 0x1000 * q && Low(3, q) == 0x4_0000 * q
    ensures Low(4, q) == 0x100_0000 * q && Low(5, q) == 0x4000_0000 * q
  {
    Low3(q);
    Low3(q * SIZE);
    Low3(q * SIZE * SIZE);
    assert Low(4, q) == Low(3, q * SIZE) && Low(5, q) == Low(4, q * SIZE) == Low(3, q * SIZE * SIZE);
  }

  lemma {:induction false} Low3(q: nat)
    ensures Low(1, q) == 0x40 * q && Low(2, q) == 0x1000 * q && Low(3, q) == 0x4_0000 * q
  {
    assert Low(2, q) == Low(1, q * SIZE) && Low(3, q) == Low(2, q * SIZE) == Low(1, q * SIZE * SIZE);
    assert Low(1, q) == Low(0, q * SIZE) && Low(1, q * SIZE) == Low(0, q * SIZE * SIZE)
             && Low(1, q * SIZE * SIZE) == Low(0, q * SIZE * SIZE * SIZE);
  }

  /** Without a node there are no keys in its range. */
  lemma {:induction false} NoKeys(t: Tree, s: Shape, h: nat, p: nat, k: nat)
    requires Ok(t, s) && 1 <= h <= t.height && Place(h, p) !in s.at && k in s.items
    ensures !(Low(h, p) <= k < Low(h, p + 1))
  {
    InRange(k, h, p);
    KeyPath(t, s, k, h);
  }

  /** What the walk knows about the child in slot `i` of the node at `Place(h, p)`. */
  lemma {:induction false} ChildAt(t: Tree, s: Shape, h: nat, p: nat, i: nat)
    requires Ok(t, s) && h > 0 && i < SIZE && Place(h, p) in s.at
    ensures var x := s.at[Place(h, p)];
            && x in t.nodes && x != 0 && 1 <= h <= t.height <= 6 && |t.nodes[x].slots| == SIZE
            && t.nodes[x].slots[i] == SlotOf(s, Place(h, p), i)
            && (h > 1 && Place(h - 1, p * SIZE + i) in s.at ==>
                 s.at[Place(h - 1, p * SIZE + i)] != 0 && Low(h - 1, p * SIZE + i) < LIMIT)
    ensures Low(h - 1, p * SIZE + i) == Low(h, p) + Low(h - 1, i)
    ensures Low(h, p + 1) == Low(h - 1, p * SIZE + SIZE) && Low(h, p) == Low(h - 1, p * SIZE) < LIMIT
  {
    assert NodeOk(t, s, Place(h, p));
    LowAdd(h - 1, p * SIZE, i);
    if h > 1 && Place(h - 1, p * SIZE + i) in s.at {
      assert NodeOk(t, s, Place(h - 1, p * SIZE + i));
    }
  }

  /** Slot `i` of a leaf holds the item of its key. */
  lemma {:induction false} LeafSlot(t: Tree, s: Shape, p: nat, i: nat)
    requires Ok(t, s) && i < SIZE && Place(1, p) in s.at
    ensures var x, k := s.at[Place(1, p)], Low(1, p) + i;
            && x in t.nodes && |t.nodes[x].slots| == SIZE
            && (k in s.items <==> t.nodes[x].slots[i] != 0) && (k in s.items ==> s.items[k] == t.nodes[x].slots[i])
  {
    Low3(p);
    ChildAt(t, s, 1, p, i);
  }

  /** The first and last key of a child, as computed in 32 bits. */
  function ChildBase(base: nat, h: nat, i: nat): nat
    requires h > 0
  {
    (base + Low(h - 1, i)) % LIMIT
  }

  function ChildLast(base: nat, max: nat): nat {
    var last := (base + max) % LIMIT;
    if last < base then LIMIT - 1 else last
  }

  lemma {:induction false} ChildLastIs(j: nat, q: nat)
    requires 1 <= j <= 5 && Low(j, q) < LIMIT
    ensures ChildLast(Low(j, q), MaxIndex(j)) == Low(j, q + 1) - 1
  {
    LowBound(j, q);
    LowAdd(j, q, 1);
    Fits(Low(j, q), Low(j, 1));
  }

  lemma {:induction false} Fits(lo: nat, n: nat)
    requires n > 0 && lo + n <= LIMIT
    ensures ChildLast(lo, n - 1) == lo + n - 1
  {
  }

  /** The child in a slot, and where its keys begin. */
  lemma {:induction false} ChildEnter(t: Tree, s: Shape, h: nat, p: nat, i: nat)
    requires Ok(t, s) && 1 < h <= t.height && i < SIZE && Place(h, p) in s.at
    ensures var x, b := s.at[Place(h, p)], Place(h - 1, p * SIZE + i);
            && x in t.nodes && |t.nodes[x].slots| == SIZE && t.nodes[x].slots[i] == (if b in s.at then s.at[b] else 0)
            && (t.nodes[x].slots[i] != 0 ==> ChildBase(Low(h, p), h, i) == Low(h - 1, p * SIZE + i))
  {
    ChildAt(t, s, h, p, i);
  }

  /** The test that skips a child: its keys all come before `first`, or it has none. */
  lemma {:induction false} ChildSkip(t: Tree, s: Shape, h: nat, p: nat, i: nat, first: nat, keys: seq<nat>, max: nat)
    requires Ok(t, s) && h > 1 && i < SIZE && Place(h, p) in s.at && h <= t.height
    requires Gang(s.items, keys, first, Low(h - 1, p * SIZE + i), max)
    requires ChildLast(ChildBase(Low(h, p), h, i), MaxIndex(h - 1)) < first
    ensures Gang(s.items, keys, first, Low(h - 1, p * SIZE + i + 1), max)
  {
    assert NodeOk(t, s, Place(h, p));
    var lo, hi := Low(h - 1, p * SIZE + i), Low(h - 1, p * SIZE + i + 1);
    LowMono(h - 1, p * SIZE + i, p * SIZE + i + 1);
    ChildBefore(h, p, i, first);
    GangSkip(s.items, keys, first, lo, hi, max);
  }

  lemma {:induction false} ChildBefore(h: nat, p: nat, i: nat, first: nat)
    requires 1 < h <= 6 && ChildLast(ChildBase(Low(h, p), h, i), MaxIndex(h - 1)) < first
    ensures Low(h - 1, p * SIZE + i) < LIMIT ==> Low(h - 1, p * SIZE + i + 1) <= first
  {
    var q := p * SIZE + i;
    if Low(h - 1, q) < LIMIT {
      ChildBaseIs(h, p, i);
      ChildLastIs(h - 1, q);
    }
  }

  lemma {:induction false} ChildBaseIs(h: nat, p: nat, i: nat)
    requires h > 0 && Low(h - 1, p * SIZE + i) < LIMIT
    ensures ChildBase(Low(h, p), h, i) == Low(h - 1, p * SIZE + i)
  {
    LowAdd(h - 1, p * SIZE, i);
  }

  /** The walk over one leaf. */
  method GangLeaf(root: RadixRoot, node: Ref, base: nat, first: nat, max: nat, results0: seq<nat>, ghost p: nat,
                  ghost keys0: seq<nat>)
    returns (results: seq<nat>, ghost keys: seq<nat>)
    requires root.Valid() && Place(1, p) in root.shape.at && node == root.shape.at[Place(1, p)] && base == Low(1, p)
    requires Gang(root.Items(), keys0, first, base, max) && Fetched(root.Items(), keys0, results0)
    ensures Gang(root.Items(), keys, first, Low(1, p + 1), max) && Fetched(root.Items(), keys, results)
  {
    results, keys := results0, keys0;
    var i := 0;
    Low3(p);
    Low3(p + 1);
    ChildAt(root.T(), root.shape, 1, p, 0);
    while i < SIZE && |results| < max
      invariant i <= SIZE && Gang(root.Items(), keys, first, base + i, max) && Fetched(root.Items(), keys, results)
    {
      results, keys := GangSlot(root, node, base, i, first, max, results, p, keys);
      i := i + 1;
    }
    GangSkip(root.Items(), keys, first, base + i, Low(1, p + 1), max);
  }

  /** One slot of a leaf. */
  method GangSlot(root: RadixRoot, node: Ref, base: nat, i: nat, first: nat, max: nat, results0: seq<nat>, ghost p: nat,
                  ghost keys0: seq<nat>)
    returns (results: seq<nat>, ghost keys: seq<nat>)
    requires root.Valid() && Place(1, p) in root.shape.at && node == root.shape.at[Place(1, p)] && base == Low(1, p)
    requires i < SIZE
    requires Gang(root.Items(), keys0, first, base + i, max) && Fetched(root.Items(), keys0, results0)
    requires |results0| < max
    ensures Gang(root.Items(), keys, first, base + i + 1, max) && Fetched(root.Items(), keys, results)
  {
    results, keys := results0, keys0;
    var index := base + i;
    LeafSlot(root.T(), root.shape, p, i);
    GangOne(root.Items(), keys, results, first, index, max);
    if index >= first && root.nodes[node].slots[i] != 0 {
      results, keys := results + [root.nodes[node].slots[i]], keys + [index];
    }
  }

  /** radix_tree_gang_lookup_node; `results` grows up to `max` entries. */
  method GangNode(root: RadixRoot, node: Ref, h: nat, base: nat, first: nat, max: nat, results0: seq<nat>, ghost p: nat,
                  ghost keys0: seq<nat>)
    returns (results: seq<nat>, ghost keys: seq<nat>)
    requires root.Valid() && 1 <= h <= root.height
    requires node == if Place(h, p) in root.shape.at then root.shape.at[Place(h, p)] else 0
    requires node != 0 ==> base == Low(h, p)
    requires Gang(root.Items(), keys0, first, Low(h, p), max) && Fetched(root.Items(), keys0, results0)
    ensures Gang(root.Items(), keys, first, Low(h, p + 1), max) && Fetched(root.Items(), keys, results)
    decreases h, 1
  {
    results, keys := results0, keys0;
    LowMono(h, p, p + 1);
    if node == 0 || |results| == max {
      GangNull(root.T(), root.shape, h, p, first, keys, max);
      return;
    }
    if h == 1 {
      results, keys := GangLeaf(root, node, base, first, max, results, p, keys);
      return;
    }
    results, keys := GangInner(root, node, h, base, first, max, results, p, keys);
  }

  /** The walk over the children of a node above the leaves. */
  method GangInner(root: RadixRoot, node: Ref, h: nat, base: nat, first: nat, max: nat, results0: seq<nat>,
                   ghost p: nat, ghost keys0: seq<nat>)
    returns (results: seq<nat>, ghost keys: seq<nat>)
    requires root.Valid() && 1 < h <= root.height && Place(h, p) in root.shape.at && node == root.shape.at[Place(h, p)]
    requires base == Low(h, p)
    requires Gang(root.Items(), keys0, first, base, max) && Fetched(root.Items(), keys0, results0)
    ensures Gang(root.Items(), keys, first, Low(h, p + 1), max) && Fetched(root.Items(), keys, results)
    decreases h, 0
  {
    results, keys := results0, keys0;
    var i := 0;
    ChildAt(root.T(), root.shape, h, p, 0);
    while i < SIZE && |results| < max
      invariant i <= SIZE && Gang(root.Items(), keys, first, Low(h - 1, p * SIZE + i), max)
      invariant Fetched(root.Items(), keys, results)
    {
      results, keys := GangChild(root, node, h, base, i, first, max, results, p, keys);
      i := i + 1;
    }
    LowMono(h - 1, p * SIZE + i, p * SIZE + SIZE);
    GangSkip(root.Items(), keys, first, Low(h - 1, p * SIZE + i), Low(h, p + 1), max);
  }

  /** One child of that walk: skipped if it ends before `first`, searched otherwise. */
  method GangChild(root: RadixRoot, node: Ref, h: nat, base: nat, i: nat, first: nat, max: nat, results0: seq<nat>,
                   ghost p: nat, ghost keys0: seq<nat>)
    returns (results: seq<nat>, ghost keys: seq<nat>)
    requires root.Valid() && 1 < h <= root.height && Place(h, p) in root.shape.at && node == root.shape.at[Place(h, p)]
    requires base == Low(h, p)
    requires i < SIZE && Gang(root.Items(), keys0, first, Low(h - 1, p * SIZE + i), max)
    requires Fetched(root.Items(), keys0, results0)
    ensures Gang(root.Items(), keys, first, Low(h - 1, p * SIZE + i + 1), max) && Fetched(root.Items(), keys, results)
    decreases h - 1, 2
  {
    var childBase := ChildBase(base, h, i);
    var maxIndex := root.MaxIndexOf(h - 1);
    if ChildLast(childBase, maxIndex) < first {
      ChildSkip(root.T(), root.shape, h, p, i, first, keys0, max);
      results, keys := results0, keys0;
    } else {
      ChildEnter(root.T(), root.shape, h, p, i);
      results, keys := GangNode(root, root.nodes[node].slots[i], h - 1, childBase, first, max, results0, p * SIZE + i,
        keys0);
    }
  }

  lemma {:induction false} GangNull(t: Tree, s: Shape, h: nat, p: nat, first: nat, keys: seq<nat>, max: nat)
    requires Ok(t, s) && 1 <= h <= t.height && (Place(h, p) !in s.at || |keys| == max)
    requires Gang(s.items, keys, first, Low(h, p), max) && Low(h, p) <= Low(h, p + 1)
    ensures Gang(s.items, keys, first, Low(h, p + 1), max)
  {
    if Place(h, p) !in s.at {
      forall k | k in s.items
        ensures !(Low(h, p) <= k < Low(h, p + 1))
      {
        NoKeys(t, s, h, p, k);
      }
    }
    GangSkip(s.items, keys, first, Low(h, p), Low(h, p + 1), max);
  }

  /** `results` are the first `max` items with a key from `first` on, in ascending order of their keys. */
  ghost predicate FirstItems(items: map<nat, nat>, first: nat, max: nat, results: seq<nat>) {
    exists keys :: Gang(items, keys, first, LIMIT, max) && Fetched(items, keys, results)
  }

  /** There is only one such list of items. */
  lemma {:induction false} FirstItemsUnique(items: map<nat, nat>, first: nat, max: nat, results: seq<nat>,
                                            results': seq<nat>)
    requires FirstItems(items, first, max, results) && FirstItems(items, first, max, results')
    ensures results == results'
  {
    var keys :| Gang(items, keys, first, LIMIT, max) && Fetched(items, keys, results);
    var keys' :| Gang(items, keys', first, LIMIT, max) && Fetched(items, keys', results');
    GangUnique(items, keys, keys', first, LIMIT, max);
  }

  /** radix_tree_gang_lookup */
  method GangLookup(root: RadixRoot, first: nat, max: nat) returns (results: seq<nat>)
    requires root.Valid()
    ensures FirstItems(root.Items(), first, max, results)
  {
    ghost var keys: seq<nat> := [];
    if root.rnode == 0 || max == 0 {
      results := [];
      forall k | k in root.Items() && root.rnode == 0
        ensures false
      {
        KeyRange(root.T(), root.shape, k);
      }
      assert Gang(root.Items(), keys, first, LIMIT, max) && Fetched(root.Items(), keys, results);
      return;
    }
    LowZero(root.height);
    results, keys := GangNode(root, root.rnode, root.height, 0, first, max, [], 0, []);
    forall k | k in root.Items()
      ensures k < Low(root.height, 1)
    {
      KeyRange(root.T(), root.shape, k);
      InRange(k, root.height, 0);
    }
    GangWiden(root.Items(), keys, first, Low(root.height, 1), LIMIT, max);
  }

  lemma {:induction false} GangWiden(items: map<nat, nat>, keys: seq<nat>, first: nat, lo: nat, hi: nat, max: nat)
    requires Gang(items, keys, first, lo, max) && forall k | k in items :: k < lo && k < hi
    ensures Gang(items, keys, first, hi, max)
  {
  }
}
