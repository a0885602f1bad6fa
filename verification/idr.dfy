/** lib/idr.c: small integer ids handed out over a radix tree. */
module Idr {
  import opened RadixModel
  import opened RadixTree
  import opened RadixGang

  const INT_MAX: int := 0x7FFF_FFFF
  const EINVAL: int := -22
  const ENOSPC: int := -28

  class IdrTable {
    const tree: RadixRoot
    var cur: nat

    ghost function Items(): map<nat, nat>
      reads this, tree
    {
      tree.Items()
    }

    ghost predicate Valid()
      reads this, tree
    {
      tree.Valid() && cur <= INT_MAX && forall k | k in Items() :: k <= INT_MAX
    }

    /** Every id below `cur` is in use. */
    ghost predicate Dense()
      reads this, tree
    {
      forall i: nat | i < cur :: i in Items()
    }

    /** idr_init */
    constructor ()
      ensures Valid() && Dense() && Items() == map[] && fresh(tree)
    {
      tree := new RadixRoot();
      cur := 0;
    }

    /** idr_alloc */
    method Alloc(ptr: nat, start: int, end0: int) returns (r: int)
      requires Valid() && ptr != 0 && end0 <= INT_MAX
      modifies this, tree
      ensures Valid()
      ensures var end := if end0 <= 0 then INT_MAX else end0;
              if start < 0 || start >= end then r == EINVAL && Items() == old(Items()) && cur == old(cur)
              else if r < 0 then r == ENOSPC && Items() == old(Items()) && cur == old(cur)
                     && forall i: nat | start <= i < end :: i in Items()
              else start <= r < end && r !in old(Items()) && (forall i: nat | start <= i < r :: i in old(Items()))
                   && Items() == old(Items())[r := ptr] && cur == r + 1
    {
      if start < 0 {
        return EINVAL;
      }
      var end := if end0 <= 0 then INT_MAX else end0;
      if start >= end {
        return EINVAL;
      }
      var id: nat := start;
      while id < end
        invariant start <= id <= end && Valid() && Items() == old(Items()) && cur == old(cur)
        invariant forall i: nat | start <= i < id :: i in Items()
      {
        var item := tree.Lookup(id);
        if item == 0 {
          assert id !in Items();
          var err := tree.Insert(id, ptr);
          cur := id + 1;
          return id;
        }
        id := id + 1;
      }
      return ENOSPC;
    }

    /** idr_get_new: the least unused id, as long as ids come only from here */
    method GetNew(ptr: nat) returns (err: int, id: nat)
      requires Valid() && Dense() && ptr != 0
      modifies this, tree
      ensures Valid() && Dense()
      ensures err == 0 ==> id !in old(Items()) && Items() == old(Items())[id := ptr]
      ensures err == 0 ==> cur == id + 1 && forall i: nat | i < id :: i in old(Items())
      ensures err != 0 ==> err < 0 && Items() == old(Items()) && forall i: nat | i < INT_MAX :: i in Items()
    {
      id := 0;
      var ret := Alloc(ptr, cur, 0);
      if ret < 0 && cur > 0 {
        ret := Alloc(ptr, 0, cur);
      }
      if ret < 0 {
        return ret, 0;
      }
      return 0, ret;
    }

    /** idr_find */
    method Find(id: int) returns (ptr: nat)
      requires Valid() && id <= INT_MAX
      ensures ptr == if id >= 0 && id in Items() then Items()[id] else 0
    {
      if id < 0 {
        return 0;
      }
      ptr := tree.Lookup(id);
    }

    /** idr_remove */
    method Remove(id: int)
      requires Valid() && id <= INT_MAX
      modifies this, tree
      ensures Valid() && (old(Dense()) ==> Dense())
      ensures Items() == (if id >= 0 then old(Items()) - {id} else old(Items()))
      ensures cur == if 0 <= id < old(cur) && id in old(Items()) then id else old(cur)
    {
      if id < 0 {
        return;
      }
      assert id in Items() ==> Items()[id] != 0 by {
        assert Rooted(tree.T(), tree.shape);
      }
      var item := tree.Delete(id);
      assert item == 0 ==> Items() == old(Items());
      if item != 0 && id < cur {
        cur := id;
      }
    }

    /** idr_get_next: the least id in use from `start` on, with its pointer; NULL if there is none */
    method GetNext(start: int) returns (ptr: nat, id: nat)
      requires Valid() && start <= INT_MAX
      ensures if start < 0 then ptr == 0 else Following(Items(), start, ptr, id)
    {
      if start < 0 {
        return 0, 0;
      }
      if tree.rnode == 0 {
        NoItems(tree.T(), tree.shape);
        return 0, 0;
      }
      LowZero(tree.height);
      ptr, id := NextNode(tree, tree.rnode, tree.height, 0, start, 0);
      forall k | k in Items()
        ensures 0 <= k < Low(tree.height, 1)
      {
        KeyRange(tree.T(), tree.shape, k);
        InRange(k, tree.height, 0);
      }
    }

    /** idr_for_each with a callback that leaves the table alone: visits the ids in use in ascending order,
        until the callback returns a value other than 0. */
    method ForEach(fn: (nat, nat) -> int) returns (ret: int, visited: seq<nat>)
      requires Valid()
      ensures ret == 0 ==> UpTo(Items(), visited, INT_MAX + 1) && Quiet(fn, Items(), visited)
      ensures ret != 0 ==> visited != [] && StoppedAt(fn, Items(), visited, ret)
    {
      visited := [];
      var id := 0;
      var ptr, next := GetNext(id);
      while ptr != 0
        invariant 0 <= id <= INT_MAX && UpTo(Items(), visited, id) && Quiet(fn, Items(), visited)
        invariant Following(Items(), id, ptr, next)
        decreases INT_MAX - id, ptr
      {
        ret := fn(next, ptr);
        UpToNext(Items(), visited, id, ptr, next);
        visited := visited + [next];
        if ret != 0 {
          return ret, visited;
        }
        QuietNext(fn, Items(), visited);
        if next == INT_MAX {
          break;
        }
        id := next + 1;
        ptr, next := GetNext(id);
      }
      ret := 0;
    }
  }

  /** `visited` are the ids below `id`, in ascending order. */
  ghost predicate UpTo(items: map<nat, nat>, visited: seq<nat>, id: nat) {
    && (forall i, j | 0 <= i < j < |visited| :: visited[i] < visited[j])
    && (forall i | 0 <= i < |visited| :: visited[i] in items && visited[i] < id)
    && (forall k | k in items && k < id :: k in visited)
  }

  /** `next` is the least id in use from `id` on and `ptr` its pointer; `ptr` is NULL exactly when there is none. */
  ghost predicate Following(items: map<nat, nat>, id: nat, ptr: nat, next: nat) {
    && (ptr == 0 <==> forall k | k in items :: k < id)
    && (ptr != 0 ==> next in items && items[next] == ptr && id <= next && forall k | k in items && id <= k :: next <= k)
  }

  lemma {:induction false} UpToNext(items: map<nat, nat>, visited: seq<nat>, id: nat, ptr: nat, next: nat)
    requires UpTo(items, visited, id) && ptr != 0 && Following(items, id, ptr, next)
    ensures UpTo(items, visited + [next], next + 1) && (visited + [next])[..|visited|] == visited
  {
  }

  /** The callback returned 0 for every id. */
  ghost predicate Quiet(fn: (nat, nat) -> int, items: map<nat, nat>, visited: seq<nat>) {
    forall i | 0 <= i < |visited| :: visited[i] in items && fn(visited[i], items[visited[i]]) == 0
  }

  /** The callback returned 0 for every id but the last, where it returned `ret`. */
  ghost predicate StoppedAt(fn: (nat, nat) -> int, items: map<nat, nat>, visited: seq<nat>, ret: int)
    requires visited != []
  {
    var last := visited[|visited| - 1];
    UpTo(items, visited, last + 1) && Quiet(fn, items, visited[..|visited| - 1]) && last in items
      && fn(last, items[last]) == ret
  }

  lemma {:induction false} QuietNext(fn: (nat, nat) -> int, items: map<nat, nat>, visited: seq<nat>)
    requires visited != [] && Quiet(fn, items, visited[..|visited| - 1])
    requires var k := visited[|visited| - 1]; k in items && fn(k, items[k]) == 0
    ensures Quiet(fn, items, visited)
  {
  }

  /** The leaf case of idr_get_next_node. */
  method NextInLeaf(root: RadixRoot, node: Ref, base: nat, start: nat, ghost p: nat) returns (ptr: nat, id: nat)
    requires root.Valid() && Place(1, p) in root.shape.at && node == root.shape.at[Place(1, p)]
    requires base == Low(1, p) <= INT_MAX
    ensures NextIs(root.Items(), start, base, Low(1, p + 1), ptr, id)
  {
    Low3(p);
    Low3(p + 1);
    var first := if start > base then start - base else 0;
    var offset := first;
    ChildAt(root.T(), root.shape, 1, p, 0);
    while offset < SIZE
      invariant first <= offset
      invariant forall k | k in root.Items() && start <= k && base <= k < base + offset :: k > INT_MAX
    {
      ChildAt(root.T(), root.shape, 1, p, offset);
      var i := base + offset;
      if i > INT_MAX {
        return 0, 0;
      }
      if root.nodes[node].slots[offset] != 0 {
        return root.nodes[node].slots[offset], i;
      }
      offset := offset + 1;
    }
    return 0, 0;
  }

  /** In the range from `lo` to `hi`: the least key from `start` on, or none that fits an int. */
  ghost predicate NextIs(items: map<nat, nat>, start: nat, lo: nat, hi: nat, ptr: nat, id: nat) {
    if ptr == 0 then forall k | k in items && start <= k && lo <= k < hi :: k > INT_MAX
    else id in items && items[id] == ptr && start <= id && lo <= id < hi && id <= INT_MAX
         && forall k | k in items && start <= k && lo <= k :: id <= k
  }

  lemma {:induction false} HalfBound(j: nat, q: nat)
    requires 1 <= j <= 5 && Low(j, q) <= INT_MAX
    ensures Low(j, q + 1) <= INT_MAX + 1 && Low(j, 1) <= 0x4000_0000
  {
    LowClosed(q);
    LowClosed(q + 1);
    LowClosed(1);
  }

  /** Nothing that fits an int from `start` on, between `lo` and `hi`. */
  ghost predicate NoneIn(items: map<nat, nat>, start: nat, lo: nat, hi: nat) {
    forall k | k in items && start <= k && lo <= k < hi :: k > INT_MAX
  }

  lemma {:induction false} NextJoin(items: map<nat, nat>, start: nat, lo: nat, mid: nat, hi: nat, top: nat, ptr: nat,
                                    id: nat)
    requires NoneIn(items, start, lo, mid) && NextIs(items, start, mid, hi, ptr, id) && lo <= mid <= hi
    ensures ptr == 0 ==> NoneIn(items, start, lo, hi)
    ensures ptr != 0 && hi <= top ==> NextIs(items, start, lo, top, ptr, id)
  {
  }

  /** The part of idr_get_next_node's loop that looks into child `offset`. */
  method NextInChild(root: RadixRoot, node: Ref, h: nat, childBase: nat, offset: nat, start: nat, ghost p: nat)
    returns (ptr: nat, id: nat)
    requires root.Valid() && 1 < h <= root.height && start <= INT_MAX && offset < SIZE
    requires Place(h, p) in root.shape.at && node == root.shape.at[Place(h, p)]
    requires childBase == Low(h - 1, p * SIZE + offset) <= INT_MAX
    ensures NextIs(root.Items(), start, childBase, Low(h - 1, p * SIZE + offset + 1), ptr, id)
    decreases h, 0
  {
    ChildAt(root.T(), root.shape, h, p, offset);
    if root.nodes[node].slots[offset] != 0 {
      ptr, id := NextNode(root, root.nodes[node].slots[offset], h - 1, childBase, start, p * SIZE + offset);
    } else {
      NoneHere(root.T(), root.shape, h - 1, p * SIZE + offset);
      return 0, 0;
    }
  }

  /** idr_get_next_node */
  method NextNode(root: RadixRoot, node: Ref, h: nat, base: nat, start: nat, ghost p: nat) returns (ptr: nat, id: nat)
    requires root.Valid() && 1 <= h <= root.height && base == Low(h, p) <= INT_MAX && start <= INT_MAX
    requires Place(h, p) in root.shape.at && node == root.shape.at[Place(h, p)]
    ensures NextIs(root.Items(), start, base, Low(h, p + 1), ptr, id)
    decreases h, 2
  {
    if h == 1 {
      ptr, id := NextInLeaf(root, node, base, start, p);
      return;
    }
    var offset := 0;
    ChildAt(root.T(), root.shape, h, p, 0);
    while offset < SIZE
      invariant offset <= SIZE && base <= Low(h - 1, p * SIZE + offset) <= INT_MAX + 1
      invariant NoneIn(root.Items(), start, base, Low(h - 1, p * SIZE + offset))
    {
      var stop;
      stop, ptr, id := NextStep(root, node, h, base, offset, start, p);
      if stop {
        return;
      }
      offset := offset + 1;
    }
    return 0, 0;
  }

  /** One turn of that loop: `stop` when the search is over. */
  method NextStep(root: RadixRoot, node: Ref, h: nat, base: nat, offset: nat, start: nat, ghost p: nat)
    returns (stop: bool, ptr: nat, id: nat)
    requires root.Valid() && 1 < h <= root.height && base == Low(h, p) && start <= INT_MAX && offset < SIZE
    requires Place(h, p) in root.shape.at && node == root.shape.at[Place(h, p)]
    requires base <= Low(h - 1, p * SIZE + offset) <= INT_MAX + 1
    requires NoneIn(root.Items(), start, base, Low(h - 1, p * SIZE + offset))
    ensures stop ==> NextIs(root.Items(), start, base, Low(h, p + 1), ptr, id)
    ensures var next := Low(h - 1, p * SIZE + offset + 1);
            !stop ==> base <= next <= INT_MAX + 1 && NoneIn(root.Items(), start, base, next)
    ensures Low(h, p + 1) == Low(h - 1, p * SIZE + SIZE)
    decreases h, 1
  {
    ghost var q := p * SIZE + offset;
    var span := Low(h - 1, 1);
    var childBase := ChildBase(base, h, offset);
    ChildSpan(root.T(), root.shape, h, p, offset);
    if (childBase + span - 1) % LIMIT < start {
      return false, 0, 0;
    }
    if childBase > INT_MAX {
      return true, 0, 0;
    }
    ptr, id := NextInChild(root, node, h, childBase, offset, start, p);
    NextJoin(root.Items(), start, base, childBase, Low(h - 1, q + 1), Low(h, p + 1), ptr, id);
    stop := ptr != 0;
  }

  /** The range of a child that begins at or before INT_MAX + 1. */
  lemma {:induction false} ChildSpan(t: Tree, s: Shape, h: nat, p: nat, i: nat)
    requires Ok(t, s) && 1 < h <= t.height && i < SIZE && Place(h, p) in s.at && Low(h - 1, p * SIZE + i) <= INT_MAX + 1
    ensures var lo, hi := Low(h - 1, p * SIZE + i), Low(h - 1, p * SIZE + i + 1);
            && ChildBase(Low(h, p), h, i) == lo && hi == lo + Low(h - 1, 1) && 0 < Low(h - 1, 1)
                 && lo + Low(h - 1, 1) <= LIMIT
            && (lo <= INT_MAX ==> hi <= INT_MAX + 1) && hi <= Low(h, p + 1)
            && Low(h, p + 1) == Low(h - 1, p * SIZE + SIZE)
  {
    ChildAt(t, s, h, p, i);
    LowAdd(h - 1, p * SIZE + i, 1);
    LowMono(h - 1, p * SIZE + i + 1, p * SIZE + SIZE);
    LowClosed(1);
    if Low(h - 1, p * SIZE + i) <= INT_MAX {
      HalfBound(h - 1, p * SIZE + i);
    }
  }

  lemma {:induction false} NoneHere(t: Tree, s: Shape, h: nat, p: nat)
    requires Ok(t, s) && 1 <= h <= t.height && Place(h, p) !in s.at
    ensures forall k | k in s.items :: !(Low(h, p) <= k < Low(h, p + 1))
  {
    forall k | k in s.items
      ensures !(Low(h, p) <= k < Low(h, p + 1))
    {
      NoKeys(t, s, h, p, k);
    }
  }

  lemma {:induction false} NoItems(t: Tree, s: Shape)
    requires Ok(t, s) && t.rnode == 0
    ensures s.items == map[]
  {
  }
}
