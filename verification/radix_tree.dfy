/** lib/radix-tree.c: insertion, lookup and deletion as in-place updates of nodes. */
module RadixTree {
  import opened Kmalloc
  import opened RadixModel

  const EEXIST: int := -17

  class RadixRoot {
    var height: nat
    var rnode: Ref
    var nodes: map<Ref, Node>
    ghost var shape: Shape

    ghost function T(): Tree
      reads this
    {
      Tree(height, rnode, nodes)
    }

    /** The finite map that the tree stands for. */
    ghost function Items(): map<nat, nat>
      reads this
    {
      shape.items
    }

    ghost predicate Valid()
      reads this
    {
      Ok(T(), shape) && Pruned(T(), 0)
    }

    constructor ()
      ensures Valid() && Items() == map[]
    {
      height, rnode, nodes := 0, 0, map[];
      shape := Shape(map[], map[], map[]);
    }

    /** radix_tree_maxindex */
    method MaxIndexOf(h: nat) returns (max: nat)
      ensures max == MaxIndex(h)
    {
      max := 0;
      var i := 0;
      while i < h
        invariant i <= h && max == MaxIndex(i)
      {
        max := (max * SIZE + (SIZE - 1)) % LIMIT;
        i := i + 1;
      }
    }

    /** radix_tree_required_height */
    method RequiredHeight(index: nat) returns (h: nat)
      requires index < LIMIT
      ensures 1 <= h <= 6 && Prefix(index, h) == 0 && forall j | 1 <= j < h :: Prefix(index, j) != 0
    {
      h := 1;
      var max := MaxIndexOf(h);
      MaxIndexRange(index, h);
      while index > max
        invariant 1 <= h <= 6 && max == MaxIndex(h) && forall j | 1 <= j < h :: Prefix(index, j) != 0
        invariant index <= max <==> Prefix(index, h) == 0
        decreases 6 - h
      {
        MaxIndexRange(index, h);
        h := h + 1;
        max := MaxIndexOf(h);
        MaxIndexRange(index, h);
      }
    }

    /** radix_tree_lookup */
    method Lookup(index: nat) returns (item: nat)
      requires Valid() && index < LIMIT
      ensures item == if index in Items() then Items()[index] else 0
    {
      if index in shape.items {
        KeyRange(T(), shape, index);
      }
      var max := MaxIndexOf(height);
      if rnode == 0 {
        return 0;
      }
      MaxIndexRange(index, height);
      if index > max {
        return 0;
      }
      var node, h := rnode, height;
      while h > 1
        invariant 1 <= h <= height && Place(h, Prefix(index, h)) in shape.at
        invariant node == shape.at[Place(h, Prefix(index, h))]
      {
        Down(T(), shape, index, h);
        node := nodes[node].slots[Offset(index, h)];
        if node == 0 {
          if index in shape.items {
            KeyPath(T(), shape, index, h - 1);
          }
          return 0;
        }
        h := h - 1;
      }
      Down(T(), shape, index, 1);
      item := nodes[node].slots[Offset(index, 1)];
    }

    method Fresh() returns (r: Ref)
      ensures r != 0 && r !in nodes
    {
      FreshExists(nodes.Keys);
      r :| r != 0 && r !in nodes;
    }

    /** radix_tree_extend, when every allocation succeeds */
    method Extend(index: nat)
      requires Valid() && index < LIMIT
      modifies this
      ensures Ok(T(), shape) && Items() == old(Items()) && Pruned(T(), rnode)
      ensures height > 0 && Prefix(index, height) == 0
      ensures height >= old(height) && (height > old(height) && height > 1 ==> Prefix(index, height - 1) != 0)
    {
      var required := RequiredHeight(index);
      if rnode == 0 {
        var r := Fresh();
        FirstOk(T(), shape, required, r);
        rnode, nodes := r, nodes[r := Node(required, 0, EmptySlots())];
        height := required;
        shape := Shape(map[Place(required, 0) := r], map[r := Place(required, 0)], map[]);
        return;
      }
      while height < required
        invariant Valid() && Items() == old(Items()) && old(height) <= height && 0 < height
        invariant height > old(height) ==> height <= required
        decreases required - height
      {
        GrowOnce();
      }
      PrefixZero(index, required, height);
    }

    /** A new root above the old one. */
    method GrowOnce()
      requires Valid() && 0 < height < 6
      modifies this
      ensures Valid() && Items() == old(Items()) && height == old(height) + 1
    {
      var r := Fresh();
      ghost var t := T();
      GrowOk(t, shape, r);
      shape := GrownShape(t, shape, r);
      nodes := nodes[r := Node(height + 1, 1, EmptySlots()[0 := rnode])];
      rnode := r;
      height := height + 1;
      assert T() == GrownTree(t, r);
    }

    /** A new empty node in slot `offset` of `node`, on the way to `index`. */
    method AddChild(node: Ref, h: nat, index: nat) returns (r: Ref)
      requires Ok(T(), shape) && Pruned(T(), node) && h > 1 && index < LIMIT
      requires Place(h, Prefix(index, h)) in shape.at && node == shape.at[Place(h, Prefix(index, h))]
      requires Place(h - 1, Prefix(index, h - 1)) !in shape.at
      modifies this`nodes, this`shape
      ensures Ok(T(), shape) && Items() == old(Items()) && Pruned(T(), r)
      ensures Place(h - 1, Prefix(index, h - 1)) in shape.at && r == shape.at[Place(h - 1, Prefix(index, h - 1))]
    {
      ghost var a := Place(h, Prefix(index, h));
      var offset := Offset(index, h);
      r := Fresh();
      ChildStep(T(), shape, index, h, r);
      nodes := nodes[r := Node(h - 1, 0, EmptySlots())];
      nodes := nodes[node := nodes[node].(slots := nodes[node].slots[offset := r], count := nodes[node].count + 1)];
      shape := ChildShape(shape, a, offset, r);
      assert T() == ChildTree(old(T()), node, offset, r);
    }

    /** radix_tree_insert's loop: walks down to the leaf of `index`, creating the nodes that are missing. */
    method Descend(index: nat) returns (node: Ref)
      requires Ok(T(), shape) && Pruned(T(), rnode) && height > 0 && Prefix(index, height) == 0 && index < LIMIT
      modifies this`nodes, this`shape
      ensures Ok(T(), shape) && Items() == old(Items()) && Pruned(T(), node)
      ensures Place(1, Prefix(index, 1)) in shape.at && node == shape.at[Place(1, Prefix(index, 1))]
    {
      node := rnode;
      var h := height;
      while h > 1
        invariant 1 <= h && Ok(T(), shape) && Items() == old(Items()) && Pruned(T(), node)
        invariant Place(h, Prefix(index, h)) in shape.at && node == shape.at[Place(h, Prefix(index, h))]
      {
        Down(T(), shape, index, h);
        var offset := Offset(index, h);
        if nodes[node].slots[offset] == 0 {
          node := AddChild(node, h, index);
        } else {
          NonEmptyLeaf(T(), node, offset);
          node := nodes[node].slots[offset];
        }
        h := h - 1;
      }
    }

    /** Stores `item` in the free slot of `index`, in its leaf. */
    method Store(node: Ref, index: nat, item: nat)
      requires Ok(T(), shape) && Pruned(T(), node) && index < LIMIT && item != 0 && index !in Items()
      requires Place(1, Prefix(index, 1)) in shape.at && node == shape.at[Place(1, Prefix(index, 1))]
      modifies this`nodes, this`shape
      ensures Valid() && Items() == old(Items())[index := item]
    {
      SetStep(T(), shape, index, item);
      var offset := index % SIZE;
      nodes := nodes[node := nodes[node].(slots := nodes[node].slots[offset := item], count := nodes[node].count + 1)];
      shape := SetShape(shape, index, item);
      assert T() == SetTree(old(T()), node, offset, item, nodes[node].count);
    }

    /** radix_tree_insert: 0 on success, -EEXIST if the key is taken */
    method Insert(index: nat, item: nat) returns (err: int)
      requires Valid() && index < LIMIT && item != 0
      modifies this
      ensures Valid()
      ensures if index in old(Items()) then err == EEXIST && Items() == old(Items())
                else err == 0 && Items() == old(Items())[index := item]
      ensures height >= old(height) && (height > old(height) && height > 1 ==> Prefix(index, height - 1) != 0)
    {
      Extend(index);
      var node := Descend(index);
      Down(T(), shape, index, 1);
      if nodes[node].slots[index % SIZE] != 0 {
        NonEmptyLeaf(T(), node, index % SIZE);
        return EEXIST;
      }
      Store(node, index, item);
      return 0;
    }

    /** The walk of radix_tree_delete, recording nodes and offsets in the two arrays of eight. */
    method FindPath(index: nat) returns (found: bool, node: Ref, path: seq<Ref>, offsets: seq<nat>)
      requires Valid() && index < LIMIT && height > 0 && Prefix(index, height) == 0
      ensures found <==> Place(1, Prefix(index, 1)) in shape.at
      ensures found ==> OnPath(shape, path, offsets, index, height, 1) && node == path[height - 1]
      ensures !found ==> index !in Items()
    {
      path, offsets := seq(8, i => 0), seq(8, i => 0);
      node := rnode;
      var h := height;
      path := path[0 := node];
      while h > 1
        invariant 1 <= h <= height && OnPath(shape, path, offsets, index, height, h) && node == path[height - h]
      {
        var level := height - h + 1;
        var offset := Offset(index, h);
        Down(T(), shape, index, h);
        offsets := offsets[level - 1 := offset];
        node := nodes[node].slots[offset];
        if node == 0 {
          NoPath(T(), shape, index, h - 1);
          return false, node, path, offsets;
        }
        path := path[level := node];
        h := h - 1;
      }
      found := true;
    }

    /** Clears the slot of `index` in its leaf. */
    method Clear(node: Ref, index: nat)
      requires Valid() && index < LIMIT && index in Items()
      requires Place(1, Prefix(index, 1)) in shape.at && node == shape.at[Place(1, Prefix(index, 1))]
      modifies this`nodes, this`shape
      ensures Ok(T(), shape) && Pruned(T(), node) && shape.at == old(shape.at) && Items() == old(Items()) - {index}
    {
      SetStep(T(), shape, index, 0);
      var offset := index % SIZE;
      var count := if nodes[node].count > 0 then nodes[node].count - 1 else 0;
      nodes := nodes[node := nodes[node].(slots := nodes[node].slots[offset := 0], count := count)];
      shape := SetShape(shape, index, 0);
      assert T() == SetTree(old(T()), node, offset, 0, count);
    }

    /** Frees the empty node `cur` at height `h` below `parent`. */
    method FreeChild(parent: Ref, offset: nat, cur: Ref, ghost index: nat, ghost h: nat, ghost H: nat)
      requires Ok(Tree(H, rnode, nodes), shape) && Pruned(Tree(H, rnode, nodes), cur) && 0 < h < H
      requires Place(h, Prefix(index, h)) in shape.at && cur == shape.at[Place(h, Prefix(index, h))]
      requires Place(h + 1, Prefix(index, h + 1)) in shape.at && parent == shape.at[Place(h + 1, Prefix(index, h + 1))]
      requires offset == Offset(index, h + 1) && cur in nodes && nodes[cur].count == 0
      modifies this`nodes, this`shape
      ensures Ok(Tree(H, rnode, nodes), shape) && Pruned(Tree(H, rnode, nodes), parent)
      ensures Items() == old(Items()) && shape.at == old(shape.at) - {Place(h, Prefix(index, h))}
    {
      FreeStep(Tree(H, rnode, nodes), shape, index, h);
      ghost var t := Tree(H, rnode, nodes);
      var n := nodes[parent];
      nodes := nodes[parent := n.(slots := n.slots[offset := 0], count := n.count - 1)];
      nodes := nodes - {cur};
      shape := DropShape(shape, Place(h, Prefix(index, h)), cur);
      assert Tree(H, rnode, nodes) == DropTree(t, parent, offset, cur);
    }

    /** Frees the root once it is empty. */
    method FreeRoot(cur: Ref, ghost index: nat, ghost H: nat)
      requires Ok(Tree(H, rnode, nodes), shape) && H > 0 && Place(H, Prefix(index, H)) in shape.at
      requires cur == shape.at[Place(H, Prefix(index, H))] && cur in nodes && nodes[cur].count == 0
      modifies this
      ensures Valid() && Items() == old(Items()) && rnode == 0
    {
      PruneRoot(Tree(H, rnode, nodes), shape, index);
      nodes := nodes - {cur};
      rnode := 0;
      height := 0;
      shape := Shape(map[], map[], map[]);
      assert nodes == map[];
    }

    /** The pruning loop of radix_tree_delete; the field `height` is its counter. */
    method PruneLoop(index: nat, path: seq<Ref>, offsets: seq<nat>)
      requires Ok(T(), shape) && height > 0 && OnPath(shape, path, offsets, index, height, 1)
      requires Pruned(T(), path[height - 1])
      modifies this
      ensures Items() == old(Items())
      ensures if rnode == 0 then Valid()
                else Ok(Tree(old(height), rnode, nodes), shape) && Pruned(Tree(old(height), rnode, nodes), 0)
    {
      ghost var H := height;
      while height > 0
        invariant 0 < height <= H && Ok(Tree(H, rnode, nodes), shape) && Items() == old(Items())
        invariant OnPath(shape, path, offsets, index, H, H - height + 1)
        invariant Pruned(Tree(H, rnode, nodes), path[height - 1])
        decreases height
      {
        var cur := path[height - 1];
        ghost var h := H - height + 1;
        assert cur == shape.at[Place(h, Prefix(index, h))];
        Down(Tree(H, rnode, nodes), shape, index, h);
        if nodes[cur].count != 0 {
          RootHeight(Tree(H, rnode, nodes), shape);
          return;
        }
        if height == 1 {
          FreeRoot(cur, index, H);
          return;
        }
        ghost var s := shape;
        assert Place(h + 1, Prefix(index, h + 1)) in shape.at;
        FreeChild(path[height - 2], offsets[height - 2], cur, index, h, H);
        OnPathUp(s, shape, path, offsets, index, H, h);
        height := height - 1;
      }
    }

    /** Pruning, after which root->height is read back from the root node. */
    method Prune(index: nat, path: seq<Ref>, offsets: seq<nat>)
      requires Ok(T(), shape) && height > 0 && OnPath(shape, path, offsets, index, height, 1)
      requires Pruned(T(), path[height - 1])
      modifies this
      ensures Valid() && Items() == old(Items()) && (rnode != 0 ==> height == old(height))
    {
      ghost var H := height;
      PruneLoop(index, path, offsets);
      if rnode != 0 {
        RootHeight(Tree(H, rnode, nodes), shape);
        height := nodes[rnode].height;
      }
    }

    /** radix_tree_delete */
    method Delete(index: nat) returns (item: nat)
      requires Valid() && index < LIMIT
      modifies this
      ensures Valid() && Items() == old(Items()) - {index}
      ensures item == if index in old(Items()) then old(Items())[index] else 0
      ensures rnode != 0 ==> height == old(height)
    {
      var node, path, offsets;
      item, node, path, offsets := FindItem(index);
      if item == 0 {
        assert Items() == Items() - {index};
        return 0;
      }
      Clear(node, index);
      Prune(index, path, offsets);
    }

    /** The first half of radix_tree_delete: the item, 0 if there is none, and the path down to its leaf. */
    method FindItem(index: nat) returns (item: nat, node: Ref, path: seq<Ref>, offsets: seq<nat>)
      requires Valid() && index < LIMIT
      ensures item == if index in Items() then Items()[index] else 0
      ensures item != 0 ==> height > 0 && OnPath(shape, path, offsets, index, height, 1)
      ensures item != 0 ==> node == path[height - 1] && index in Items()
      ensures item == 0 ==> index !in Items()
    {
      item, node, path, offsets := 0, 0, [], [];
      if index in shape.items {
        KeyRange(T(), shape, index);
      }
      if rnode == 0 {
        return;
      }
      var max := MaxIndexOf(height);
      MaxIndexRange(index, height);
      if index > max {
        return;
      }
      var found;
      found, node, path, offsets := FindPath(index);
      if !found {
        return;
      }
      Down(T(), shape, index, 1);
      offsets := offsets[height - 1 := index % SIZE];
      item := nodes[node].slots[offsets[height - 1]];
    }
  }

  lemma {:induction false} PrefixZero(k: nat, g: nat, h: nat)
    requires Prefix(k, g) == 0 && g <= h
    ensures Prefix(k, h) == 0
    decreases h
  {
    if g < h {
      PrefixZero(k, g, h - 1);
    }
  }

  /** A node with a used slot has a positive count. */
  lemma {:induction false} NonEmptyLeaf(t: Tree, x: Ref, d: nat)
    requires x in t.nodes && d < |t.nodes[x].slots| && t.nodes[x].count == Used(t.nodes[x].slots)
    requires t.nodes[x].slots[d] != 0
    ensures t.nodes[x].count > 0
  {
    UsedZero(t.nodes[x].slots);
  }

  lemma {:induction false} ChildStep(t: Tree, s: Shape, k: nat, h: nat, r: Ref)
    requires Ok(t, s) && h > 1 && k < LIMIT && Place(h, Prefix(k, h)) in s.at && Place(h - 1, Prefix(k, h - 1)) !in s.at
    requires r != 0 && r !in t.nodes && Pruned(t, s.at[Place(h, Prefix(k, h))])
    ensures var a, d := Place(h, Prefix(k, h)), Offset(k, h);
            && s.at[a] in t.nodes && |t.nodes[s.at[a]].slots| == SIZE && t.nodes[s.at[a]].height == h
            && Ok(ChildTree(t, s.at[a], d, r), ChildShape(s, a, d, r)) && Pruned(ChildTree(t, s.at[a], d, r), r)
            && ChildShape(s, a, d, r).at == s.at[Place(h - 1, Prefix(k, h - 1)) := r]
  {
    var a := Place(h, Prefix(k, h));
    Down(t, s, k, h);
    LowPrefix(k, h - 1);
    assert NodeOk(t, s, a);
    ChildOk(t, s, a, Offset(k, h), r);
  }

  /** `path` holds the nodes on the way to `k` from the root down to height `h`, `offsets` the slots between them. */
  ghost predicate OnPath(s: Shape, path: seq<Ref>, offsets: seq<nat>, k: nat, H: nat, h: nat) {
    && 1 <= h <= H <= 6 && |path| == 8 && |offsets| == 8
    && (forall j | h <= j <= H :: Place(j, Prefix(k, j)) in s.at && path[H - j] == s.at[Place(j, Prefix(k, j))])
    && (forall j | h < j <= H :: offsets[H - j] == Offset(k, j))
  }

  /** Where the walk to `k` stops short there is no leaf for it, and it is not stored. */
  lemma {:induction false} NoPath(t: Tree, s: Shape, k: nat, h: nat)
    requires Ok(t, s) && 1 <= h <= t.height && Place(h, Prefix(k, h)) !in s.at
    ensures k !in s.items && Place(1, Prefix(k, 1)) !in s.at
    decreases h
  {
    if k in s.items {
      KeyPath(t, s, k, h);
    }
    if h > 1 {
      assert Place(h - 1, Prefix(k, h - 1)) in s.at ==> HasParent(t, s, Place(h - 1, Prefix(k, h - 1)));
      NoPath(t, s, k, h - 1);
    }
  }

  lemma {:induction false} FreeStep(t: Tree, s: Shape, k: nat, h: nat)
    requires Ok(t, s) && 0 < h < t.height && Place(h, Prefix(k, h)) in s.at && Place(h + 1, Prefix(k, h + 1)) in s.at
    requires var y := s.at[Place(h, Prefix(k, h))]; y in t.nodes && t.nodes[y].count == 0 && Pruned(t, y)
    ensures var x, y, d := s.at[Place(h + 1, Prefix(k, h + 1))], s.at[Place(h, Prefix(k, h))], Offset(k, h + 1);
            && x in t.nodes && x != y && |t.nodes[x].slots| == SIZE && t.nodes[x].count > 0
            && Ok(DropTree(t, x, d, y), DropShape(s, Place(h, Prefix(k, h)), y)) && Pruned(DropTree(t, x, d, y), x)
  {
    var a := Place(h + 1, Prefix(k, h + 1));
    Down(t, s, k, h + 1);
    assert NodeOk(t, s, a);
    NonEmptyLeaf(t, s.at[a], Offset(k, h + 1));
    assert EmptyChild(t, s, a, Offset(k, h + 1), s.at[Place(h, Prefix(k, h))]);
    DropOk(t, s, a, Offset(k, h + 1), s.at[Place(h, Prefix(k, h))]);
  }

  /** Storing into a free slot or clearing a used one. */
  lemma {:induction false} SetStep(t: Tree, s: Shape, k: nat, v: nat)
    requires Ok(t, s) && k < LIMIT && Place(1, Prefix(k, 1)) in s.at && (v == 0 <==> k in s.items)
    ensures var x, d := s.at[Place(1, Prefix(k, 1))], k % SIZE;
            && x in t.nodes && |t.nodes[x].slots| == SIZE
            && (v == 0 ==> t.nodes[x].count > 0)
            && Ok(SetTree(t, x, d, v, if v == 0 then t.nodes[x].count - 1 else t.nodes[x].count + 1), SetShape(s, k, v))
  {
    var a := Place(1, Prefix(k, 1));
    Down(t, s, k, 1);
    UsedSet(t.nodes[s.at[a]].slots, k % SIZE, v);
    assert NodeOk(t, s, a);
    if v == 0 {
      NonEmptyLeaf(t, s.at[a], k % SIZE);
    }
    SetOk(t, s, a, k % SIZE, v, if v == 0 then t.nodes[s.at[a]].count - 1 else t.nodes[s.at[a]].count + 1);
  }

  /** An empty node at the top is the root, and the only node. */
  lemma {:induction false} PruneRoot(t: Tree, s: Shape, k: nat)
    requires Ok(t, s) && t.height > 0 && Place(t.height, Prefix(k, t.height)) in s.at
    requires var x := s.at[Place(t.height, Prefix(k, t.height))]; x in t.nodes && t.nodes[x].count == 0
    ensures s.at[Place(t.height, Prefix(k, t.height))] == t.rnode && s.items == map[] && t.nodes.Keys == {t.rnode}
  {
    assert HasParent(t, s, Place(t.height, Prefix(k, t.height)));
    EmptyRoot(t, s);
  }

  lemma {:induction false} RootHeight(t: Tree, s: Shape)
    requires Ok(t, s) && t.height > 0
    ensures t.rnode != 0 && t.rnode in t.nodes && t.nodes[t.rnode].height == t.height
  {
    assert NodeOk(t, s, Place(t.height, 0));
  }

  lemma {:induction false} OnPathUp(s: Shape, s': Shape, path: seq<Ref>, offsets: seq<nat>, k: nat, H: nat, h: nat)
    requires OnPath(s, path, offsets, k, H, h) && h < H && s'.at == s.at - {Place(h, Prefix(k, h))}
    ensures OnPath(s', path, offsets, k, H, h + 1)
  {
  }
}
