/** lib/radix-tree.c: the nodes of a tree, where they sit, and the finite map they hold.

    A node of height `h` covers the keys that share a prefix `p` above their low `6 h` bits; its place
    is the pair `(h, p)`. A ghost map `at` names the node at every occupied place and `items` is the
    finite map that the tree stands for. `Ok` says that every slot of every node is exactly what these
    two prescribe, so that all nodes are reachable, none is shared, and lookups find what was stored.
 */
module RadixModel {

  const SIZE: nat := 64
  const LIMIT: nat := 0x1_0000_0000

  type Ref = nat
  datatype Place = Place(h: nat, p: nat)
  datatype Node = Node(height: nat, count: nat, slots: seq<nat>)

  /** struct radix_tree_root with the heap of its nodes. */
  datatype Tree = Tree(height: nat, rnode: Ref, nodes: map<Ref, Node>)
  datatype Shape = Shape(at: map<Place, Ref>, pos: map<Ref, Place>, items: map<nat, nat>)

  /** `index >> (6 * j)` */
  function Prefix(k: nat, j: nat): nat {
    if j == 0 then k else Prefix(k, j - 1) / SIZE
  }

  /** The least key with prefix `p` above its low `6 h` bits. */
  function Low(h: nat, p: nat): nat {
    if h == 0 then p else Low(h - 1, p * SIZE)
  }

  /** The number of non-NULL slots. */
  function Used(slots: seq<nat>): nat {
    if slots == [] then 0 else Used(slots[..|slots| - 1]) + if slots[|slots| - 1] != 0 then 1 else 0
  }

  ghost function SlotOf(s: Shape, a: Place, d: nat): nat {
    var q := a.p * SIZE + d;
    if a.h <= 1 then
      if q in s.items then s.items[q] else 0
    else
      if Place(a.h - 1, q) in s.at then s.at[Place(a.h - 1, q)] else 0
  }

  /** The node at place `a` is what the shape prescribes. */
  ghost predicate NodeOk(t: Tree, s: Shape, a: Place)
    requires a in s.at
  {
    && s.at[a] in t.nodes
    && var n := t.nodes[s.at[a]];
       && n.height == a.h && 1 <= a.h <= t.height && Low(a.h, a.p) < LIMIT
       && |n.slots| == SIZE && n.count == Used(n.slots)
       && forall d | 0 <= d < SIZE :: n.slots[d] == SlotOf(s, a, d)
  }

  /** `at` and `pos` are inverse to each other and name exactly the nodes in the heap. */
  ghost predicate Linked(t: Tree, s: Shape) {
    && 0 !in t.nodes && s.pos.Keys == t.nodes.Keys
    && (forall r | r in s.pos :: s.pos[r] in s.at && s.at[s.pos[r]] == r)
    && (forall a | a in s.at :: s.at[a] in s.pos && s.pos[s.at[a]] == a)
  }

  ghost predicate HasParent(t: Tree, s: Shape, a: Place) {
    if a.h == t.height then a.p == 0 else Place(a.h + 1, a.p / SIZE) in s.at
  }

  /** Every place has its parent place, up to the root; every key has its leaf node. */
  ghost predicate Rooted(t: Tree, s: Shape) {
    && t.height <= 6
    && (forall a {:trigger HasParent(t, s, a)} | a in s.at :: HasParent(t, s, a))
    && (if t.height == 0 then t.rnode == 0 && s.at == map[]
         else Place(t.height, 0) in s.at && s.at[Place(t.height, 0)] == t.rnode)
    && (forall k | k in s.items :: k < LIMIT && s.items[k] != 0 && Place(1, k / SIZE) in s.at)
  }

  ghost predicate AllNodes(t: Tree, s: Shape) {
    forall a {:trigger NodeOk(t, s, a)} | a in s.at :: NodeOk(t, s, a)
  }

  ghost predicate Ok(t: Tree, s: Shape) {
    Linked(t, s) && Rooted(t, s) && AllNodes(t, s)
  }

  /** Every node but `except` has something below it. */
  ghost predicate Pruned(t: Tree, except: Ref) {
    forall r | r in t.nodes && r != except :: t.nodes[r].count > 0
  }

  // ------------------------------------------------------------------ counting slots

  lemma {:induction false} UsedSet(slots: seq<nat>, d: nat, x: nat)
    requires d < |slots|
    ensures Used(slots[d := x]) == Used(slots) + (if x != 0 then 1 else 0) - (if slots[d] != 0 then 1 else 0)
    decreases |slots|
  {
    var n := |slots| - 1;
    if d < n {
      UsedSet(slots[..n], d, x);
      assert slots[d := x][..n] == slots[..n][d := x];
    } else {
      assert slots[d := x][..n] == slots[..n];
    }
  }

  lemma {:induction false} UsedZero(slots: seq<nat>)
    ensures Used(slots) == 0 <==> forall d | 0 <= d < |slots| :: slots[d] == 0
    decreases |slots|
  {
    if slots != [] {
      var n := |slots| - 1;
      UsedZero(slots[..n]);
      if forall d | 0 <= d < |slots| :: slots[d] == 0 {
        forall d | 0 <= d < n
          ensures slots[..n][d] == 0
        {
        }
      }
      if Used(slots) == 0 {
        forall d | 0 <= d < |slots|
          ensures slots[d] == 0
        {
          if d < n {
            assert slots[..n][d] == 0;
          }
        }
      }
    }
  }

  function EmptySlots(): seq<nat> {
    seq(SIZE, i => 0)
  }

  lemma {:induction false} EmptyUsed()
    ensures Used(EmptySlots()) == 0
  {
    UsedZero(EmptySlots());
  }

  // ------------------------------------------------------------------ prefixes

  lemma {:induction false} LowPrefix(k: nat, h: nat)
    ensures Low(h, Prefix(k, h)) <= k
    decreases h
  {
    if h > 0 {
      LowPrefix(k, h - 1);
      LowMono(h - 1, Prefix(k, h - 1) / SIZE * SIZE, Prefix(k, h - 1));
    }
  }

  lemma {:induction false} LowMono(h: nat, p: nat, q: nat)
    requires p <= q
    ensures Low(h, p) <= Low(h, q)
  {
    if h > 0 {
      LowMono(h - 1, p * SIZE, q * SIZE);
    }
  }

  lemma {:induction false} LowZero(h: nat)
    ensures Low(h, 0) == 0
  {
    if h > 0 {
      LowZero(h - 1);
    }
  }

  // ------------------------------------------------------------------ the steps of insertion

  /** A new root above the old one. */
  function GrownTree(t: Tree, r: Ref): Tree {
    Tree(t.height + 1, r, t.nodes[r := Node(t.height + 1, 1, EmptySlots()[0 := t.rnode])])
  }

  ghost function GrownShape(t: Tree, s: Shape, r: Ref): Shape {
    s.(at := s.at[Place(t.height + 1, 0) := r], pos := s.pos[r := Place(t.height + 1, 0)])
  }

  /** A node is still right if it and what its slots should hold did not change. */
  lemma {:induction false} NodeSame(t: Tree, s: Shape, t': Tree, s': Shape, a: Place)
    requires a in s.at && NodeOk(t, s, a) && a in s'.at && s'.at[a] == s.at[a] && t.height <= t'.height
    requires s.at[a] in t'.nodes && t'.nodes[s.at[a]] == t.nodes[s.at[a]]
    requires forall d | 0 <= d < SIZE :: SlotOf(s', a, d) == SlotOf(s, a, d)
    ensures NodeOk(t', s', a)
  {
  }

  lemma {:induction false} GrowOk(t: Tree, s: Shape, r: Ref)
    requires Ok(t, s) && 0 < t.height < 6 && r != 0 && r !in t.nodes
    ensures Ok(GrownTree(t, r), GrownShape(t, s, r)) && t.rnode != 0
  {
    var t', s', b := GrownTree(t, r), GrownShape(t, s, r), Place(t.height + 1, 0);
    assert b !in s.at by { assert b in s.at ==> NodeOk(t, s, b); }
    assert Linked(t', s');
    forall a {:trigger HasParent(t', s', a)} | a in s'.at
      ensures HasParent(t', s', a)
    {
      assert a in s.at ==> HasParent(t, s, a) && NodeOk(t, s, a);
    }
    forall a {:trigger NodeOk(t', s', a)} | a in s'.at
      ensures NodeOk(t', s', a)
    {
      if a in s.at {
        assert NodeOk(t, s, a);
        NodeSame(t, s, t', s', a);
      } else {
        GrownRoot(t, s, r);
      }
    }
  }

  lemma {:induction false} GrownRoot(t: Tree, s: Shape, r: Ref)
    requires Ok(t, s) && 0 < t.height < 6 && r != 0 && r !in t.nodes
    ensures NodeOk(GrownTree(t, r), GrownShape(t, s, r), Place(t.height + 1, 0)) && t.rnode != 0
  {
    EmptyUsed();
    UsedSet(EmptySlots(), 0, t.rnode);
    LowZero(t.height + 1);
    assert NodeOk(t, s, Place(t.height, 0));
    var s', b := GrownShape(t, s, r), Place(t.height + 1, 0);
    forall d | 0 <= d < SIZE
      ensures EmptySlots()[0 := t.rnode][d] == SlotOf(s', b, d)
    {
      assert Place(t.height, d) in s.at ==> HasParent(t, s, Place(t.height, d));
    }
  }

  /** A new empty node at `a`'s slot `d`. */
  function ChildTree(t: Tree, x: Ref, d: nat, r: Ref): Tree
    requires x in t.nodes && d < |t.nodes[x].slots|
  {
    var n := t.nodes[x];
    t.(nodes := t.nodes[r := Node(if n.height > 0 then n.height - 1 else 0, 0, EmptySlots())]
                       [x := n.(slots := n.slots[d := r], count := n.count + 1)])
  }

  ghost function ChildShape(s: Shape, a: Place, d: nat, r: Ref): Shape
    requires a.h > 0
  {
    var b := Place(a.h - 1, a.p * SIZE + d);
    s.(at := s.at[b := r], pos := s.pos[r := b])
  }

  lemma {:induction false} ChildOk(t: Tree, s: Shape, a: Place, d: nat, r: Ref)
    requires Ok(t, s) && a in s.at && a.h > 1 && d < SIZE && NodeOk(t, s, a) && t.nodes[s.at[a]].slots[d] == 0
    requires r != 0 && r !in t.nodes && Low(a.h - 1, a.p * SIZE + d) < LIMIT
    ensures Ok(ChildTree(t, s.at[a], d, r), ChildShape(s, a, d, r))
  {
    var b := Place(a.h - 1, a.p * SIZE + d);
    assert b !in s.at by { assert SlotOf(s, a, d) == 0; }
    ChildRooted(t, s, a, d, r);
    forall c | c in ChildShape(s, a, d, r).at
      ensures NodeOk(ChildTree(t, s.at[a], d, r), ChildShape(s, a, d, r), c)
    {
      if c == b {
        ChildNew(t, s, a, d, r);
      } else if c == a {
        ChildParent(t, s, a, d, r);
      } else {
        ChildElse(t, s, a, d, r, c);
      }
    }
  }

  lemma {:induction false} ChildRooted(t: Tree, s: Shape, a: Place, d: nat, r: Ref)
    requires Ok(t, s) && a in s.at && a.h > 1 && d < SIZE && NodeOk(t, s, a)
    requires r != 0 && r !in t.nodes && Place(a.h - 1, a.p * SIZE + d) !in s.at
    ensures Linked(ChildTree(t, s.at[a], d, r), ChildShape(s, a, d, r))
    ensures Rooted(ChildTree(t, s.at[a], d, r), ChildShape(s, a, d, r))
  {
    var b := Place(a.h - 1, a.p * SIZE + d);
    var t', s' := ChildTree(t, s.at[a], d, r), ChildShape(s, a, d, r);
    LinkedAdd(t, s, t', b, r);
    forall c {:trigger HasParent(t', s', c)} | c in s'.at
      ensures HasParent(t', s', c)
    {
      ParentKept(t, s, a, d, r, c);
    }
  }

  lemma {:induction false} ParentKept(t: Tree, s: Shape, a: Place, d: nat, r: Ref, c: Place)
    requires Rooted(t, s) && a in s.at && a.h > 1 && d < SIZE && s.at[a] in t.nodes && a.h <= t.height
    requires d < |t.nodes[s.at[a]].slots| && c in ChildShape(s, a, d, r).at
    ensures HasParent(ChildTree(t, s.at[a], d, r), ChildShape(s, a, d, r), c)
  {
    if c in s.at {
      assert HasParent(t, s, c);
    } else {
      DivUp(a.p, d);
    }
  }

  lemma {:induction false} LinkedAdd(t: Tree, s: Shape, t': Tree, b: Place, r: Ref)
    requires Linked(t, s) && b !in s.at && r != 0 && r !in t.nodes && t'.nodes.Keys == t.nodes.Keys + {r}
    ensures Linked(t', s.(at := s.at[b := r], pos := s.pos[r := b]))
  {
  }

  lemma {:induction false} ChildElse(t: Tree, s: Shape, a: Place, d: nat, r: Ref, c: Place)
    requires Ok(t, s) && a in s.at && a.h > 1 && d < SIZE && NodeOk(t, s, a) && r !in t.nodes
    requires c in s.at && c != a && c != Place(a.h - 1, a.p * SIZE + d)
    ensures NodeOk(ChildTree(t, s.at[a], d, r), ChildShape(s, a, d, r), c)
  {
    var t', s' := ChildTree(t, s.at[a], d, r), ChildShape(s, a, d, r);
    assert NodeOk(t, s, c);
    forall e | 0 <= e < SIZE
      ensures SlotOf(s', c, e) == SlotOf(s, c, e)
    {
      if c.h == a.h && a.p * SIZE + d == c.p * SIZE + e {
        OtherSlot(a, d, c, e);
      }
    }
    NodeSame(t, s, t', s', c);
  }

  /** Two different slots stand for different places. */
  lemma {:induction false} OtherSlot(a: Place, d: nat, c: Place, e: nat)
    requires d < SIZE && e < SIZE && a.p * SIZE + d == c.p * SIZE + e
    ensures a.p == c.p && d == e
  {
  }

  lemma {:induction false} ChildParent(t: Tree, s: Shape, a: Place, d: nat, r: Ref)
    requires Ok(t, s) && a in s.at && a.h > 1 && d < SIZE && NodeOk(t, s, a) && t.nodes[s.at[a]].slots[d] == 0
    requires r != 0 && r !in t.nodes
    ensures NodeOk(ChildTree(t, s.at[a], d, r), ChildShape(s, a, d, r), a)
  {
    UsedSet(t.nodes[s.at[a]].slots, d, r);
  }

  lemma {:induction false} ChildNew(t: Tree, s: Shape, a: Place, d: nat, r: Ref)
    requires Ok(t, s) && a in s.at && a.h > 1 && d < SIZE && NodeOk(t, s, a) && Place(a.h - 1, a.p * SIZE + d) !in s.at
    requires r != 0 && r !in t.nodes && Low(a.h - 1, a.p * SIZE + d) < LIMIT
    ensures NodeOk(ChildTree(t, s.at[a], d, r), ChildShape(s, a, d, r), Place(a.h - 1, a.p * SIZE + d))
  {
    EmptyUsed();
    var b, s' := Place(a.h - 1, a.p * SIZE + d), ChildShape(s, a, d, r);
    forall e | 0 <= e < SIZE
      ensures SlotOf(s', b, e) == 0
    {
      var q := b.p * SIZE + e;
      assert q / SIZE == b.p;
      if b.h == 1 {
        assert q !in s.items;
      } else {
        assert Place(b.h - 1, q) in s.at ==> HasParent(t, s, Place(b.h - 1, q));
      }
    }
  }

  // ------------------------------------------------------------------ storing and clearing a slot

  function SetTree(t: Tree, x: Ref, d: nat, v: nat, count: nat): Tree
    requires x in t.nodes && d < |t.nodes[x].slots|
  {
    var n := t.nodes[x];
    t.(nodes := t.nodes[x := n.(slots := n.slots[d := v], count := count)])
  }

  /** Storing `v` under key `k`, or clearing it if `v` is NULL, in the leaf at `a`. */
  ghost function SetShape(s: Shape, k: nat, v: nat): Shape {
    s.(items := if v == 0 then s.items - {k} else s.items[k := v])
  }

  lemma {:induction false} SetOk(t: Tree, s: Shape, a: Place, d: nat, v: nat, count: nat)
    requires Ok(t, s) && a in s.at && a.h == 1 && d < SIZE && NodeOk(t, s, a) && a.p * SIZE + d < LIMIT
    requires count == Used(t.nodes[s.at[a]].slots[d := v])
    ensures Ok(SetTree(t, s.at[a], d, v, count), SetShape(s, a.p * SIZE + d, v))
  {
    SetRooted(t, s, a, d, v, count);
    SetNodes(t, s, a, d, v, count);
  }

  lemma {:induction false} SetNodes(t: Tree, s: Shape, a: Place, d: nat, v: nat, count: nat)
    requires Ok(t, s) && a in s.at && a.h == 1 && d < SIZE && NodeOk(t, s, a)
    requires count == Used(t.nodes[s.at[a]].slots[d := v])
    ensures AllNodes(SetTree(t, s.at[a], d, v, count), SetShape(s, a.p * SIZE + d, v))
  {
    var t', s' := SetTree(t, s.at[a], d, v, count), SetShape(s, a.p * SIZE + d, v);
    forall c {:trigger NodeOk(t', s', c)} | c in s'.at
      ensures NodeOk(t', s', c)
    {
      if c != a {
        SetElse(t, s, a, d, v, count, c);
      } else {
        SetNode(t, s, a, d, v, count);
      }
    }
  }

  lemma {:induction false} DivUp(p: nat, d: nat)
    requires d < SIZE
    ensures (p * SIZE + d) / SIZE == p && (p * SIZE + d) % SIZE == d
  {
  }

  lemma {:induction false} SetRooted(t: Tree, s: Shape, a: Place, d: nat, v: nat, count: nat)
    requires Linked(t, s) && Rooted(t, s) && a in s.at && a.h == 1 && d < SIZE && NodeOk(t, s, a)
    requires a.p * SIZE + d < LIMIT
    ensures Linked(SetTree(t, s.at[a], d, v, count), SetShape(s, a.p * SIZE + d, v))
    ensures Rooted(SetTree(t, s.at[a], d, v, count), SetShape(s, a.p * SIZE + d, v))
  {
    DivUp(a.p, d);
    var t', s' := SetTree(t, s.at[a], d, v, count), SetShape(s, a.p * SIZE + d, v);
    assert t'.nodes.Keys == t.nodes.Keys;
    forall c {:trigger HasParent(t', s', c)} | c in s'.at
      ensures HasParent(t', s', c)
    {
      assert HasParent(t, s, c);
    }
  }

  lemma {:induction false} SetElse(t: Tree, s: Shape, a: Place, d: nat, v: nat, count: nat, c: Place)
    requires Ok(t, s) && a in s.at && a.h == 1 && d < SIZE && NodeOk(t, s, a) && c in s.at && c != a
    ensures NodeOk(SetTree(t, s.at[a], d, v, count), SetShape(s, a.p * SIZE + d, v), c)
  {
    var k := a.p * SIZE + d;
    var t', s' := SetTree(t, s.at[a], d, v, count), SetShape(s, k, v);
    assert NodeOk(t, s, c);
    forall e | 0 <= e < SIZE
      ensures SlotOf(s', c, e) == SlotOf(s, c, e)
    {
      if c.h == 1 && k == c.p * SIZE + e {
        OtherSlot(a, d, c, e);
      }
    }
    NodeSame(t, s, t', s', c);
  }

  lemma {:induction false} SetNode(t: Tree, s: Shape, a: Place, d: nat, v: nat, count: nat)
    requires Ok(t, s) && a in s.at && a.h == 1 && d < SIZE && NodeOk(t, s, a)
    requires count == Used(t.nodes[s.at[a]].slots[d := v])
    ensures NodeOk(SetTree(t, s.at[a], d, v, count), SetShape(s, a.p * SIZE + d, v), a)
  {
    var t', s' := SetTree(t, s.at[a], d, v, count), SetShape(s, a.p * SIZE + d, v);
    forall e | 0 <= e < SIZE
      ensures t'.nodes[s.at[a]].slots[e] == SlotOf(s', a, e)
    {
      assert t.nodes[s.at[a]].slots[e] == SlotOf(s, a, e);
    }
  }

  // ------------------------------------------------------------------ pruning

  /** Freeing the empty node `y` that hangs in slot `d` of `x`. */
  function DropTree(t: Tree, x: Ref, d: nat, y: Ref): Tree
    requires x in t.nodes && d < |t.nodes[x].slots| && t.nodes[x].count > 0
  {
    var n := t.nodes[x];
    t.(nodes := t.nodes[x := n.(slots := n.slots[d := 0], count := n.count - 1)] - {y})
  }

  ghost function DropShape(s: Shape, b: Place, y: Ref): Shape {
    s.(at := s.at - {b}, pos := s.pos - {y})
  }

  /** What the pruning step works on: an empty node `y` in slot `d` of the node at `a`. */
  ghost predicate EmptyChild(t: Tree, s: Shape, a: Place, d: nat, y: Ref) {
    && a in s.at && a.h > 1 && d < SIZE && NodeOk(t, s, a)
    && y in t.nodes && t.nodes[y].count == 0 && t.nodes[s.at[a]].slots[d] == y && y != 0
  }

  lemma {:induction false} EmptyBelow(t: Tree, s: Shape, b: Place, c: Place)
    requires Ok(t, s) && b in s.at && NodeOk(t, s, b) && t.nodes[s.at[b]].count == 0
    requires c in s.at && c.h + 1 == b.h
    ensures c.p / SIZE != b.p
  {
    UsedZero(t.nodes[s.at[b]].slots);
    assert NodeOk(t, s, c);
    var e := c.p % SIZE;
    assert t.nodes[s.at[b]].slots[e] == SlotOf(s, b, e) == 0 && s.at[c] in s.pos;
    assert c.p == c.p / SIZE * SIZE + e;
    assert c == Place(b.h - 1, c.p);
  }

  lemma {:induction false} EmptyLeaf(t: Tree, s: Shape, b: Place, k: nat)
    requires Ok(t, s) && b in s.at && b.h == 1 && NodeOk(t, s, b) && t.nodes[s.at[b]].count == 0 && k in s.items
    ensures k / SIZE != b.p
  {
    UsedZero(t.nodes[s.at[b]].slots);
    var e := k % SIZE;
    assert t.nodes[s.at[b]].slots[e] == SlotOf(s, b, e);
    assert k == k / SIZE * SIZE + e;
  }

  lemma {:induction false} DropRooted(t: Tree, s: Shape, a: Place, d: nat, y: Ref)
    requires Ok(t, s) && EmptyChild(t, s, a, d, y) && t.nodes[s.at[a]].count > 0
    ensures var b := Place(a.h - 1, a.p * SIZE + d);
            b in s.at && s.at[b] == y &&
            Linked(DropTree(t, s.at[a], d, y), DropShape(s, b, y))
              && Rooted(DropTree(t, s.at[a], d, y), DropShape(s, b, y))
  {
    var b := Place(a.h - 1, a.p * SIZE + d);
    assert SlotOf(s, a, d) == y;
    assert NodeOk(t, s, b);
    var t', s' := DropTree(t, s.at[a], d, y), DropShape(s, b, y);
    forall c {:trigger HasParent(t', s', c)} | c in s'.at
      ensures HasParent(t', s', c)
    {
      assert HasParent(t, s, c) && NodeOk(t, s, c);
      if c.h + 1 == b.h {
        EmptyBelow(t, s, b, c);
      }
    }
    forall k | k in s'.items
      ensures Place(1, k / SIZE) in s'.at
    {
      if b.h == 1 {
        EmptyLeaf(t, s, b, k);
      }
    }
  }

  lemma {:induction false} DropOk(t: Tree, s: Shape, a: Place, d: nat, y: Ref)
    requires Ok(t, s) && EmptyChild(t, s, a, d, y) && t.nodes[s.at[a]].count > 0
    ensures Ok(DropTree(t, s.at[a], d, y), DropShape(s, Place(a.h - 1, a.p * SIZE + d), y))
  {
    var b := Place(a.h - 1, a.p * SIZE + d);
    var t', s' := DropTree(t, s.at[a], d, y), DropShape(s, b, y);
    DropRooted(t, s, a, d, y);
    forall c {:trigger NodeOk(t', s', c)} | c in s'.at
      ensures NodeOk(t', s', c)
    {
      assert NodeOk(t, s, c);
      if c == a {
        UsedSet(t.nodes[s.at[a]].slots, d, 0);
      } else {
        forall e | 0 <= e < SIZE
          ensures SlotOf(s', c, e) == SlotOf(s, c, e)
        {
          if c.h == a.h && a.p * SIZE + d == c.p * SIZE + e {
            OtherSlot(a, d, c, e);
          }
        }
        NodeSame(t, s, t', s', c);
      }
    }
  }

  /** Under an empty root there is nothing. */
  lemma {:induction false} EmptyRoot(t: Tree, s: Shape)
    requires Ok(t, s) && t.height > 0 && t.rnode in t.nodes && t.nodes[t.rnode].count == 0
    ensures s.items == map[] && t.nodes.Keys == {t.rnode}
  {
    forall a | a in s.at
      ensures a == Place(t.height, 0)
    {
      OnlyRoot(t, s, a);
    }
    assert NodeOk(t, s, Place(t.height, 0));
    forall k | k in s.items
      ensures false
    {
      EmptyLeaf(t, s, Place(1, k / SIZE), k);
    }
    forall r | r in t.nodes
      ensures r == t.rnode
    {
      assert r in s.pos;
    }
  }

  lemma {:induction false} OnlyRoot(t: Tree, s: Shape, a: Place)
    requires Ok(t, s) && t.height > 0 && t.rnode in t.nodes && t.nodes[t.rnode].count == 0 && a in s.at
    ensures a == Place(t.height, 0)
    decreases t.height - a.h
  {
    assert NodeOk(t, s, a) && HasParent(t, s, a);
    if a.h < t.height {
      var b := Place(a.h + 1, a.p / SIZE);
      assert NodeOk(t, s, b);
      OnlyRoot(t, s, b);
      EmptyBelow(t, s, b, a);
    }
  }

  // ------------------------------------------------------------------ heights and key ranges

  /** radix_tree_maxindex, in 32-bit arithmetic. */
  function MaxIndex(h: nat): nat {
    if h == 0 then 0 else (MaxIndex(h - 1) * SIZE + (SIZE - 1)) % LIMIT
  }

  lemma {:induction false} MaxIndexes()
    ensures MaxIndex(1) == 0x3F && MaxIndex(2) == 0xFFF && MaxIndex(3) == 0x3_FFFF
    ensures MaxIndex(4) == 0xFF_FFFF && MaxIndex(5) == 0x3FFF_FFFF && MaxIndex(6) == 0xFFFF_FFFF
  {
    assert MaxIndex(1) == 0x3F;
    assert MaxIndex(2) == 0xFFF;
  }

  lemma {:induction false} Spans()
    ensures Low(1, 1) == 0x40 && Low(2, 1) == 0x1000 && Low(3, 1) == 0x4_0000
    ensures Low(4, 1) == 0x100_0000 && Low(5, 1) == 0x4000_0000 && Low(6, 1) == 0x10_0000_0000
  {
  }

  /** A 32-bit key is within the range of height `h` exactly when no bits are left above it. */
  lemma {:induction false} MaxIndexRange(k: nat, h: nat)
    requires k < LIMIT && 1 <= h <= 6
    ensures k <= MaxIndex(h) <==> Prefix(k, h) == 0
    ensures h == 6 ==> k <= MaxIndex(h)
  {
    MaxIndexes();
    Spans();
    PrefixBelow(k, h);
  }

  lemma {:induction false} PrefixBelow(k: nat, h: nat)
    ensures Prefix(k, h) == 0 <==> k < Low(h, 1)
  {
    if Prefix(k, h) > 0 {
      LowPrefix(k, h);
      LowMono(h, 1, Prefix(k, h));
    } else {
      PrefixHigh(k, h);
    }
  }

  /** A key lies below the next prefix. */
  lemma {:induction false} PrefixHigh(k: nat, h: nat)
    ensures k < Low(h, Prefix(k, h) + 1)
    decreases h
  {
    if h > 0 {
      PrefixHigh(k, h - 1);
      LowMono(h - 1, Prefix(k, h - 1) + 1, (Prefix(k, h - 1) / SIZE + 1) * SIZE);
    }
  }

  // ------------------------------------------------------------------ walking down

  /** The slot that leads from height `h` towards key `k`. */
  function Offset(k: nat, h: nat): nat
    requires h > 0
  {
    Prefix(k, h - 1) % SIZE
  }

  lemma {:induction false} Down(t: Tree, s: Shape, k: nat, h: nat)
    requires Ok(t, s) && h > 0 && Place(h, Prefix(k, h)) in s.at
    ensures var x := s.at[Place(h, Prefix(k, h))];
            && x in t.nodes && x != 0 && t.nodes[x].height == h <= t.height && |t.nodes[x].slots| == SIZE
            && t.nodes[x].count == Used(t.nodes[x].slots)
            && t.nodes[x].slots[Offset(k, h)] ==
                 if h == 1 then (if k in s.items then s.items[k] else 0)
                 else if Place(h - 1, Prefix(k, h - 1)) in s.at then s.at[Place(h - 1, Prefix(k, h - 1))] else 0
    ensures h > 1 && Place(h - 1, Prefix(k, h - 1)) in s.at ==> s.at[Place(h - 1, Prefix(k, h - 1))] != 0
    ensures Prefix(k, h) * SIZE + Offset(k, h) == Prefix(k, h - 1)
  {
    var a := Place(h, Prefix(k, h));
    assert NodeOk(t, s, a);
    assert SlotOf(s, a, Offset(k, h)) == t.nodes[s.at[a]].slots[Offset(k, h)];
  }

  /** A stored key has a node at every height. */
  lemma {:induction false} KeyPath(t: Tree, s: Shape, k: nat, h: nat)
    requires Ok(t, s) && k in s.items && 1 <= h <= t.height
    ensures Place(h, Prefix(k, h)) in s.at
    decreases h
  {
    if h > 1 {
      KeyPath(t, s, k, h - 1);
      assert HasParent(t, s, Place(h - 1, Prefix(k, h - 1)));
    } else {
      assert Prefix(k, 1) == k / SIZE by { assert Prefix(k, 0) == k; }
    }
  }

  /** A stored key is in the range of the tree. */
  lemma {:induction false} KeyRange(t: Tree, s: Shape, k: nat)
    requires Ok(t, s) && k in s.items
    ensures t.height > 0 && Prefix(k, t.height) == 0
  {
    assert NodeOk(t, s, Place(1, k / SIZE));
    KeyPath(t, s, k, t.height);
    assert HasParent(t, s, Place(t.height, Prefix(k, t.height)));
  }

  /** The first node of an empty tree. */
  lemma {:induction false} FirstOk(t: Tree, s: Shape, h: nat, r: Ref)
    requires Ok(t, s) && t.height == 0 && 1 <= h <= 6 && r != 0
    ensures t.nodes == map[] && s.items == map[]
    ensures Ok(Tree(h, r, map[r := Node(h, 0, EmptySlots())]),
              Shape(map[Place(h, 0) := r], map[r := Place(h, 0)], map[]))
  {
    EmptyUsed();
    LowZero(h);
    assert t.nodes.Keys == {};
    var t', s' := Tree(h, r, map[r := Node(h, 0, EmptySlots())]),
      Shape(map[Place(h, 0) := r], map[r := Place(h, 0)], map[]);
    assert NodeOk(t', s', Place(h, 0));
    assert HasParent(t', s', Place(h, 0));
  }
}
