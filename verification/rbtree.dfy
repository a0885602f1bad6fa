/** lib/rbtree.c: rotations, rebalancing after insertion and erasure, and in-order walking,
    as in-place updates of the node heap.

    Ghost parameters `k` and `t` name the position a method works at: `Holds(k, t)` says that the
    tree is `t` plugged into `k`.
 */
module RbTree {
  import opened RbModel
  import opened RbColors

  function RotL(t: Tree): Tree
    requires t.Bin? && t.r.Bin?
  {
    Bin(Bin(t.l, t.id, t.c, t.r.l), t.r.id, t.r.c, t.r.r)
  }

  function RotR(t: Tree): Tree
    requires t.Bin? && t.l.Bin?
  {
    Bin(t.l.l, t.l.id, t.l.c, Bin(t.l.r, t.id, t.c, t.r))
  }

  class RbRoot {
    var root: Ref
    var nodes: Heap

    ghost var shape: Tree

    /** The heap holds the red-black tree `shape`. */
    ghost predicate Valid()
      reads this
    {
      Holds(Top, shape) && RedBlack(shape)
    }

    ghost predicate Holds(k: Ctx, t: Tree)
      reads this
    {
      Zip(nodes, root, k, t)
    }

    /** rb_rotate_left */
    method RotateLeft(node: Ref, ghost k: Ctx, ghost t: Tree)
      requires Holds(k, t) && t.Bin? && t.id == node && t.r.Bin?
      modifies this
      ensures Holds(k, RotL(t))
      ensures Kept(old(nodes), nodes, Inorder(Plug(k, t)))
    {
      Neighbours(nodes, root, k, t, L);
      var right := nodes[node].right;
      nodes := nodes[node := nodes[node].(right := nodes[right].left)];
      if nodes[node].right != NULL {
        var b := nodes[right].left;
        nodes := nodes[b := nodes[b].(parent := node)];
      }
      nodes := nodes[right := nodes[right].(left := node)];
      nodes := nodes[right := nodes[right].(parent := nodes[node].parent)];
      if nodes[right].parent != NULL {
        var p := nodes[node].parent;
        if node == nodes[p].left {
          nodes := nodes[p := nodes[p].(left := right)];
        } else {
          nodes := nodes[p := nodes[p].(right := right)];
        }
      } else {
        root := right;
      }
      nodes := nodes[node := nodes[node].(parent := right)];
      Rotate(old(nodes), old(root), nodes, root, k, L, t.l, node, t.c, t.r.l, t.r.id, t.r.c, t.r.r);
      AgreeKept(old(nodes), nodes, k, t);
    }

    /** rb_rotate_right */
    method RotateRight(node: Ref, ghost k: Ctx, ghost t: Tree)
      requires Holds(k, t) && t.Bin? && t.id == node && t.l.Bin?
      modifies this
      ensures Holds(k, RotR(t))
      ensures Kept(old(nodes), nodes, Inorder(Plug(k, t)))
    {
      Neighbours(nodes, root, k, t, R);
      var left := nodes[node].left;
      nodes := nodes[node := nodes[node].(left := nodes[left].right)];
      if nodes[node].left != NULL {
        var b := nodes[left].right;
        nodes := nodes[b := nodes[b].(parent := node)];
      }
      nodes := nodes[left := nodes[left].(right := node)];
      nodes := nodes[left := nodes[left].(parent := nodes[node].parent)];
      if nodes[left].parent != NULL {
        var p := nodes[node].parent;
        if node == nodes[p].right {
          nodes := nodes[p := nodes[p].(right := left)];
        } else {
          nodes := nodes[p := nodes[p].(left := left)];
        }
      } else {
        root := left;
      }
      nodes := nodes[node := nodes[node].(parent := left)];
      Rotate(old(nodes), old(root), nodes, root, k, R, t.r, node, t.c, t.l.r, t.l.id, t.l.c, t.l.l);
      AgreeKept(old(nodes), nodes, k, t);
    }

    /** The parent-is-a-left-child branch of rb_insert_color's loop body. */
    method InsertUnderLeft(node0: Ref, parent0: Ref, gparent: Ref, ghost k0: Ctx, ghost t0: Tree)
      returns (node: Ref, ghost k: Ctx, ghost t: Tree)
      requires Holds(k0, t0) && Inserting(k0, t0) && node0 == t0.id
      requires k0.In? && k0.c == Red && k0.up.In? && parent0 == k0.id && gparent == k0.up.id && k0.up.s == L
      modifies this
      ensures Holds(k, t) && Inserting(k, t) && node == t.id && Depth(k) < Depth(k0)
      ensures Inorder(Plug(k, t)) == Inorder(Plug(k0, t0)) && Kept(old(nodes), nodes, Inorder(Plug(k0, t0)))
    {
      var parent := parent0;
      node, k, t := node0, k0, t0;
      Pointers(nodes, root, k, t);
      var uncle := nodes[gparent].right;
      if uncle != NULL && nodes[uncle].color == Red {
        nodes := nodes[uncle := nodes[uncle].(color := Black)];
        nodes := nodes[parent := nodes[parent].(color := Black)];
        nodes := nodes[gparent := nodes[gparent].(color := Red)];
        PaintPush(old(nodes), root, k, t);
        InsertPush(k, t);
        node := gparent;
        k, t := k.up.up, Pushed(k, t);
        return;
      }
      if nodes[parent].right == node {
        FocusUp(nodes, root, k, t);
        InsertBend(k, L, t.l, node, t.r);
        RotateLeft(parent, k.up, Bin(k.sib, parent, k.c, t));
        k, t := In(k.up, L, node, Red, t.r), Bin(k.sib, parent, Red, t.l);
        FocusUp(nodes, root, k, t);
        Pointers(nodes, root, k, t);
        node, parent := parent, node;
      }
      ghost var m := nodes;
      nodes := nodes[parent := nodes[parent].(color := Black)];
      nodes := nodes[gparent := nodes[gparent].(color := Red)];
      PaintRaise(m, root, k, t);
      ghost var m1 := nodes;
      InsertRaise(k, t);
      RotateRight(gparent, k.up.up, Raising(k, t));
      k := Raised(k);
      FocusUp(nodes, root, k, t);
      KeptThrice(old(nodes), m, m1, nodes, Inorder(Plug(k0, t0)));
    }

    /** The parent-is-a-right-child branch of rb_insert_color's loop body. */
    method InsertUnderRight(node0: Ref, parent0: Ref, gparent: Ref, ghost k0: Ctx, ghost t0: Tree)
      returns (node: Ref, ghost k: Ctx, ghost t: Tree)
      requires Holds(k0, t0) && Inserting(k0, t0) && node0 == t0.id
      requires k0.In? && k0.c == Red && k0.up.In? && parent0 == k0.id && gparent == k0.up.id && k0.up.s == R
      modifies this
      ensures Holds(k, t) && Inserting(k, t) && node == t.id && Depth(k) < Depth(k0)
      ensures Inorder(Plug(k, t)) == Inorder(Plug(k0, t0)) && Kept(old(nodes), nodes, Inorder(Plug(k0, t0)))
    {
      var parent := parent0;
      node, k, t := node0, k0, t0;
      Pointers(nodes, root, k, t);
      var uncle := nodes[gparent].left;
      if uncle != NULL && nodes[uncle].color == Red {
        nodes := nodes[uncle := nodes[uncle].(color := Black)];
        nodes := nodes[parent := nodes[parent].(color := Black)];
        nodes := nodes[gparent := nodes[gparent].(color := Red)];
        PaintPush(old(nodes), root, k, t);
        InsertPush(k, t);
        node := gparent;
        k, t := k.up.up, Pushed(k, t);
        return;
      }
      if nodes[parent].left == node {
        FocusUp(nodes, root, k, t);
        InsertBend(k, R, t.r, node, t.l);
        RotateRight(parent, k.up, Bin(t, parent, k.c, k.sib));
        k, t := In(k.up, R, node, Red, t.l), Bin(t.r, parent, Red, k.sib);
        FocusUp(nodes, root, k, t);
        Pointers(nodes, root, k, t);
        node, parent := parent, node;
      }
      ghost var m := nodes;
      nodes := nodes[parent := nodes[parent].(color := Black)];
      nodes := nodes[gparent := nodes[gparent].(color := Red)];
      PaintRaise(m, root, k, t);
      ghost var m1 := nodes;
      InsertRaise(k, t);
      RotateLeft(gparent, k.up.up, Raising(k, t));
      k := Raised(k);
      FocusUp(nodes, root, k, t);
      KeptThrice(old(nodes), m, m1, nodes, Inorder(Plug(k0, t0)));
    }

    /** The loop of rb_insert_color. */
    method InsertClimb(n0: Ref, ghost k0: Ctx, ghost t0: Tree) returns (ghost k: Ctx, ghost t: Tree)
      requires Holds(k0, t0) && Inserting(k0, t0) && t0.id == n0
      modifies this
      ensures Holds(k, t) && Inserting(k, t) && (k.Top? || RedOk(k))
      ensures Inorder(Plug(k, t)) == Inorder(Plug(k0, t0)) && Kept(old(nodes), nodes, Inorder(Plug(k0, t0)))
    {
      k, t := k0, t0;
      var node := n0;
      FocusPointers(nodes, root, k, t);
      while nodes[node].parent != NULL && nodes[nodes[node].parent].color == Red
        invariant Holds(k, t) && Inserting(k, t) && node == t.id && node in nodes && nodes[node].parent == Up(k)
        invariant k.In? ==> k.id != NULL && k.id in nodes && nodes[k.id].color == k.c
        invariant Inorder(Plug(k, t)) == Inorder(Plug(k0, t0)) && Kept(old(nodes), nodes, Inorder(Plug(k0, t0)))
        decreases Depth(k)
      {
        var parent := nodes[node].parent;
        var gparent := nodes[parent].parent;
        ghost var m := nodes;
        InsertingGrand(k, t);
        Pointers(nodes, root, k, t);
        if parent == nodes[gparent].left {
          node, k, t := InsertUnderLeft(node, parent, gparent, k, t);
        } else {
          node, k, t := InsertUnderRight(node, parent, gparent, k, t);
        }
        FocusPointers(nodes, root, k, t);
        KeptThrice(old(nodes), m, nodes, nodes, Inorder(Plug(k0, t0)));
      }
    }

    /** rb_insert_color, on a red leaf `n0` already linked at the position `k0`. */
    method InsertColor(n0: Ref, ghost k0: Ctx)
      requires Holds(k0, Bin(Leaf, n0, Red, Leaf)) && RedBlack(Plug(k0, Leaf))
      modifies this
      ensures Valid()
      ensures Inorder(shape) == Inorder(Plug(k0, Bin(Leaf, n0, Red, Leaf)))
      ensures Kept(old(nodes), nodes, Inorder(shape))
    {
      ghost var t0 := Bin(Leaf, n0, Red, Leaf);
      InsertStart(k0, t0);
      ghost var k, t := InsertClimb(n0, k0, t0);
      ghost var m := nodes;
      FocusPointers(nodes, root, k, t);
      FocusTop(nodes, root, k, t);
      nodes := nodes[root := nodes[root].(color := Black)];
      shape := Blacken(Plug(k, t));
      InsertEnd(m, nodes, root, k, t);
      KeptThrice(old(nodes), m, nodes, nodes, Inorder(Plug(k0, t0)));
    }

    // ------------------------------------------------------------------ erasure

    predicate IsBlack(n: Ref)
      requires n == NULL || n in nodes
      reads this
    {
      n == NULL || nodes[n].color == Black
    }

    /** Red sibling, node on the left: rb_erase_color recolours and rotates the parent. */
    method EraseSwapLeft(parent: Ref, other: Ref, ghost k: Ctx, ghost t: Tree)
      requires Holds(k, t) && k.In? && k.s == L && IsRed(k.sib) && parent == k.id && other == k.sib.id
      requires Erasing(k, t)
      modifies this
      ensures Holds(SwappedCtx(k), t) && Kept(old(nodes), nodes, Inorder(Plug(k, t)))
    {
      SibPointers(nodes, root, k, t);
      EraseSwap(k, t);
      PaintSwap(nodes, root, k, t);
      nodes := nodes[other := nodes[other].(color := Black)];
      nodes := nodes[parent := nodes[parent].(color := Red)];
      ghost var m := nodes;
      RotateLeft(parent, k.up, Swapped(k, t));
      ghost var k' := SwappedCtx(k);
      FocusUp(nodes, root, k', t);
      FocusUp(nodes, root, k'.up, Mk(k'.s, t, k'.id, k'.c, k'.sib));
      KeptThrice(old(nodes), m, nodes, nodes, Inorder(Plug(k, t)));
    }

    /** Black sibling whose near child alone is red, node on the left: the near child comes up. */
    method EraseTurnLeft(other: Ref, ghost k: Ctx, ghost t: Tree)
      requires Holds(k, t) && k.In? && k.s == L && k.sib.Bin? && other == k.sib.id && k.sib.l.Bin?
      modifies this
      ensures Holds(k.(sib := Turned(L, k.sib)), t) && Kept(old(nodes), nodes, Inorder(Plug(k, t)))
    {
      SibPointers(nodes, root, k, t);
      FocusSib(nodes, root, k, t);
      PaintNear(nodes, root, Turn(k, t), L, k.sib.l, k.sib.id, k.sib.c, k.sib.r);
      var near := nodes[other].left;
      if near != NULL {
        nodes := nodes[near := nodes[near].(color := Black)];
      }
      nodes := nodes[other := nodes[other].(color := Red)];
      ghost var m := nodes;
      ghost var sib := Mk(L, k.sib.l.(c := Black), k.sib.id, Red, k.sib.r);
      InorderTurn(k, t, sib);
      RotateRight(other, Turn(k, t), sib);
      FocusSib(nodes, root, k.(sib := Turned(L, k.sib)), t);
      KeptThrice(old(nodes), m, nodes, nodes, Inorder(Plug(k, t)));
    }

    /** Red far child, node on the left: recolour, rotate the parent, done. */
    method EraseLiftLeft(parent: Ref, other: Ref, ghost k: Ctx, ghost t: Tree)
      requires Holds(k, t) && k.In? && k.s == L && k.sib.Bin? && parent == k.id && other == k.sib.id && k.sib.r.Bin?
      requires Erasing(k, t) && !IsRed(t) && !IsRed(k.sib) && IsRed(k.sib.r)
      modifies this
      ensures Holds(k.up, Lifted(k, t)) && Kept(old(nodes), nodes, Inorder(Plug(k, t)))
    {
      SibPointers(nodes, root, k, t);
      PaintLift(nodes, root, k, t, k.sib.r);
      EraseLift(k, t);
      nodes := nodes[other := nodes[other].(color := nodes[parent].color)];
      nodes := nodes[parent := nodes[parent].(color := Black)];
      if nodes[other].right != NULL {
        var far := nodes[other].right;
        nodes := nodes[far := nodes[far].(color := Black)];
      }
      ghost var m := nodes;
      RotateLeft(parent, k.up, Lifting(k, t));
      KeptThrice(old(nodes), m, nodes, nodes, Inorder(Plug(k, t)));
    }

    /** The rest of that branch once the sibling is black; `fixed` is the `break`. */
    method EraseBlackLeft(parent0: Ref, other0: Ref, ghost k0: Ctx, ghost t0: Tree)
      returns (fixed: bool, node: Ref, parent: Ref, ghost k: Ctx, ghost t: Tree)
      requires Holds(k0, t0) && Erasing(k0, t0) && !IsRed(t0)
      requires k0.In? && k0.s == L && parent0 == k0.id && k0.sib.Bin? && other0 == k0.sib.id && !IsRed(k0.sib)
      modifies this
      ensures Holds(k, t) && (if fixed then Sound(k, t) else Erasing(k, t))
      ensures if fixed then node == root else node == Root(t) && parent == Up(k) && k == k0.up && t.Bin? && t.c == k0.c
      ensures Inorder(Plug(k, t)) == Inorder(Plug(k0, t0)) && Kept(old(nodes), nodes, Inorder(Plug(k0, t0)))
    {
      fixed, node, parent, k, t := false, NULL, parent0, k0, t0;
      var other := other0;
      SibPointers(nodes, root, k, t);
      if IsBlack(nodes[other].left) && IsBlack(nodes[other].right) {
        nodes := nodes[other := nodes[other].(color := Red)];
        EraseFade(k, t);
        PaintFade(old(nodes), nodes, root, k, t);
        k, t := k.up, Mk(k.s, t, k.id, k.c, k.sib.(c := Red));
        FocusPointers(nodes, root, k, t);
        node := parent;
        parent := nodes[node].parent;
      } else {
        if IsBlack(nodes[other].right) {
          EraseTurn(k, t);
          EraseTurnLeft(other, k, t);
          k := k.(sib := Turned(L, k.sib));
          SibPointers(nodes, root, k, t);
          other := nodes[parent].right;
        }
        ghost var m := nodes;
        EraseLift(k, t);
        EraseLiftLeft(parent, other, k, t);
        KeptThrice(old(nodes), m, nodes, nodes, Inorder(Plug(k0, t0)));
        k, t := k.up, Lifted(k, t);
        node := root;
        fixed := true;
      }
    }

    /** The node-is-a-left-child branch of rb_erase_color's loop body; `fixed` is its `break`. */
    method EraseUnderLeft(node0: Ref, parent0: Ref, ghost k0: Ctx, ghost t0: Tree)
      returns (fixed: bool, node: Ref, parent: Ref, ghost k: Ctx, ghost t: Tree)
      requires Holds(k0, t0) && Erasing(k0, t0) && !IsRed(t0)
      requires k0.In? && k0.s == L && node0 == Root(t0) && parent0 == k0.id
      modifies this
      ensures Holds(k, t) && (if fixed then Sound(k, t) else Erasing(k, t))
      ensures if fixed then node == root else node == Root(t) && parent == Up(k) && (IsRed(t) || Depth(k) < Depth(k0))
      ensures Inorder(Plug(k, t)) == Inorder(Plug(k0, t0)) && Kept(old(nodes), nodes, Inorder(Plug(k0, t0)))
    {
      fixed, node, parent, k, t := false, node0, parent0, k0, t0;
      ErasingSib(k, t);
      SibPointers(nodes, root, k, t);
      var other := nodes[parent].right;
      if nodes[other].color == Red {
        EraseSwap(k, t);
        EraseSwapLeft(parent, other, k, t);
        k := SwappedCtx(k);
        SibPointers(nodes, root, k, t);
        other := nodes[parent].right;
      }
      ghost var m := nodes;
      fixed, node, parent, k, t := EraseBlackLeft(parent, other, k, t);
      KeptThrice(old(nodes), m, nodes, nodes, Inorder(Plug(k0, t0)));
    }

    /** Red sibling, node on the right: rb_erase_color recolours and rotates the parent. */
    method EraseSwapRight(parent: Ref, other: Ref, ghost k: Ctx, ghost t: Tree)
      requires Holds(k, t) && k.In? && k.s == R && IsRed(k.sib) && parent == k.id && other == k.sib.id
      requires Erasing(k, t)
      modifies this
      ensures Holds(SwappedCtx(k), t) && Kept(old(nodes), nodes, Inorder(Plug(k, t)))
    {
      SibPointers(nodes, root, k, t);
      EraseSwap(k, t);
      PaintSwap(nodes, root, k, t);
      nodes := nodes[other := nodes[other].(color := Black)];
      nodes := nodes[parent := nodes[parent].(color := Red)];
      ghost var m := nodes;
      RotateRight(parent, k.up, Swapped(k, t));
      ghost var k' := SwappedCtx(k);
      FocusUp(nodes, root, k', t);
      FocusUp(nodes, root, k'.up, Mk(k'.s, t, k'.id, k'.c, k'.sib));
      KeptThrice(old(nodes), m, nodes, nodes, Inorder(Plug(k, t)));
    }

    /** Black sibling whose near child alone is red, node on the right: the near child comes up. */
    method EraseTurnRight(other: Ref, ghost k: Ctx, ghost t: Tree)
      requires Holds(k, t) && k.In? && k.s == R && k.sib.Bin? && other == k.sib.id && k.sib.r.Bin?
      modifies this
      ensures Holds(k.(sib := Turned(R, k.sib)), t) && Kept(old(nodes), nodes, Inorder(Plug(k, t)))
    {
      SibPointers(nodes, root, k, t);
      FocusSib(nodes, root, k, t);
      PaintNear(nodes, root, Turn(k, t), R, k.sib.r, k.sib.id, k.sib.c, k.sib.l);
      var near := nodes[other].right;
      if near != NULL {
        nodes := nodes[near := nodes[near].(color := Black)];
      }
      nodes := nodes[other := nodes[other].(color := Red)];
      ghost var m := nodes;
      ghost var sib := Mk(R, k.sib.r.(c := Black), k.sib.id, Red, k.sib.l);
      InorderTurn(k, t, sib);
      RotateLeft(other, Turn(k, t), sib);
      FocusSib(nodes, root, k.(sib := Turned(R, k.sib)), t);
      KeptThrice(old(nodes), m, nodes, nodes, Inorder(Plug(k, t)));
    }

    /** Red far child, node on the right: recolour, rotate the parent, done. */
    method EraseLiftRight(parent: Ref, other: Ref, ghost k: Ctx, ghost t: Tree)
      requires Holds(k, t) && k.In? && k.s == R && k.sib.Bin? && parent == k.id && other == k.sib.id && k.sib.l.Bin?
      requires Erasing(k, t) && !IsRed(t) && !IsRed(k.sib) && IsRed(k.sib.l)
      modifies this
      ensures Holds(k.up, Lifted(k, t)) && Kept(old(nodes), nodes, Inorder(Plug(k, t)))
    {
      SibPointers(nodes, root, k, t);
      PaintLift(nodes, root, k, t, k.sib.l);
      EraseLift(k, t);
      nodes := nodes[other := nodes[other].(color := nodes[parent].color)];
      nodes := nodes[parent := nodes[parent].(color := Black)];
      if nodes[other].left != NULL {
        var far := nodes[other].left;
        nodes := nodes[far := nodes[far].(color := Black)];
      }
      ghost var m := nodes;
      RotateRight(parent, k.up, Lifting(k, t));
      KeptThrice(old(nodes), m, nodes, nodes, Inorder(Plug(k, t)));
    }

    /** The rest of that branch once the sibling is black; `fixed` is the `break`. */
    method EraseBlackRight(parent0: Ref, other0: Ref, ghost k0: Ctx, ghost t0: Tree)
      returns (fixed: bool, node: Ref, parent: Ref, ghost k: Ctx, ghost t: Tree)
      requires Holds(k0, t0) && Erasing(k0, t0) && !IsRed(t0)
      requires k0.In? && k0.s == R && parent0 == k0.id && k0.sib.Bin? && other0 == k0.sib.id && !IsRed(k0.sib)
      modifies this
      ensures Holds(k, t) && (if fixed then Sound(k, t) else Erasing(k, t))
      ensures if fixed then node == root else node == Root(t) && parent == Up(k) && k == k0.up && t.Bin? && t.c == k0.c
      ensures Inorder(Plug(k, t)) == Inorder(Plug(k0, t0)) && Kept(old(nodes), nodes, Inorder(Plug(k0, t0)))
    {
      fixed, node, parent, k, t := false, NULL, parent0, k0, t0;
      var other := other0;
      SibPointers(nodes, root, k, t);
      if IsBlack(nodes[other].left) && IsBlack(nodes[other].right) {
        nodes := nodes[other := nodes[other].(color := Red)];
        EraseFade(k, t);
        PaintFade(old(nodes), nodes, root, k, t);
        k, t := k.up, Mk(k.s, t, k.id, k.c, k.sib.(c := Red));
        FocusPointers(nodes, root, k, t);
        node := parent;
        parent := nodes[node].parent;
      } else {
        if IsBlack(nodes[other].left) {
          EraseTurn(k, t);
          EraseTurnRight(other, k, t);
          k := k.(sib := Turned(R, k.sib));
          SibPointers(nodes, root, k, t);
          other := nodes[parent].left;
        }
        ghost var m := nodes;
        EraseLift(k, t);
        EraseLiftRight(parent, other, k, t);
        KeptThrice(old(nodes), m, nodes, nodes, Inorder(Plug(k0, t0)));
        k, t := k.up, Lifted(k, t);
        node := root;
        fixed := true;
      }
    }

    /** The node-is-a-right-child branch of rb_erase_color's loop body; `fixed` is its `break`. */
    method EraseUnderRight(node0: Ref, parent0: Ref, ghost k0: Ctx, ghost t0: Tree)
      returns (fixed: bool, node: Ref, parent: Ref, ghost k: Ctx, ghost t: Tree)
      requires Holds(k0, t0) && Erasing(k0, t0) && !IsRed(t0)
      requires k0.In? && k0.s == R && node0 == Root(t0) && parent0 == k0.id
      modifies this
      ensures Holds(k, t) && (if fixed then Sound(k, t) else Erasing(k, t))
      ensures if fixed then node == root else node == Root(t) && parent == Up(k) && (IsRed(t) || Depth(k) < Depth(k0))
      ensures Inorder(Plug(k, t)) == Inorder(Plug(k0, t0)) && Kept(old(nodes), nodes, Inorder(Plug(k0, t0)))
    {
      fixed, node, parent, k, t := false, node0, parent0, k0, t0;
      ErasingSib(k, t);
      SibPointers(nodes, root, k, t);
      var other := nodes[parent].left;
      if nodes[other].color == Red {
        EraseSwap(k, t);
        EraseSwapRight(parent, other, k, t);
        k := SwappedCtx(k);
        SibPointers(nodes, root, k, t);
        other := nodes[parent].left;
      }
      ghost var m := nodes;
      fixed, node, parent, k, t := EraseBlackRight(parent, other, k, t);
      KeptThrice(old(nodes), m, nodes, nodes, Inorder(Plug(k0, t0)));
    }

    /** The loop of rb_erase_color; `fixed` says that it was left by `break`. */
    method EraseClimb(node0: Ref, parent0: Ref, ghost k0: Ctx, ghost t0: Tree)
      returns (fixed: bool, node: Ref, ghost k: Ctx, ghost t: Tree)
      requires Holds(k0, t0) && Erasing(k0, t0) && node0 == Root(t0) && parent0 == Up(k0)
      modifies this
      ensures Holds(k, t)
      ensures if fixed then Sound(k, t) && node == root else Erasing(k, t) && node == Root(t) && (IsRed(t) || k.Top?)
      ensures Inorder(Plug(k, t)) == Inorder(Plug(k0, t0)) && Kept(old(nodes), nodes, Inorder(Plug(k0, t0)))
    {
      fixed, node, k, t := false, node0, k0, t0;
      var parent := parent0;
      FocusPointers(nodes, root, k, t);
      while (node == NULL || nodes[node].color == Black) && node != root
        invariant !fixed && Holds(k, t) && Erasing(k, t) && node == Root(t) && parent == Up(k)
        invariant t.Bin? ==> node != NULL && node in nodes && nodes[node].color == t.c
        invariant k.Top? <==> node == root
        invariant Inorder(Plug(k, t)) == Inorder(Plug(k0, t0)) && Kept(old(nodes), nodes, Inorder(Plug(k0, t0)))
        decreases if IsRed(t) then 0 else Depth(k) + 1
      {
        ghost var m := nodes;
        ErasingSib(k, t);
        SibPointers(nodes, root, k, t);
        if nodes[parent].left == node {
          fixed, node, parent, k, t := EraseUnderLeft(node, parent, k, t);
        } else {
          fixed, node, parent, k, t := EraseUnderRight(node, parent, k, t);
        }
        KeptThrice(old(nodes), m, nodes, nodes, Inorder(Plug(k0, t0)));
        if fixed {
          break;
        }
        FocusPointers(nodes, root, k, t);
      }
    }

    /** rb_erase_color, on a focus that is one black node short. */
    method EraseColor(node0: Ref, parent0: Ref, ghost k0: Ctx, ghost t0: Tree)
      requires Holds(k0, t0) && Erasing(k0, t0) && node0 == Root(t0) && parent0 == Up(k0)
      modifies this
      ensures Valid() && Inorder(shape) == Inorder(Plug(k0, t0))
      ensures Kept(old(nodes), nodes, Inorder(Plug(k0, t0)))
    {
      var fixed, node;
      ghost var k, t;
      fixed, node, k, t := EraseClimb(node0, parent0, k0, t0);
      ghost var m := nodes;
      FocusPointers(nodes, root, k, t);
      if fixed {
        FocusTop(nodes, root, k, t);
        SoundTop(k, t);
        k, t := Top, Plug(k, t);
      } else {
        EraseEnd(k, t);
      }
      if node != NULL {
        nodes := nodes[node := nodes[node].(color := Black)];
      }
      shape := Plug(k, Blacken(t));
      EraseFinish(m, nodes, root, k, t);
      KeptThrice(old(nodes), m, nodes, nodes, Inorder(Plug(k0, t0)));
    }

    /** rb_erase's unlinking of a node with at most one child: `child` takes its place. */
    method Unlink(node: Ref, child: Ref, parent: Ref, ghost k: Ctx, ghost s: Side, ghost c: Color, ghost t: Tree)
      requires Holds(k, Mk(s, Leaf, node, c, t)) && child == Root(t) && parent == Up(k)
      modifies this`nodes, this`root
      ensures Holds(k, t) && node !in Ids(t) + CIds(k) && node in nodes && nodes[node] == old(nodes)[node]
      ensures Kept(old(nodes), nodes, Inorder(Plug(k, t)))
    {
      FocusPointers(nodes, root, k, Mk(s, Leaf, node, c, t));
      ChildPointers(nodes, root, k, s, node, c, t);
      if child != NULL {
        nodes := nodes[child := nodes[child].(parent := parent)];
      }
      if parent != NULL {
        if nodes[parent].left == node {
          nodes := nodes[parent := nodes[parent].(left := child)];
        } else {
          nodes := nodes[parent := nodes[parent].(right := child)];
        }
      } else {
        root := child;
      }
      Splice(old(nodes), old(root), nodes, root, k, s, node, c, t);
      AgreeKept(old(nodes), nodes, k, t);
    }

    /** rb_erase's replacement of `victim` by its successor `node`, already unlinked. */
    method SwapIn(victim: Ref, node: Ref, ghost k: Ctx, ghost l: Tree, ghost c: Color, ghost r: Tree)
      requires Holds(k, Bin(l, victim, c, r)) && l.Bin?
      requires node in nodes && node !in Ids(l) + {victim} + Ids(r) + CIds(k)
      modifies this`nodes, this`root
      ensures Holds(k, Bin(l, node, c, r))
      ensures Kept(old(nodes), nodes, Inorder(Plug(k, Bin(l, node, c, r))))
    {
      FocusPointers(nodes, root, k, Bin(l, victim, c, r));
      TwoChildPointers(nodes, root, k, l, victim, c, r);
      nodes := nodes[node := nodes[victim]];
      var up := nodes[victim].parent;
      if up != NULL {
        if nodes[up].left == victim {
          nodes := nodes[up := nodes[up].(left := node)];
        } else {
          nodes := nodes[up := nodes[up].(right := node)];
        }
      } else {
        root := node;
      }
      var left, right := nodes[victim].left, nodes[victim].right;
      nodes := nodes[left := nodes[left].(parent := node)];
      if right != NULL {
        nodes := nodes[right := nodes[right].(parent := node)];
      }
      Replace(old(nodes), old(root), nodes, root, k, l, victim, node, c, r);
      AgreeKept(old(nodes), nodes, k, Bin(l, node, c, r));
    }

    /** Follows left children from `n`; the walk of rb_erase, rb_first and rb_next. */
    method Leftmost(n: Ref, ghost k: Ctx, ghost t: Tree) returns (node: Ref, ghost p: Spine, ghost cur: Tree)
      requires Holds(k, t) && t.Bin? && n == t.id
      ensures Holds(Hang(p, k), cur) && cur.Bin? && cur.l.Leaf? && node == cur.id && t == PlugSpine(p, cur)
    {
      node, p, cur := n, SNil, t;
      FocusPointers(nodes, root, k, t);
      while nodes[node].left != NULL
        invariant Holds(Hang(p, k), cur) && cur.Bin? && node == cur.id && t == PlugSpine(p, cur)
        invariant node in nodes && nodes[node].left == Root(cur.l) && (cur.l.Leaf? <==> Root(cur.l) == NULL)
        decreases cur
      {
        FocusUp(nodes, root, In(Hang(p, k), L, cur.id, cur.c, cur.r), cur.l);
        p, cur := SCons(cur.id, cur.c, cur.r, p), cur.l;
        node := nodes[node].left;
        FocusPointers(nodes, root, Hang(p, k), cur);
      }
    }

    /** rb_erase's first half on a node with two children: the successor is unlinked and put in its place. */
    method Supplant(victim: Ref, ghost k: Ctx, ghost l: Tree, ghost c: Color, ghost r: Tree)
      returns (child: Ref, parent: Ref, color: Color, ghost p: Spine, ghost y: Ref, ghost t: Tree)
      requires Holds(k, Bin(l, victim, c, r)) && l.Bin? && r.Bin?
      modifies this`nodes, this`root
      ensures r == PlugSpine(p, Bin(Leaf, y, color, t))
      ensures Holds(Moved(p, k, l, y, c), t) && child == Root(t) && parent == Up(Moved(p, k, l, y, c))
      ensures Kept(old(nodes), nodes, Inorder(Plug(k, Bin(l, victim, c, r))))
    {
      FocusPointers(nodes, root, k, Bin(l, victim, c, r));
      FocusUp(nodes, root, In(k, R, victim, c, l), r);
      var node := nodes[victim].right;
      ghost var cur;
      node, p, cur := Leftmost(node, In(k, R, victim, c, l), r);
      ghost var k1 := Moved(p, k, l, victim, c);
      y, t := node, cur.r;
      FocusPointers(nodes, root, k1, cur);
      child, parent, color := nodes[node].right, nodes[node].parent, nodes[node].color;
      Unlink(node, child, parent, k1, L, color, t);
      ghost var m := nodes;
      MovedFrom(nodes, root, p, k, l, victim, c, t);
      if nodes[node].parent == victim {
        parent := node;
      }
      SwapIn(victim, node, k, l, c, PlugSpine(p, t));
      MovedFrom(nodes, root, p, k, l, node, c, t);
      SupplantKept(old(nodes), m, nodes, p, k, l, victim, c, node, color, t);
    }

    /** rb_erase on a node with two children. */
    method EraseInner(victim: Ref, ghost k: Ctx, ghost l: Tree, ghost c: Color, ghost r: Tree)
      requires Holds(k, Bin(l, victim, c, r)) && l.Bin? && r.Bin? && RedBlack(Plug(k, Bin(l, victim, c, r)))
      modifies this
      ensures Valid() && Removed(Inorder(Plug(k, Bin(l, victim, c, r))), Inorder(shape), victim)
      ensures Kept(old(nodes), nodes, Inorder(Plug(k, Bin(l, victim, c, r))))
    {
      ghost var order := Inorder(Plug(k, Bin(l, victim, c, r)));
      var child, parent, color;
      ghost var p, y, t;
      child, parent, color, p, y, t := Supplant(victim, k, l, c, r);
      ghost var m := nodes;
      ghost var k' := Moved(p, k, l, y, c);
      MovedOrder(p, k, l, victim, y, c, color, t);
      MovedColors(p, k, l, victim, y, c, color, t);
      if color == Black {
        EraseColor(child, parent, k', t);
      } else {
        FocusTop(nodes, root, k', t);
        SoundShape(k', t);
        shape := Plug(k', t);
      }
    }

    /** rb_erase */
    method Erase(node: Ref)
      requires Valid() && node in Inorder(shape)
      modifies this
      ensures Valid() && Removed(old(Inorder(shape)), Inorder(shape), node)
      ensures Kept(old(nodes), nodes, old(Inorder(shape)))
    {
      ghost var k, t := Locate(Top, shape, node);
      FocusTop(nodes, root, k, t);
      FocusPointers(nodes, root, k, t);
      var child;
      if nodes[node].left == NULL {
        child := nodes[node].right;
        EraseOuter(node, child, k, R, t);
      } else if nodes[node].right == NULL {
        child := nodes[node].left;
        EraseOuter(node, child, k, L, t);
      } else {
        EraseInner(node, k, t.l, t.c, t.r);
      }
    }

    /** rb_erase on a node whose only child, if any, is on side `s`. */
    method EraseOuter(node: Ref, child: Ref, ghost k: Ctx, ghost s: Side, ghost t: Tree)
      requires Holds(k, t) && t.Bin? && t.id == node && Near(t, Opp(s)).Leaf? && child == Root(Near(t, s))
      requires RedBlack(Plug(k, t))
      modifies this
      ensures Valid() && Removed(Inorder(Plug(k, t)), Inorder(shape), node)
      ensures Kept(old(nodes), nodes, Inorder(Plug(k, t)))
    {
      ghost var t' := Near(t, s);
      FocusPointers(nodes, root, k, t);
      EraseStart(k, Opp(s), node, t.c, t');
      var parent, color := nodes[node].parent, nodes[node].color;
      Unlink(node, child, parent, k, Opp(s), t.c, t');
      ghost var m := nodes;
      OuterOrder(old(nodes), m, k, s, t);
      if color == Black {
        EraseColor(child, parent, k, t');
      } else {
        FocusTop(nodes, root, k, t');
        SoundShape(k, t');
        shape := Plug(k, t');
      }
    }

    /** rb_link_node (include/linux/rbtree.h:31-38) followed by rb_insert_color, at the free position `k`. */
    method Insert(node: Ref, parent: Ref, side: Side, ghost k: Ctx)
      requires Valid() && shape == Plug(k, Leaf) && parent == Up(k) && (k.In? ==> side == k.s)
      requires node in nodes && node !in Inorder(shape)
      modifies this
      ensures Valid() && Inorder(shape) == Before(k) + [node] + After(k)
      ensures Removed(Inorder(shape), old(Inorder(shape)), node)
      ensures Kept(old(nodes), nodes, Inorder(shape))
    {
      FocusTop(nodes, root, k, Leaf);
      FocusPointers(nodes, root, k, Leaf);
      PlugIds(k, Leaf);
      InorderIds(shape);
      nodes := nodes[node := Node(parent, Red, NULL, NULL)];
      if parent == NULL {
        root := node;
      } else if side == L {
        nodes := nodes[parent := nodes[parent].(left := node)];
      } else {
        nodes := nodes[parent := nodes[parent].(right := node)];
      }
      ghost var m := nodes;
      Link(old(nodes), old(root), m, root, k, node);
      InsertColor(node, k);
      LinkOrder(old(nodes), m, nodes, k, node);
    }

    /** rb_first */
    method First() returns (node: Ref)
      requires Valid()
      ensures node == if Inorder(shape) == [] then NULL else Inorder(shape)[0]
    {
      FocusPointers(nodes, root, Top, shape);
      if root == NULL {
        return NULL;
      }
      ghost var p, cur;
      node, p, cur := Leftmost(root, Top, shape);
      InorderSpine(p, cur);
    }

    /** rb_next */
    method Next(node0: Ref) returns (next: Ref)
      requires Valid() && node0 in Inorder(shape)
      ensures Follows(Inorder(shape), node0, next)
    {
      ghost var k, t := Locate(Top, shape, node0);
      var node := node0;
      FocusTop(nodes, root, k, t);
      FocusPointers(nodes, root, k, t);
      if nodes[node].right != NULL {
        ghost var p, cur;
        FocusUp(nodes, root, In(k, R, t.id, t.c, t.l), t.r);
        next, p, cur := Leftmost(nodes[node].right, In(k, R, t.id, t.c, t.l), t.r);
        FollowsInside(k, t, p, cur);
        return;
      }
      LastOfTree(k, t);
      ParentPointers(nodes, root, k, t);
      while nodes[node].parent != NULL && node == nodes[nodes[node].parent].right
        invariant Holds(k, t) && t.Bin? && node == t.id && node in nodes && nodes[node].parent == Up(k)
        invariant k.In? ==> k.id != NULL && k.id in nodes && Root(k.sib) != node
        invariant k.In? ==> nodes[k.id] == Nd(k.s, Up(k.up), k.c, node, Root(k.sib))
        invariant Plug(k, t) == shape && LastIs(Before(k) + Inorder(t), node0)
        decreases Depth(k)
      {
        LastClimb(k, t, node0);
        FocusUp(nodes, root, k, t);
        k, t := k.up, Mk(k.s, t, k.id, k.c, k.sib);
        node := nodes[node].parent;
        ParentPointers(nodes, root, k, t);
      }
      next := nodes[node].parent;
      FollowsOutside(k, t, node0);
    }
  }

  /** The nodes a rotation touches are distinct and in the heap. */
  lemma {:induction false} Neighbours(m: Heap, root: Ref, k: Ctx, t: Tree, s: Side)
    requires Zip(m, root, k, t) && t.Bin?
    requires if s == L then t.r.Bin? else t.l.Bin?
    ensures t.id in m && m[t.id] == Node(Up(k), t.c, Root(t.l), Root(t.r))
    ensures var y := if s == L then t.r else t.l;
            var b := if s == L then y.l else y.r;
            && y.id != NULL && y.id in m && m[y.id] == Node(t.id, y.c, Root(y.l), Root(y.r))
            && (b.Bin? ==> b.id != NULL && b.id in m && b.id != t.id && b.id != y.id && b.id != Up(k))
            && y.id != t.id && y.id != Up(k) && t.id != Up(k)
            && (k.In? ==> k.id in m && k.id != NULL && Root(k.sib) != t.id)
            && (k.In? ==> m[k.id] == Nd(k.s, Up(k.up), k.c, t.id, Root(k.sib)))
  {
    var y := if s == L then t.r else t.l;
    assert Rep(m, t.id, y);
    RepKnown(m, Up(k), t);
    CRepKnown(m, root, k, t.id);
    if k.In? && k.sib.Bin? {
      assert k.sib.id in CIds(k);
    }
  }

  lemma {:induction false} InsertStart(k: Ctx, t: Tree)
    requires RedBlack(Plug(k, Leaf)) && t.Bin? && t == Bin(Leaf, t.id, Red, Leaf)
    ensures Inserting(k, t)
  {
    PlugTaken(k, Leaf, BlackHeight(Plug(k, Leaf)));
    assert Bal(t, 0) && CBal(k, 0);
  }

  lemma {:induction false} InsertEnd(m: Heap, m': Heap, root: Ref, k: Ctx, t: Tree)
    requires Zip(m, root, Top, Plug(k, t)) && Inserting(k, t) && (k.Top? || RedOk(k))
    requires root in m && m' == m[root := m[root].(color := Black)]
    ensures Zip(m', root, Top, Blacken(Plug(k, t))) && RedBlack(Blacken(Plug(k, t)))
    ensures Inorder(Blacken(Plug(k, t))) == Inorder(Plug(k, t)) && Kept(m, m', Inorder(Plug(k, t)))
  {
    var T := Plug(k, t);
    var n :| Bal(t, n) && CBal(k, n);
    PlugSound(k, t, n);
    assert T.Bin? by { PlugIds(k, t); assert t.id in Ids(T); }
    Recolor(m, m', root, Top, T, Black);
    assert Bal(Blacken(T), BlackHeight(Blacken(T)));
    AgreeKept(m, m', Top, T);
  }

  lemma {:induction false} SoundTop(k: Ctx, t: Tree)
    requires Sound(k, t)
    ensures Sound(Top, Blacken(Plug(k, t)))
  {
    var n :| Bal(t, n) && CBal(k, n);
    PlugSound(k, t, n);
    var T := Plug(k, t);
    if IsRed(T) {
      assert Bal(Blacken(T), BlackHeight(T) + 1);
    } else {
      assert Bal(Blacken(T), BlackHeight(T));
    }
    assert CBal(Top, 0);
  }

  /** Blackening the focus of a shape that is then sound. */
  lemma {:induction false} EraseFinish(m: Heap, m': Heap, root: Ref, k: Ctx, t: Tree)
    requires Zip(m, root, k, t) && Sound(k, Blacken(t))
    requires if t.Leaf? then m' == m else t.id in m && m' == m[t.id := m[t.id].(color := Black)]
    ensures Zip(m', root, Top, Plug(k, Blacken(t))) && RedBlack(Plug(k, Blacken(t)))
    ensures Inorder(Plug(k, Blacken(t))) == Inorder(Plug(k, t)) && Kept(m, m', Inorder(Plug(k, t)))
  {
    var t' := Blacken(t);
    var n :| Bal(t', n) && CBal(k, n);
    PlugSound(k, t', n);
    if t.Bin? {
      Recolor(m, m', root, k, t, Black);
    }
    FocusTop(m', root, k, t');
    InorderCong(k, t, t');
    AgreeKept(m, m', k, t);
  }

  /** What Unlink needs to know of the heap. */
  lemma {:induction false} ChildPointers(m: Heap, root: Ref, k: Ctx, s: Side, x: Ref, c: Color, t: Tree)
    requires Zip(m, root, k, Mk(s, Leaf, x, c, t))
    ensures t.Bin? ==> t.id in m && t.id != NULL && t.id != x && t.id != Up(k)
    ensures k.In? ==> k.id != x && m[k.id] == Nd(k.s, Up(k.up), k.c, x, Root(k.sib)) && Root(k.sib) != x
  {
    RepMk(m, Up(k), s, Leaf, x, c, t);
    assert k.In? && k.sib.Bin? ==> k.sib.id in CIds(k);
  }

  /** What SwapIn needs to know of the heap. */
  lemma {:induction false} TwoChildPointers(m: Heap, root: Ref, k: Ctx, l: Tree, x: Ref, c: Color, r: Tree)
    requires Zip(m, root, k, Bin(l, x, c, r))
    ensures x in m && m[x] == Node(Up(k), c, Root(l), Root(r))
    ensures l.Bin? ==> l.id in m && l.id != NULL && l.id != x && l.id != Up(k) && l.id != Root(r) && l.id in Ids(l)
    ensures r.Bin? ==> r.id in m && r.id != NULL && r.id != x && r.id != Up(k) && r.id in Ids(r)
    ensures k.In? ==>
              k.id != x && m[k.id] == Nd(k.s, Up(k.up), k.c, x, Root(k.sib)) && Root(k.sib) != x && k.id in CIds(k)
  {
    assert Rep(m, x, l) && Rep(m, x, r);
    assert l.Bin? ==> l.id in Ids(l);
    assert r.Bin? ==> r.id in Ids(r);
    assert k.In? && k.sib.Bin? ==> k.sib.id in CIds(k);
  }

  /** Where the successor ends up after it has replaced the erased node. */
  function Moved(p: Spine, k: Ctx, l: Tree, node: Ref, c: Color): Ctx {
    Hang(p, In(k, R, node, c, l))
  }

  lemma {:induction false} MovedFrom(m: Heap, root: Ref, p: Spine, k: Ctx, l: Tree, x: Ref, c: Color, t: Tree)
    ensures Zip(m, root, Moved(p, k, l, x, c), t) <==> Zip(m, root, k, Bin(l, x, c, PlugSpine(p, t)))
    ensures Plug(Moved(p, k, l, x, c), t) == Plug(k, Bin(l, x, c, PlugSpine(p, t)))
    ensures Ids(t) + CIds(Moved(p, k, l, x, c)) == Ids(l) + {x} + Ids(PlugSpine(p, t)) + CIds(k)
  {
    var base := In(k, R, x, c, l);
    FocusSpine(m, root, p, base, t);
    FocusUp(m, root, base, PlugSpine(p, t));
    PlugIds(Hang(p, base), t);
    PlugIds(k, Bin(l, x, c, PlugSpine(p, t)));
  }

  /** Replacing the erased node by its successor takes it, and nothing else, out of the sequence. */
  lemma {:induction false} MovedOrder(p: Spine, k: Ctx, l: Tree, x: Ref, y: Ref, c: Color, sc: Color, t: Tree)
    ensures Removed(Inorder(Plug(k, Bin(l, x, c, PlugSpine(p, Bin(Leaf, y, sc, t))))),
              Inorder(Plug(Moved(p, k, l, y, c), t)), x)
  {
    var r, r' := PlugSpine(p, Bin(Leaf, y, sc, t)), PlugSpine(p, t);
    assert Inorder(r) == [y] + Inorder(r') by {
      InorderSpine(p, t);
      InorderSpine(p, Bin(Leaf, y, sc, t));
      Regroup([], [y], Inorder(t), SpineAfter(p));
    }
    MovedFrom(map[], NULL, p, k, l, y, c, t);
    InorderPlug(k, Bin(l, x, c, r));
    InorderPlug(k, Bin(l, y, c, r'));
    RemovedInside(Before(k), Inorder(l), x, y, Inorder(r'), After(k));
  }

  lemma {:induction false} MovedColors(p: Spine, k: Ctx, l: Tree, x: Ref, y: Ref, c: Color, sc: Color, t: Tree)
    requires RedBlack(Plug(k, Bin(l, x, c, PlugSpine(p, Bin(Leaf, y, sc, t)))))
    ensures if sc == Red then Sound(Moved(p, k, l, y, c), t) && !IsRed(t) else Erasing(Moved(p, k, l, y, c), t)
  {
    var k1, k2 := Moved(p, k, l, x, c), Moved(p, k, l, y, c);
    var s := Bin(Leaf, y, sc, t);
    MovedFrom(map[], NULL, p, k, l, x, c, s);
    EraseStart(k1, L, y, sc, t);
    forall n: int
      ensures CBal(k1, n) == CBal(k2, n) && CNoRR(k1) == CNoRR(k2) && RedOk(k1) == RedOk(k2)
    {
      SpineRename(p, In(k, R, x, c, l), In(k, R, y, c, l), n);
    }
  }

  lemma {:induction false} SoundShape(k: Ctx, t: Tree)
    requires Sound(k, t) && !IsRed(t)
    ensures RedBlack(Plug(k, t))
  {
    var n :| Bal(t, n) && CBal(k, n);
    PlugSound(k, t, n);
  }

  lemma {:induction false} KeptWiden(m: Heap, m': Heap, t: Tree, t': Tree)
    requires Kept(m, m', Inorder(t)) && Ids(t) <= Ids(t')
    ensures Kept(m, m', Inorder(t'))
  {
    InorderIds(t);
    InorderIds(t');
    forall n <- m.Keys | n !in Inorder(t')
      ensures m[n] == m'[n]
    {
      assert n !in Ids(t);
    }
  }

  lemma {:induction false} SupplantKept(m: Heap, m1: Heap, m2: Heap, p: Spine, k: Ctx, l: Tree, x: Ref, c: Color,
                                        y: Ref, sc: Color, t: Tree)
    requires Kept(m, m1, Inorder(Plug(Moved(p, k, l, x, c), t)))
    requires Kept(m1, m2, Inorder(Plug(k, Bin(l, y, c, PlugSpine(p, t)))))
    ensures Kept(m, m2, Inorder(Plug(k, Bin(l, x, c, PlugSpine(p, Bin(Leaf, y, sc, t))))))
  {
    var T := Plug(k, Bin(l, x, c, PlugSpine(p, Bin(Leaf, y, sc, t))));
    var T1, T2 := Plug(Moved(p, k, l, x, c), t), Plug(k, Bin(l, y, c, PlugSpine(p, t)));
    assert Ids(T1) <= Ids(T) && Ids(T2) <= Ids(T) by {
      MovedFrom(m, NULL, p, k, l, x, c, t);
      MovedFrom(m, NULL, p, k, l, x, c, Bin(Leaf, y, sc, t));
      assert Ids(T1) == Ids(t) + CIds(Moved(p, k, l, x, c)) by { PlugIds(Moved(p, k, l, x, c), t); }
      assert Ids(T) == Ids(Bin(Leaf, y, sc, t))
               + CIds(Moved(p, k, l, x, c)) by { PlugIds(Moved(p, k, l, x, c), Bin(Leaf, y, sc, t)); }
      PlugIds(k, Bin(l, y, c, PlugSpine(p, t)));
    }
    KeptWiden(m, m1, T1, T);
    KeptWiden(m1, m2, T2, T);
  }

  lemma {:induction false} OuterInorder(s: Side, t: Tree)
    requires t.Bin? && Near(t, Opp(s)).Leaf?
    ensures Inorder(t) == if s == L then Inorder(Near(t, s)) + [t.id] else [t.id] + Inorder(Near(t, s))
  {
  }

  lemma {:induction false} OuterOrder(m: Heap, m': Heap, k: Ctx, s: Side, t: Tree)
    requires t.Bin? && Near(t, Opp(s)).Leaf? && Kept(m, m', Inorder(Plug(k, Near(t, s))))
    ensures Removed(Inorder(Plug(k, t)), Inorder(Plug(k, Near(t, s))), t.id)
    ensures Kept(m, m', Inorder(Plug(k, t)))
  {
    assert Removed(Inorder(Plug(k, t)), Inorder(Plug(k, Near(t, s))), t.id) by {
      InorderPlug(k, t);
      InorderPlug(k, Near(t, s));
      RemovedEdge(Before(k), Inorder(Near(t, s)), t.id, After(k));
      OuterInorder(s, t);
    }
    PlugIds(k, t);
    PlugIds(k, Near(t, s));
    KeptWiden(m, m', Plug(k, Near(t, s)), Plug(k, t));
  }

  lemma {:induction false} Link(m: Heap, root: Ref, m': Heap, root': Ref, k: Ctx, x: Ref)
    requires Zip(m, root, k, Leaf) && x in m && x !in CIds(k) && (k.In? ==> k.id in m)
    requires m'.Keys == m.Keys && m'[x] == Node(Up(k), Red, NULL, NULL)
    requires k.In? ==> m'[k.id] == (if k.s == L then m[k.id].(left := x) else m[k.id].(right := x))
    requires root' == (if k.Top? then x else root) && forall n <- m.Keys - {x, Up(k)} :: m'[n] == m[n]
    ensures Zip(m', root', k, Bin(Leaf, x, Red, Leaf))
  {
    CRepKnown(m, root, k, NULL);
    CRepRehole(m, m', root, root', k, NULL, x);
  }

  lemma {:induction false} LinkOrder(m: Heap, m1: Heap, m2: Heap, k: Ctx, x: Ref)
    requires m.Keys == m1.Keys && forall n <- m.Keys - {x, Up(k)} :: m1[n] == m[n]
    requires Kept(m1, m2, Inorder(Plug(k, Bin(Leaf, x, Red, Leaf)))) && NULL !in m
    ensures Inorder(Plug(k, Bin(Leaf, x, Red, Leaf))) == Before(k) + [x] + After(k)
    ensures Removed(Before(k) + [x] + After(k), Inorder(Plug(k, Leaf)), x)
    ensures Kept(m, m2, Before(k) + [x] + After(k))
  {
    var T := Plug(k, Bin(Leaf, x, Red, Leaf));
    InorderPlug(k, Leaf);
    InorderPlug(k, Bin(Leaf, x, Red, Leaf));
    assert Inorder(Bin(Leaf, x, Red, Leaf)) == [x];
    RemovedAt(Before(k), x, After(k));
    assert Before(k) + [] + After(k) == Before(k) + After(k);
    PlugIds(k, Bin(Leaf, x, Red, Leaf));
    InorderIds(T);
    assert x in Ids(T) && (k.In? ==> k.id in Ids(T));
  }

  /** `y` is what comes right after `x` in `s`, or NULL if `x` is last. */
  ghost predicate Follows(s: seq<Ref>, x: Ref, y: Ref) {
    exists i | 0 <= i < |s| :: s[i] == x && y == NextAt(s, i)
  }

  function NextAt(s: seq<Ref>, i: nat): Ref {
    if i + 1 < |s| then s[i + 1] else NULL
  }

  ghost predicate LastIs(s: seq<Ref>, x: Ref) {
    s != [] && s[|s| - 1] == x
  }

  lemma {:induction false} FollowsInside(k: Ctx, t: Tree, p: Spine, cur: Tree)
    requires t.Bin? && cur.Bin? && cur.l.Leaf? && t.r == PlugSpine(p, cur)
    ensures Follows(Inorder(Plug(k, t)), t.id, cur.id)
  {
    InorderPlug(k, t);
    InorderSpine(p, cur);
    assert Inorder(t.r)[0] == cur.id;
    var i := |Before(k)| + |Inorder(t.l)|;
    assert Inorder(t)[|Inorder(t.l)|] == t.id && Inorder(t)[|Inorder(t.l)| + 1] == cur.id;
    assert Inorder(Plug(k, t))[i] == t.id && Inorder(Plug(k, t))[i + 1] == cur.id;
  }

  lemma {:induction false} LastOfTree(k: Ctx, t: Tree)
    requires t.Bin? && t.r.Leaf?
    ensures LastIs(Before(k) + Inorder(t), t.id)
  {
  }

  lemma {:induction false} LastClimb(k: Ctx, t: Tree, x: Ref)
    requires k.In? && k.s == R && LastIs(Before(k) + Inorder(t), x)
    ensures LastIs(Before(k.up) + Inorder(Mk(k.s, t, k.id, k.c, k.sib)), x)
  {
    assert Before(k) + Inorder(t) == Before(k.up) + (Inorder(k.sib) + [k.id] + Inorder(t));
  }

  lemma {:induction false} FollowsOutside(k: Ctx, t: Tree, x: Ref)
    requires LastIs(Before(k) + Inorder(t), x) && (k.Top? || k.s == L)
    ensures Follows(Inorder(Plug(k, t)), x, Up(k))
  {
    InorderPlug(k, t);
    var s := Inorder(Plug(k, t));
    var i := |Before(k) + Inorder(t)| - 1;
    assert s[i] == x;
    if k.In? {
      assert After(k)[0] == k.id;
    }
    assert NextAt(s, i) == Up(k);
  }

  lemma {:induction false} ParentPointers(m: Heap, root: Ref, k: Ctx, t: Tree)
    requires Zip(m, root, k, t) && t.Bin?
    ensures t.id in m && t.id != NULL && m[t.id].parent == Up(k)
    ensures k.In? ==>
              k.id != NULL && k.id in m && m[k.id] == Nd(k.s, Up(k.up), k.c, t.id, Root(k.sib)) && Root(k.sib) != t.id
  {
    CRepKnown(m, root, k, t.id);
    assert t.id in Ids(t);
    assert k.In? && k.sib.Bin? ==> k.sib.id in CIds(k);
  }
}
