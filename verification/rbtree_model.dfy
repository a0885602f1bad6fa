/** The red-black tree of lib/rbtree.c: nodes, their shape as a tree, and zippers.

    The nodes live in a heap `Heap` from node pointers to the four fields of `struct rb_node`.
    The shape of the tree is a `Tree`; a position in it is a `Ctx` (the path from the position
    up to the root, with the siblings that hang off it) and the subtree below. `Zip` says that a
    heap holds exactly that picture: child pointers, parent pointers and colours, no node twice.
 */
module RbModel {

  type Ref = nat
  const NULL: Ref := 0

  datatype Color = Red | Black
  datatype Side = L | R
  datatype Node = Node(parent: Ref, color: Color, left: Ref, right: Ref)
  type Heap = map<Ref, Node>

  datatype Tree = Leaf | Bin(l: Tree, id: Ref, c: Color, r: Tree)
  datatype Ctx = Top | In(up: Ctx, s: Side, id: Ref, c: Color, sib: Tree)

  /** A tree node whose child on side `s` is `own` and whose other child is `sib`. */
  function Mk(s: Side, own: Tree, id: Ref, c: Color, sib: Tree): Tree {
    if s == L then Bin(own, id, c, sib) else Bin(sib, id, c, own)
  }

  /** The heap image of such a node. */
  function Nd(s: Side, p: Ref, c: Color, own: Ref, sib: Ref): Node {
    if s == L then Node(p, c, own, sib) else Node(p, c, sib, own)
  }

  function Root(t: Tree): Ref {
    if t.Leaf? then NULL else t.id
  }

  function Up(k: Ctx): Ref {
    if k.Top? then NULL else k.id
  }

  function Plug(k: Ctx, t: Tree): Tree {
    match k
    case Top => t
    case In(up, s, id, c, sib) => Plug(up, Mk(s, t, id, c, sib))
  }

  function Depth(k: Ctx): nat {
    if k.Top? then 0 else 1 + Depth(k.up)
  }

  ghost function Ids(t: Tree): set<Ref> {
    if t.Leaf? then {} else Ids(t.l) + {t.id} + Ids(t.r)
  }

  ghost function CIds(k: Ctx): set<Ref> {
    if k.Top? then {} else CIds(k.up) + {k.id} + Ids(k.sib)
  }

  function Inorder(t: Tree): seq<Ref> {
    if t.Leaf? then [] else Inorder(t.l) + [t.id] + Inorder(t.r)
  }

  /** What comes before and after the hole of a context, in order. */
  function Before(k: Ctx): seq<Ref> {
    if k.Top? then [] else if k.s == L then Before(k.up) else Before(k.up) + Inorder(k.sib) + [k.id]
  }

  function After(k: Ctx): seq<Ref> {
    if k.Top? then [] else if k.s == R then After(k.up) else [k.id] + Inorder(k.sib) + After(k.up)
  }

  /** Heap `m` holds tree `t`, whose root has parent `p`. */
  ghost predicate Rep(m: Heap, p: Ref, t: Tree)
    decreases t
  {
    t.Bin? ==>
      && t.id != NULL && t.id in m
      && m[t.id] == Node(p, t.c, Root(t.l), Root(t.r))
      && Rep(m, t.id, t.l) && Rep(m, t.id, t.r)
      && t.id !in Ids(t.l) && t.id !in Ids(t.r) && Ids(t.l) !! Ids(t.r)
  }

  /** Heap `m` with root pointer `root` holds context `k`, whose hole is the pointer `hole`. */
  ghost predicate CRep(m: Heap, root: Ref, k: Ctx, hole: Ref) {
    if k.Top? then root == hole else
      && k.id != NULL && k.id in m
      && m[k.id] == Nd(k.s, Up(k.up), k.c, hole, Root(k.sib))
      && Rep(m, k.id, k.sib) && CRep(m, root, k.up, k.id)
      && k.id !in Ids(k.sib) && k.id !in CIds(k.up) && Ids(k.sib) !! CIds(k.up)
  }

  ghost predicate Zip(m: Heap, root: Ref, k: Ctx, t: Tree) {
    NULL !in m && CRep(m, root, k, Root(t)) && Rep(m, Up(k), t) && Ids(t) !! CIds(k)
  }

  /** `m` and `m'` agree on the nodes in `s`. */
  ghost predicate Agree(m: Heap, m': Heap, s: set<Ref>) {
    forall n <- s :: n in m && n in m' ==> m[n] == m'[n]
  }

  /** `Rep` of a node given by side. */
  lemma {:induction false} RepMk(m: Heap, p: Ref, s: Side, own: Tree, id: Ref, c: Color, sib: Tree)
    ensures Rep(m, p, Mk(s, own, id, c, sib)) <==>
              && id != NULL && id in m && m[id] == Nd(s, p, c, Root(own), Root(sib))
              && Rep(m, id, own) && Rep(m, id, sib)
              && id !in Ids(own) && id !in Ids(sib) && Ids(own) !! Ids(sib)
    ensures Ids(Mk(s, own, id, c, sib)) == Ids(own) + {id} + Ids(sib)
  {
  }

  // ------------------------------------------------------------------ framing

  lemma {:induction false} RepFrame(m: Heap, m': Heap, p: Ref, t: Tree)
    requires Rep(m, p, t) && m.Keys == m'.Keys && Agree(m, m', Ids(t))
    ensures Rep(m', p, t)
    decreases t
  {
    if t.Bin? {
      RepFrame(m, m', t.id, t.l);
      RepFrame(m, m', t.id, t.r);
    }
  }

  lemma {:induction false} CRepFrame(m: Heap, m': Heap, root: Ref, k: Ctx, hole: Ref)
    requires CRep(m, root, k, hole) && m.Keys == m'.Keys && Agree(m, m', CIds(k))
    ensures CRep(m', root, k, hole)
  {
    if k.In? {
      RepFrame(m, m', k.id, k.sib);
      CRepFrame(m, m', root, k.up, k.id);
    }
  }

  lemma {:induction false} RepKnown(m: Heap, p: Ref, t: Tree)
    requires Rep(m, p, t)
    ensures Ids(t) <= m.Keys && NULL !in Ids(t)
    decreases t
  {
    if t.Bin? {
      RepKnown(m, t.id, t.l);
      RepKnown(m, t.id, t.r);
    }
  }

  lemma {:induction false} CRepKnown(m: Heap, root: Ref, k: Ctx, hole: Ref)
    requires CRep(m, root, k, hole)
    ensures CIds(k) <= m.Keys && NULL !in CIds(k)
  {
    if k.In? {
      RepKnown(m, k.id, k.sib);
      CRepKnown(m, root, k.up, k.id);
    }
  }

  /** The root of a held tree may be handed to another parent. */
  lemma {:induction false} RepReparent(m: Heap, m': Heap, p: Ref, p': Ref, t: Tree)
    requires Rep(m, p, t) && m.Keys == m'.Keys
    requires t.Bin? ==> m'[t.id] == m[t.id].(parent := p') && Agree(m, m', Ids(t) - {t.id})
    ensures Rep(m', p', t)
  {
    if t.Bin? {
      assert Ids(t.l) <= Ids(t) - {t.id} && Ids(t.r) <= Ids(t) - {t.id};
      RepFrame(m, m', t.id, t.l);
      RepFrame(m, m', t.id, t.r);
    }
  }

  /** The hole of a context may be given another pointer. */
  lemma {:induction false} CRepRehole(m: Heap, m': Heap, root: Ref, root': Ref, k: Ctx, hole: Ref, hole': Ref)
    requires CRep(m, root, k, hole) && m.Keys == m'.Keys
    requires if k.Top? then root' == hole' else
               && root' == root
               && m'[k.id] == Nd(k.s, Up(k.up), k.c, hole', Root(k.sib))
               && Agree(m, m', CIds(k) - {k.id})
    ensures CRep(m', root', k, hole')
  {
    if k.In? {
      assert Ids(k.sib) <= CIds(k) - {k.id} && CIds(k.up) <= CIds(k) - {k.id};
      RepFrame(m, m', k.id, k.sib);
      CRepFrame(m, m', root, k.up, k.id);
    }
  }

  // ------------------------------------------------------------------ moving the focus

  lemma {:induction false} FocusUp(m: Heap, root: Ref, k: Ctx, t: Tree)
    requires k.In?
    ensures Zip(m, root, k, t) <==> Zip(m, root, k.up, Mk(k.s, t, k.id, k.c, k.sib))
  {
  }

  lemma {:induction false} FocusTop(m: Heap, root: Ref, k: Ctx, t: Tree)
    ensures Zip(m, root, k, t) <==> Zip(m, root, Top, Plug(k, t))
    decreases k
  {
    if k.In? {
      FocusUp(m, root, k, t);
      FocusTop(m, root, k.up, Mk(k.s, t, k.id, k.c, k.sib));
    }
  }

  lemma {:induction false} Regroup(a: seq<Ref>, b: seq<Ref>, c: seq<Ref>, d: seq<Ref>)
    ensures (a + b + c) + d == a + (b + c + d)
  {
  }

  lemma {:induction false} RegroupAround(b: seq<Ref>, x: seq<Ref>, i: seq<Ref>, y: seq<Ref>, a: seq<Ref>)
    ensures b + (x + i + y) + a == b + x + (i + y + a)
    ensures b + (x + i + y) + a == (b + x + i) + y + a
  {
  }

  lemma {:induction false} InorderPlug(k: Ctx, t: Tree)
    ensures Inorder(Plug(k, t)) == Before(k) + Inorder(t) + After(k)
    decreases k
  {
    if k.In? {
      InorderPlug(k.up, Mk(k.s, t, k.id, k.c, k.sib));
      if k.s == L {
        RegroupAround(Before(k.up), Inorder(t), [k.id], Inorder(k.sib), After(k.up));
      } else {
        RegroupAround(Before(k.up), Inorder(k.sib), [k.id], Inorder(t), After(k.up));
      }
    }
  }

  // ------------------------------------------------------------------ local surgery at the focus

  /** Writing the colour of the focused node. */
  lemma {:induction false} Recolor(m: Heap, m': Heap, root: Ref, k: Ctx, t: Tree, c: Color)
    requires Zip(m, root, k, t) && t.Bin? && t.id in m && m' == m[t.id := m[t.id].(color := c)]
    ensures Zip(m', root, k, t.(c := c))
  {
    RepFrame(m, m', t.id, t.l);
    RepFrame(m, m', t.id, t.r);
    assert t.id in Ids(t);
    CRepFrame(m, m', root, k, t.id);
  }

  /** What a rotation writes: `y` comes up into the place of `x`, and `b` changes sides. */
  ghost predicate RotatedHeap(m: Heap, root: Ref, m': Heap, root': Ref, k: Ctx, s: Side,
                              a: Tree, x: Ref, cx: Color, b: Tree, y: Ref, cy: Color, c: Tree)
    requires x in m && y in m && (b.Bin? ==> b.id in m) && (k.In? ==> k.id in m)
  {
    && m'.Keys == m.Keys
    && m'[x] == Nd(s, y, cx, Root(a), Root(b))
    && m'[y] == Nd(s, Up(k), cy, x, Root(c))
    && (b.Bin? ==> m'[b.id] == m[b.id].(parent := x))
    && (k.In? ==> m'[k.id] == Nd(k.s, Up(k.up), k.c, y, Root(k.sib)))
    && root' == (if k.Top? then y else root)
    && forall n <- m.Keys - {x, y, Root(b), Up(k)} :: m'[n] == m[n]
  }

  lemma {:induction false} RotateBelow(m: Heap, m': Heap, p: Ref, s: Side,
                    a: Tree, x: Ref, cx: Color, b: Tree, y: Ref, cy: Color, c: Tree)
    requires Rep(m, p, Mk(s, a, x, cx, Mk(s, b, y, cy, c))) && m'.Keys == m.Keys
    requires x in m && y in m && (b.Bin? ==> b.id in m)
    requires m'[x] == Nd(s, y, cx, Root(a), Root(b)) && m'[y] == Nd(s, p, cy, x, Root(c))
    requires b.Bin? ==> m'[b.id] == m[b.id].(parent := x)
    requires Agree(m, m', Ids(a) + (Ids(b) - {Root(b)}) + Ids(c))
    ensures Rep(m', p, Mk(s, Mk(s, a, x, cx, b), y, cy, c))
    ensures Ids(Mk(s, Mk(s, a, x, cx, b), y, cy, c)) == Ids(Mk(s, a, x, cx, Mk(s, b, y, cy, c)))
  {
    var t, t' := Mk(s, b, y, cy, c), Mk(s, a, x, cx, b);
    RepMk(m, p, s, a, x, cx, t);
    RepMk(m, x, s, b, y, cy, c);
    RepFrame(m, m', x, a);
    RepReparent(m, m', y, x, b);
    RepFrame(m, m', y, c);
    RepMk(m', y, s, a, x, cx, b);
    RepMk(m', p, s, t', y, cy, c);
  }

  /** The nodes a rotation does not write. */
  lemma {:induction false} RotateSets(m: Heap, root: Ref, k: Ctx, s: Side, a: Tree, x: Ref, cx: Color, b: Tree, y: Ref,
                                      cy: Color, c: Tree)
    requires Zip(m, root, k, Mk(s, a, x, cx, Mk(s, b, y, cy, c)))
    ensures var w := {x, y, Root(b), Up(k)};
            && Ids(a) <= m.Keys - w && Ids(b) - {Root(b)} <= m.Keys - w && Ids(c) <= m.Keys - w
            && CIds(k) - {Up(k)} <= m.Keys - w
            && w - {NULL} <= Ids(Mk(s, a, x, cx, Mk(s, b, y, cy, c))) + CIds(k)
  {
    RepMk(m, Up(k), s, a, x, cx, Mk(s, b, y, cy, c));
    RepMk(m, x, s, b, y, cy, c);
    RepKnown(m, x, a);
    RepKnown(m, y, b);
    RepKnown(m, y, c);
    CRepKnown(m, root, k, x);
  }

  lemma {:induction false} Rotate(m: Heap, root: Ref, m': Heap, root': Ref, k: Ctx, s: Side,
               a: Tree, x: Ref, cx: Color, b: Tree, y: Ref, cy: Color, c: Tree)
    requires Zip(m, root, k, Mk(s, a, x, cx, Mk(s, b, y, cy, c)))
    requires x in m && y in m && (b.Bin? ==> b.id in m) && (k.In? ==> k.id in m)
    requires RotatedHeap(m, root, m', root', k, s, a, x, cx, b, y, cy, c)
    ensures Zip(m', root', k, Mk(s, Mk(s, a, x, cx, b), y, cy, c))
    ensures Agree(m, m', m.Keys - Ids(Mk(s, a, x, cx, Mk(s, b, y, cy, c))) - CIds(k))
  {
    var t := Mk(s, a, x, cx, Mk(s, b, y, cy, c));
    RotateSets(m, root, k, s, a, x, cx, b, y, cy, c);
    assert Agree(m, m', Ids(a) + (Ids(b) - {Root(b)}) + Ids(c));
    assert Rep(m', Up(k), Mk(s, Mk(s, a, x, cx, b), y, cy, c))
             && Ids(Mk(s, Mk(s, a, x, cx, b), y, cy, c)) == Ids(t) by {
      RotateBelow(m, m', Up(k), s, a, x, cx, b, y, cy, c);
    }
    assert CRep(m', root', k, y) by {
      CRepRehole(m, m', root, root', k, x, y);
    }
  }

  /** What unlinking a node with at most one child writes: its child `t` takes its place. */
  ghost predicate SplicedHeap(m: Heap, root: Ref, m': Heap, root': Ref, k: Ctx, t: Tree)
    requires (t.Bin? ==> t.id in m) && (k.In? ==> k.id in m)
  {
    && m'.Keys == m.Keys
    && (t.Bin? ==> m'[t.id] == m[t.id].(parent := Up(k)))
    && (k.In? ==> m'[k.id] == Nd(k.s, Up(k.up), k.c, Root(t), Root(k.sib)))
    && root' == (if k.Top? then Root(t) else root)
    && forall n <- m.Keys - {Root(t), Up(k)} :: m'[n] == m[n]
  }

  lemma {:induction false} Splice(m: Heap, root: Ref, m': Heap, root': Ref, k: Ctx, s: Side, x: Ref, cx: Color, t: Tree)
    requires Zip(m, root, k, Mk(s, Leaf, x, cx, t))
    requires (t.Bin? ==> t.id in m) && (k.In? ==> k.id in m)
    requires SplicedHeap(m, root, m', root', k, t)
    ensures Zip(m', root', k, t) && x !in Ids(t) + CIds(k)
    ensures Agree(m, m', m.Keys - Ids(t) - CIds(k))
  {
    RepKnown(m, x, t);
    CRepKnown(m, root, k, x);
    RepReparent(m, m', x, Up(k), t);
    CRepRehole(m, m', root, root', k, x, Root(t));
  }

  /** What putting node `y` in the place of `x` writes: links from both children and the parent. */
  ghost predicate ReplacedHeap(m: Heap, root: Ref, m': Heap, root': Ref, k: Ctx, l: Tree, y: Ref, c: Color, r: Tree)
    requires (l.Bin? ==> l.id in m) && (r.Bin? ==> r.id in m) && (k.In? ==> k.id in m)
  {
    && m'.Keys == m.Keys && y in m
    && m'[y] == Node(Up(k), c, Root(l), Root(r))
    && (l.Bin? ==> m'[l.id] == m[l.id].(parent := y))
    && (r.Bin? ==> m'[r.id] == m[r.id].(parent := y))
    && (k.In? ==> m'[k.id] == Nd(k.s, Up(k.up), k.c, y, Root(k.sib)))
    && root' == (if k.Top? then y else root)
    && forall n <- m.Keys - {y, Root(l), Root(r), Up(k)} :: m'[n] == m[n]
  }

  lemma {:induction false} Replace(m: Heap, root: Ref, m': Heap, root': Ref, k: Ctx, l: Tree, x: Ref, y: Ref, c: Color,
                                   r: Tree)
    requires Zip(m, root, k, Bin(l, x, c, r))
    requires y != NULL && y !in Ids(l) + Ids(r) + CIds(k)
    requires (l.Bin? ==> l.id in m) && (r.Bin? ==> r.id in m) && (k.In? ==> k.id in m)
    requires ReplacedHeap(m, root, m', root', k, l, y, c, r)
    ensures Zip(m', root', k, Bin(l, y, c, r))
    ensures Agree(m, m', m.Keys - Ids(Bin(l, y, c, r)) - CIds(k))
  {
    RepKnown(m, x, l);
    RepKnown(m, x, r);
    CRepKnown(m, root, k, x);
    RepReparent(m, m', x, y, l);
    RepReparent(m, m', x, y, r);
    CRepRehole(m, m', root, root', k, x, y);
  }

  function Opp(s: Side): Side {
    if s == L then R else L
  }

  /** The same position seen from the sibling. */
  function Turn(k: Ctx, t: Tree): Ctx
    requires k.In?
  {
    In(k.up, Opp(k.s), k.id, k.c, t)
  }

  lemma {:induction false} FocusSib(m: Heap, root: Ref, k: Ctx, t: Tree)
    requires k.In?
    ensures Zip(m, root, k, t) <==> Zip(m, root, Turn(k, t), k.sib)
  {
    FocusUp(m, root, k, t);
    FocusUp(m, root, Turn(k, t), k.sib);
  }

  lemma {:induction false} RecolorParent(m: Heap, m': Heap, root: Ref, k: Ctx, t: Tree, c: Color)
    requires k.In? && Zip(m, root, k, t) && k.id in m && m' == m[k.id := m[k.id].(color := c)]
    ensures Zip(m', root, k.(c := c), t)
  {
    FocusUp(m, root, k, t);
    Recolor(m, m', root, k.up, Mk(k.s, t, k.id, k.c, k.sib), c);
    FocusUp(m', root, k.(c := c), t);
  }

  lemma {:induction false} RecolorSib(m: Heap, m': Heap, root: Ref, k: Ctx, t: Tree, c: Color)
    requires k.In? && k.sib.Bin? && Zip(m, root, k, t) && k.sib.id in m && m' == m[k.sib.id := m[k.sib.id].(color := c)]
    ensures Zip(m', root, k.(sib := k.sib.(c := c)), t)
  {
    FocusSib(m, root, k, t);
    Recolor(m, m', root, Turn(k, t), k.sib, c);
    FocusSib(m', root, k.(sib := k.sib.(c := c)), t);
  }

  lemma {:induction false} InorderCong(k: Ctx, t: Tree, t': Tree)
    requires Inorder(t) == Inorder(t')
    ensures Inorder(Plug(k, t)) == Inorder(Plug(k, t'))
  {
    InorderPlug(k, t);
    InorderPlug(k, t');
  }

  /** Rotations and colours do not show in the in-order sequence. */
  lemma {:induction false} InorderRotate(s: Side, a: Tree, x: Ref, cx: Color, cx': Color, b: Tree, y: Ref, cy: Color,
                                         cy': Color, c: Tree)
    ensures Inorder(Mk(s, a, x, cx, Mk(s, b, y, cy, c))) == Inorder(Mk(s, Mk(s, a, x, cx', b), y, cy', c))
  {
    var m, n := Mk(s, b, y, cy, c), Mk(s, a, x, cx', b);
    if s == L {
      Regroup(Inorder(a) + [x], Inorder(b), [y], Inorder(c));
    } else {
      Regroup(Inorder(c) + [y], Inorder(b), [x], Inorder(a));
    }
  }

  lemma {:induction false} InorderIds(t: Tree)
    ensures Ids(t) == set n | n in Inorder(t)
  {
    if t.Bin? {
      InorderIds(t.l);
      InorderIds(t.r);
    }
  }

  lemma {:induction false} PlugIds(k: Ctx, t: Tree)
    ensures Ids(Plug(k, t)) == Ids(t) + CIds(k)
    decreases k
  {
    if k.In? {
      PlugIds(k.up, Mk(k.s, t, k.id, k.c, k.sib));
    }
  }

  /** From `m` to `m'` only nodes listed in `s` were written. */
  ghost predicate Kept(m: Heap, m': Heap, s: seq<Ref>) {
    m.Keys == m'.Keys && forall n <- m.Keys :: n !in s ==> m[n] == m'[n]
  }

  lemma {:induction false} KeptThrice(m: Heap, m1: Heap, m2: Heap, m3: Heap, s: seq<Ref>)
    requires Kept(m, m1, s) && Kept(m1, m2, s) && Kept(m2, m3, s)
    ensures Kept(m, m3, s)
  {
  }

  lemma {:induction false} AgreeKept(m: Heap, m': Heap, k: Ctx, t: Tree)
    requires m.Keys == m'.Keys && Agree(m, m', m.Keys - Ids(t) - CIds(k))
    ensures Kept(m, m', Inorder(Plug(k, t)))
  {
    InorderIds(Plug(k, t));
    PlugIds(k, t);
    forall n <- m.Keys | n !in Inorder(Plug(k, t))
      ensures m[n] == m'[n]
    {
      assert n in m.Keys - Ids(t) - CIds(k);
    }
  }

  /** What the heap says about the focus, its parent and the root. */
  lemma {:induction false} FocusPointers(m: Heap, root: Ref, k: Ctx, t: Tree)
    requires Zip(m, root, k, t)
    ensures t.Bin? ==> t.id != NULL && t.id in m && m[t.id] == Node(Up(k), t.c, Root(t.l), Root(t.r))
    ensures t.Bin? ==> (t.l.Leaf? <==> Root(t.l) == NULL) && (t.r.Leaf? <==> Root(t.r) == NULL)
    ensures k.In? ==> k.id != NULL && k.id in m && m[k.id].color == k.c
    ensures t.Bin? || k.In? ==> root in m && root != NULL && Plug(k, t).Bin?
    ensures k.Top? ==> root == Root(t)
    ensures k.In? ==> root != Root(t)
    ensures root == Root(Plug(k, t))
  {
    FocusTop(m, root, k, t);
    PlugIds(k, t);
    assert t.Bin? ==> Rep(m, t.id, t.l) && Rep(m, t.id, t.r) && t.id in Ids(Plug(k, t));
    assert k.In? ==> k.id in Ids(Plug(k, t));
    if k.In? {
      RootInCtx(m, root, k, Root(t));
    }
  }

  lemma {:induction false} RootInCtx(m: Heap, root: Ref, k: Ctx, hole: Ref)
    requires k.In? && CRep(m, root, k, hole)
    ensures root in CIds(k)
    decreases k
  {
    if k.up.In? {
      RootInCtx(m, root, k.up, k.id);
    }
  }

  /** What the heap says around a focus that has a grandparent. */
  lemma {:induction false} Pointers(m: Heap, root: Ref, k: Ctx, t: Tree)
    requires Zip(m, root, k, t) && t.Bin? && k.In? && k.up.In?
    ensures t.id in m && k.id in m && k.up.id in m && (k.up.sib.Bin? ==> k.up.sib.id in m && k.up.sib.id != NULL)
    ensures t.id != k.id && t.id != k.up.id && k.id != k.up.id && t.id != NULL && k.id != NULL
    ensures m[t.id].parent == k.id && m[k.id].parent == k.up.id
    ensures m[k.id] == Nd(k.s, k.up.id, k.c, t.id, Root(k.sib))
    ensures m[k.up.id] == Nd(k.up.s, Up(k.up.up), k.up.c, k.id, Root(k.up.sib))
    ensures Root(k.sib) != t.id && Root(k.up.sib) != k.id
    ensures k.up.sib.Bin? ==> m[k.up.sib.id].color == k.up.sib.c
  {
    CRepKnown(m, root, k, t.id);
    assert CRep(m, root, k.up, k.id);
    if k.sib.Bin? {
      assert k.sib.id in CIds(k) && t.id in Ids(t);
    }
  }

  // ------------------------------------------------------------------ insertion's two recolourings

  /** The grandparent's subtree after its blackness has been pushed down. */
  function Pushed(k: Ctx, t: Tree): Tree
    requires k.In? && k.up.In? && k.up.sib.Bin?
  {
    Mk(k.up.s, Mk(k.s, t, k.id, Black, k.sib), k.up.id, Red, k.up.sib.(c := Black))
  }

  lemma {:induction false} PaintPush(m: Heap, root: Ref, k: Ctx, t: Tree)
    requires Zip(m, root, k, t) && k.In? && k.up.In? && k.up.sib.Bin?
    requires k.id in m && k.up.id in m && k.up.sib.id in m
    ensures var m1 := m[k.up.sib.id := m[k.up.sib.id].(color := Black)];
            var m2 := m1[k.id := m1[k.id].(color := Black)];
            var m3 := m2[k.up.id := m2[k.up.id].(color := Red)];
            Zip(m3, root, k.up.up, Pushed(k, t)) && Kept(m, m3, Inorder(Plug(k, t)))
  {
    var m1 := m[k.up.sib.id := m[k.up.sib.id].(color := Black)];
    var m2 := m1[k.id := m1[k.id].(color := Black)];
    var m3 := m2[k.up.id := m2[k.up.id].(color := Red)];
    var p := Mk(k.s, t, k.id, k.c, k.sib);
    FocusUp(m, root, k, t);
    RecolorSib(m, m1, root, k.up, p, Black);
    var g := k.up.(sib := k.up.sib.(c := Black));
    Recolor(m1, m2, root, g, p, Black);
    FocusUp(m2, root, g, p.(c := Black));
    Recolor(m2, m3, root, g.up, Mk(g.s, p.(c := Black), g.id, g.c, g.sib), Red);
    assert {k.id, k.up.id, k.up.sib.id} <= CIds(k) by { assert k.up.sib.id in CIds(k.up); }
    AgreeKept(m, m3, k, t);
  }

  /** The grandparent's subtree just before the last rotation. */
  function Raising(k: Ctx, t: Tree): Tree
    requires k.In? && k.up.In?
  {
    Mk(k.up.s, Mk(k.s, t, k.id, Black, k.sib), k.up.id, Red, k.up.sib)
  }

  /** The context of the focus after the last rotation. */
  function Raised(k: Ctx): Ctx
    requires k.In? && k.up.In?
  {
    In(k.up.up, k.s, k.id, Black, Mk(k.s, k.sib, k.up.id, Red, k.up.sib))
  }

  lemma {:induction false} PaintRaise(m: Heap, root: Ref, k: Ctx, t: Tree)
    requires Zip(m, root, k, t) && k.In? && k.up.In?
    requires k.id in m && k.up.id in m
    ensures var m1 := m[k.id := m[k.id].(color := Black)];
            var m2 := m1[k.up.id := m1[k.up.id].(color := Red)];
            Zip(m2, root, k.up.up, Raising(k, t)) && Kept(m, m2, Inorder(Plug(k, t)))
  {
    var m1 := m[k.id := m[k.id].(color := Black)];
    var m2 := m1[k.up.id := m1[k.up.id].(color := Red)];
    var p := Mk(k.s, t, k.id, k.c, k.sib);
    FocusUp(m, root, k, t);
    Recolor(m, m1, root, k.up, p, Black);
    FocusUp(m1, root, k.up, p.(c := Black));
    Recolor(m1, m2, root, k.up.up, Mk(k.up.s, p.(c := Black), k.up.id, k.up.c, k.up.sib), Red);
    assert {k.id, k.up.id} <= CIds(k) by { assert k.up.id in CIds(k.up); }
    AgreeKept(m, m2, k, t);
  }

  // ------------------------------------------------------------------ erasure's recolourings

  /** What the heap says about the sibling of the focus and the sibling's children. */
  lemma {:induction false} SibPointers(m: Heap, root: Ref, k: Ctx, t: Tree)
    requires Zip(m, root, k, t) && k.In? && k.sib.Bin?
    ensures k.id in m && k.id != NULL && m[k.id] == Nd(k.s, Up(k.up), k.c, Root(t), k.sib.id) && k.sib.id != Root(t)
    ensures k.sib.id in m && k.sib.id != NULL && k.sib.id != k.id
    ensures m[k.sib.id] == Node(k.id, k.sib.c, Root(k.sib.l), Root(k.sib.r))
    ensures ChildPointer(m, k.sib.l, k.sib.id, k.id) && ChildPointer(m, k.sib.r, k.sib.id, k.id)
    ensures {k.id, k.sib.id, Root(k.sib.l), Root(k.sib.r)} <= CIds(k) + {NULL}
  {
    CRepKnown(m, root, k, Root(t));
    RepKnown(m, Up(k), t);
    assert k.sib.id in Ids(k.sib);
    assert Rep(m, k.sib.id, k.sib.l) && Rep(m, k.sib.id, k.sib.r);
  }

  ghost predicate ChildPointer(m: Heap, t: Tree, o: Ref, p: Ref) {
    t.Bin? ==> t.id in m && t.id != NULL && t.id != o && t.id != p && m[t.id].color == t.c
  }

  /** The subtree at the parent once its red sibling has been blackened and it has been reddened. */
  function Swapped(k: Ctx, t: Tree): Tree
    requires k.In? && k.sib.Bin?
  {
    Mk(k.s, t, k.id, Red, k.sib.(c := Black))
  }

  lemma {:induction false} PaintSwap(m: Heap, root: Ref, k: Ctx, t: Tree)
    requires Zip(m, root, k, t) && k.In? && k.sib.Bin? && k.id in m && k.sib.id in m
    ensures var m1 := m[k.sib.id := m[k.sib.id].(color := Black)];
            var m2 := m1[k.id := m1[k.id].(color := Red)];
            Zip(m2, root, k.up, Swapped(k, t)) && Kept(m, m2, Inorder(Plug(k, t)))
  {
    var m1 := m[k.sib.id := m[k.sib.id].(color := Black)];
    var m2 := m1[k.id := m1[k.id].(color := Red)];
    var k' := k.(sib := k.sib.(c := Black));
    RecolorSib(m, m1, root, k, t, Black);
    FocusUp(m1, root, k', t);
    Recolor(m1, m2, root, k.up, Mk(k.s, t, k.id, k.c, k'.sib), Red);
    AgreeKept(m, m2, k, t);
  }

  /** The context of the focus once the red sibling has come up over the parent. */
  function SwappedCtx(k: Ctx): Ctx
    requires k.In? && k.sib.Bin?
  {
    In(In(k.up, k.s, k.sib.id, Black, Near(k.sib, Opp(k.s))), k.s, k.id, Red, Near(k.sib, k.s))
  }

  /** The sibling after its near child has been blackened and itself reddened. */
  lemma {:induction false} PaintNear(m: Heap, root: Ref, k: Ctx, s: Side, near: Tree, o: Ref, oc: Color, far: Tree)
    requires Zip(m, root, k, Mk(s, near, o, oc, far)) && near.Bin? && near.id in m && o in m
    ensures var m1 := m[near.id := m[near.id].(color := Black)];
            var m2 := m1[o := m1[o].(color := Red)];
            Zip(m2, root, k, Mk(s, near.(c := Black), o, Red, far))
              && Kept(m, m2, Inorder(Plug(k, Mk(s, near, o, oc, far))))
  {
    var m1 := m[near.id := m[near.id].(color := Black)];
    var m2 := m1[o := m1[o].(color := Red)];
    var k1 := In(k, s, o, oc, far);
    FocusUp(m, root, k1, near);
    Recolor(m, m1, root, k1, near, Black);
    FocusUp(m1, root, k1, near.(c := Black));
    Recolor(m1, m2, root, k, Mk(s, near.(c := Black), o, oc, far), Red);
    assert near.id in Ids(Mk(s, near, o, oc, far));
    AgreeKept(m, m2, k, Mk(s, near, o, oc, far));
  }

  function Near(t: Tree, s: Side): Tree
    requires t.Bin?
  {
    if s == L then t.l else t.r
  }

  function Blacken(t: Tree): Tree {
    if t.Leaf? then Leaf else t.(c := Black)
  }

  /** The parent's subtree just before the final rotation: the sibling takes the parent's colour. */
  function Lifting(k: Ctx, t: Tree): Tree
    requires k.In? && k.sib.Bin?
  {
    Mk(k.s, t, k.id, Black, Mk(k.s, Near(k.sib, k.s), k.sib.id, k.c, Blacken(Near(k.sib, Opp(k.s)))))
  }

  /** The same subtree after the final rotation. */
  function Lifted(k: Ctx, t: Tree): Tree
    requires k.In? && k.sib.Bin?
  {
    Mk(k.s, Mk(k.s, t, k.id, Black, Near(k.sib, k.s)), k.sib.id, k.c, Blacken(Near(k.sib, Opp(k.s))))
  }

  /** A sibling whose red near child has been rotated up to become its root. */
  function Turned(s: Side, sib: Tree): Tree
    requires sib.Bin? && Near(sib, s).Bin?
  {
    var near := Near(sib, s);
    Mk(s, Near(near, s), near.id, Black, Mk(s, Near(near, Opp(s)), sib.id, Red, Near(sib, Opp(s))))
  }

  lemma {:induction false} PaintFar(m: Heap, m': Heap, root: Ref, k: Ctx, s: Side, near: Tree, o: Ref, oc: Color,
                                    far: Tree)
    requires Zip(m, root, k, Mk(s, near, o, oc, far)) && far.Bin? && far.id in m
    requires m' == m[far.id := m[far.id].(color := Black)]
    ensures Zip(m', root, k, Mk(s, near, o, oc, far.(c := Black)))
  {
    var k1 := In(k, Opp(s), o, oc, near);
    FocusUp(m, root, k1, far);
    Recolor(m, m', root, k1, far, Black);
    FocusUp(m', root, k1, far.(c := Black));
  }

  lemma {:induction false} PaintLift(m: Heap, root: Ref, k: Ctx, t: Tree, far: Tree)
    requires Zip(m, root, k, t) && k.In? && k.sib.Bin? && far == Near(k.sib, Opp(k.s)) && far.Bin?
    requires k.id in m && k.sib.id in m && far.id in m
    ensures var m1 := m[k.sib.id := m[k.sib.id].(color := k.c)];
            var m2 := m1[k.id := m1[k.id].(color := Black)];
            var m3 := m2[far.id := m2[far.id].(color := Black)];
            Zip(m3, root, k.up, Lifting(k, t)) && Kept(m, m3, Inorder(Plug(k, t)))
  {
    var m1 := m[k.sib.id := m[k.sib.id].(color := k.c)];
    var m2 := m1[k.id := m1[k.id].(color := Black)];
    var m3 := m2[far.id := m2[far.id].(color := Black)];
    var near, o := Near(k.sib, k.s), k.sib.id;
    var k1 := k.(sib := Mk(k.s, near, o, k.c, far));
    var k2 := k1.(c := Black);
    var k3 := k2.(sib := Mk(k.s, near, o, k.c, far.(c := Black)));
    RecolorSib(m, m1, root, k, t, k.c);
    RecolorParent(m1, m2, root, k1, t, Black);
    FocusSib(m2, root, k2, t);
    PaintFar(m2, m3, root, Turn(k2, t), k.s, near, o, k.c, far);
    FocusSib(m3, root, k3, t);
    FocusUp(m3, root, k3, t);
    SibPointers(m, root, k, t);
    AgreeKept(m, m3, k, t);
  }

  lemma {:induction false} PaintFade(m: Heap, m': Heap, root: Ref, k: Ctx, t: Tree)
    requires Zip(m, root, k, t) && k.In? && k.sib.Bin? && k.sib.id in m
    requires m' == m[k.sib.id := m[k.sib.id].(color := Red)]
    ensures Zip(m', root, k.up, Mk(k.s, t, k.id, k.c, k.sib.(c := Red))) && Kept(m, m', Inorder(Plug(k, t)))
  {
    RecolorSib(m, m', root, k, t, Red);
    FocusUp(m', root, k.(sib := k.sib.(c := Red)), t);
    SibPointers(m, root, k, t);
    AgreeKept(m, m', k, t);
  }

  /** The focus and its sibling see the same sequence, whatever the sibling's colours. */
  lemma {:induction false} InorderTurn(k: Ctx, t: Tree, sib: Tree)
    requires k.In? && Inorder(sib) == Inorder(k.sib)
    ensures Inorder(Plug(Turn(k, t), sib)) == Inorder(Plug(Turn(k, t), k.sib)) == Inorder(Plug(k, t))
  {
    InorderCong(k.up, Mk(k.s, t, k.id, k.c, k.sib), Mk(k.s, t, k.id, k.c, sib));
  }

  // ------------------------------------------------------------------ walking left

  /** A path that only went left. */
  datatype Spine = SNil | SCons(id: Ref, c: Color, sib: Tree, rest: Spine)

  function Hang(p: Spine, k: Ctx): Ctx {
    if p.SNil? then k else In(Hang(p.rest, k), L, p.id, p.c, p.sib)
  }

  function PlugSpine(p: Spine, t: Tree): Tree {
    if p.SNil? then t else PlugSpine(p.rest, Bin(t, p.id, p.c, p.sib))
  }

  lemma {:induction false} FocusSpine(m: Heap, root: Ref, p: Spine, k: Ctx, t: Tree)
    ensures Zip(m, root, Hang(p, k), t) <==> Zip(m, root, k, PlugSpine(p, t))
    ensures Plug(Hang(p, k), t) == Plug(k, PlugSpine(p, t))
    decreases p
  {
    if p.SCons? {
      FocusUp(m, root, Hang(p, k), t);
      FocusSpine(m, root, p.rest, k, Bin(t, p.id, p.c, p.sib));
    }
  }

  /** What follows the hole of a spine. */
  function SpineAfter(p: Spine): seq<Ref> {
    if p.SNil? then [] else [p.id] + Inorder(p.sib) + SpineAfter(p.rest)
  }

  lemma {:induction false} InorderSpine(p: Spine, t: Tree)
    ensures Inorder(PlugSpine(p, t)) == Inorder(t) + SpineAfter(p)
    decreases p
  {
    if p.SCons? {
      var t' := Bin(t, p.id, p.c, p.sib);
      InorderSpine(p.rest, t');
      Regroup(Inorder(t), [p.id], Inorder(p.sib), SpineAfter(p.rest));
    }
  }

  /** Every node of a tree is the focus of some position. */
  lemma {:induction false} Locate(k: Ctx, t: Tree, n: Ref) returns (k': Ctx, t': Tree)
    requires n in Inorder(t)
    ensures Plug(k', t') == Plug(k, t) && t'.Bin? && t'.id == n
    decreases t
  {
    if t.id == n {
      k', t' := k, t;
    } else if n in Inorder(t.l) {
      k', t' := Locate(In(k, L, t.id, t.c, t.r), t.l, n);
    } else {
      k', t' := Locate(In(k, R, t.id, t.c, t.l), t.r, n);
    }
  }

  /** `s'` is `s` without one occurrence of `n`. */
  ghost predicate Removed(s: seq<Ref>, s': seq<Ref>, n: Ref) {
    exists i | 0 <= i < |s| :: s[i] == n && s' == s[..i] + s[i + 1..]
  }

  lemma {:induction false} RemovedAt(a: seq<Ref>, n: Ref, b: seq<Ref>)
    ensures Removed(a + [n] + b, a + b, n)
  {
    var s := a + [n] + b;
    assert s[|a|] == n && a + b == s[..|a|] + s[|a| + 1..];
  }

  lemma {:induction false} RemovedInside(b: seq<Ref>, l: seq<Ref>, x: Ref, y: Ref, r: seq<Ref>, a: seq<Ref>)
    ensures Removed(b + (l + [x] + ([y] + r)) + a, b + (l + [y] + r) + a, x)
  {
    var s, s' := b + (l + [x] + ([y] + r)) + a, b + (l + [y] + r) + a;
    var i := |b| + |l|;
    assert s[i] == x;
    assert s[..i] == b + l && s[i + 1..] == [y] + r + a;
    assert s' == b + l + ([y] + r + a);
  }

  lemma {:induction false} RemovedEdge(b: seq<Ref>, i: seq<Ref>, x: Ref, a: seq<Ref>)
    ensures Removed(b + (i + [x]) + a, b + i + a, x) && Removed(b + ([x] + i) + a, b + i + a, x)
  {
    RemovedAt(b + i, x, a);
    assert b + (i + [x]) + a == (b + i) + [x] + a;
    RemovedAt(b, x, i + a);
    assert b + ([x] + i) + a == b + [x] + (i + a) && b + i + a == b + (i + a);
  }
}
