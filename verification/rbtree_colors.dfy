/** The colour discipline of a red-black tree, on shapes, and what each rebalancing case keeps. */
module RbColors {
  import opened Bits
  import opened RbModel

  function B(c: Color): nat {
    if c == Black then 1 else 0
  }

  predicate IsRed(t: Tree) {
    t.Bin? && t.c == Red
  }

  /** Every path from the root of `t` to a leaf passes `n` black nodes. */
  predicate Bal(t: Tree, n: int) {
    if t.Leaf? then n == 0 else Bal(t.l, n - B(t.c)) && Bal(t.r, n - B(t.c))
  }

  predicate NoRR(t: Tree) {
    t.Bin? ==> NoRR(t.l) && NoRR(t.r) && (t.c == Red ==> !IsRed(t.l) && !IsRed(t.r))
  }

  function BlackHeight(t: Tree): nat {
    if t.Leaf? then 0 else BlackHeight(t.l) + B(t.c)
  }

  /** A red-black tree: black root, no red node with a red child, equal black heights. */
  predicate RedBlack(t: Tree) {
    !IsRed(t) && NoRR(t) && Bal(t, BlackHeight(t))
  }

  /** The context expects black height `n` in its hole. */
  predicate CBal(k: Ctx, n: int) {
    k.In? ==> Bal(k.sib, n) && CBal(k.up, n + B(k.c))
  }

  /** No red node of the context has a red child or is the root. */
  predicate CNoRR(k: Ctx) {
    k.In? ==> NoRR(k.sib) && CNoRR(k.up) && (k.c == Red ==> !IsRed(k.sib) && k.up.In? && k.up.c == Black)
  }

  /** The hole may hold a red tree. */
  predicate RedOk(k: Ctx) {
    k.In? && k.c == Black
  }

  lemma {:induction false} OfMk(s: Side, a: Tree, id: Ref, c: Color, b: Tree, n: int)
    ensures Bal(Mk(s, a, id, c, b), n) <==> Bal(a, n - B(c)) && Bal(b, n - B(c))
    ensures NoRR(Mk(s, a, id, c, b)) <==> NoRR(a) && NoRR(b) && (c == Red ==> !IsRed(a) && !IsRed(b))
  {
  }

  lemma {:induction false} BalHeight(t: Tree, n: int)
    requires Bal(t, n)
    ensures n == BlackHeight(t)
    decreases t
  {
    if t.Bin? {
      BalHeight(t.l, n - B(t.c));
    }
  }

  /** A sound context and a sound tree of the right height make a red-black tree. */
  lemma {:induction false} PlugSound(k: Ctx, t: Tree, n: int)
    requires CBal(k, n) && Bal(t, n) && CNoRR(k) && NoRR(t)
    requires IsRed(t) ==> k.Top? || RedOk(k)
    ensures NoRR(Plug(k, t)) && Bal(Plug(k, t), BlackHeight(Plug(k, t)))
    ensures k.In? ==> !IsRed(Plug(k, t))
    decreases k
  {
    if k.Top? {
      BalHeight(t, n);
    } else {
      PlugSound(k.up, Mk(k.s, t, k.id, k.c, k.sib), n + B(k.c));
    }
  }

  /** A red-black tree taken apart at any position. */
  lemma {:induction false} PlugTaken(k: Ctx, t: Tree, n: int)
    requires NoRR(Plug(k, t)) && Bal(Plug(k, t), n) && !IsRed(Plug(k, t))
    ensures CNoRR(k) && NoRR(t) && (IsRed(t) ==> RedOk(k))
    ensures CBal(k, BlackHeight(t)) && Bal(t, BlackHeight(t))
    decreases k
  {
    if k.Top? {
      BalHeight(t, n);
    } else {
      var t' := Mk(k.s, t, k.id, k.c, k.sib);
      PlugTaken(k.up, t', n);
      var h := BlackHeight(t') - B(k.c);
      assert Bal(t, h) && Bal(k.sib, h);
      BalHeight(t, h);
    }
  }

  // ------------------------------------------------------------------ insertion

  /** Loop invariant of rb_insert_color: everything is sound but that the red focus may have a red parent. */
  ghost predicate Inserting(k: Ctx, t: Tree) {
    IsRed(t) && NoRR(t) && CNoRR(k) && exists n :: Bal(t, n) && CBal(k, n)
  }

  lemma {:induction false} InsertingGrand(k: Ctx, t: Tree)
    requires Inserting(k, t) && k.In? && k.c == Red
    ensures k.up.In? && k.up.c == Black
  {
  }

  /** Red uncle: the blackness of the grandparent moves one level down. */
  lemma {:induction false} InsertPush(k: Ctx, t: Tree)
    requires Inserting(k, t) && k.In? && k.c == Red && k.up.In? && IsRed(k.up.sib)
    ensures Inserting(k.up.up, Pushed(k, t))
    ensures Inorder(Plug(k.up.up, Pushed(k, t))) == Inorder(Plug(k, t))
  {
    InorderCong(k.up.up, Pushed(k, t), Mk(k.up.s, Mk(k.s, t, k.id, k.c, k.sib), k.up.id, k.up.c, k.up.sib));
    var n :| Bal(t, n) && CBal(k, n);
    var p := Mk(k.s, t, k.id, Black, k.sib);
    assert CBal(k.up, n) && CNoRR(k.up);
    OfMk(k.s, t, k.id, Black, k.sib, n + 1);
    OfMk(k.up.s, p, k.up.id, Red, k.up.sib.(c := Black), n + 1);
  }

  /** The bent case becomes the straight one. */
  lemma {:induction false} InsertBend(k: Ctx, s: Side, b: Tree, x: Ref, c: Tree)
    requires k.In? && k.c == Red && k.up.In? && k.s == Opp(k.up.s) && s == k.up.s
    requires Inserting(k, Mk(s, b, x, Red, c))
    ensures Inserting(In(k.up, s, x, Red, c), Mk(s, k.sib, k.id, Red, b))
    ensures Inorder(Plug(In(k.up, s, x, Red, c), Mk(s, k.sib, k.id, Red, b))) == Inorder(Plug(k, Mk(s, b, x, Red, c)))
  {
    InorderRotate(s, k.sib, k.id, Red, Red, b, x, Red, Red, c);
    InorderCong(k.up, Mk(k.s, Mk(s, b, x, Red, c), k.id, k.c, k.sib), Mk(s, Mk(s, k.sib, k.id, Red, b), x, Red, c));
    var n :| Bal(Mk(s, b, x, Red, c), n) && CBal(k, n);
    assert Bal(Mk(s, k.sib, k.id, Red, b), n) && CBal(In(k.up, s, x, Red, c), n);
  }

  /** The straight case: the parent comes up black over a red grandparent. */
  lemma {:induction false} InsertRaise(k: Ctx, t: Tree)
    requires Inserting(k, t) && k.In? && k.c == Red && k.up.In? && k.s == k.up.s && !IsRed(k.up.sib)
    ensures Inserting(Raised(k), t)
    ensures Inorder(Plug(Raised(k), t)) == Inorder(Plug(k.up.up, Raising(k, t))) == Inorder(Plug(k, t))
  {
    InorderCong(k.up.up, Mk(k.up.s, Mk(k.s, t, k.id, k.c, k.sib), k.up.id, k.up.c, k.up.sib), Raising(k, t));
    InorderRotate(k.s, t, k.id, Black, Red, k.sib, k.up.id, Red, Black, k.up.sib);
    InorderCong(k.up.up, Mk(k.up.s, Mk(k.s, t, k.id, k.c, k.sib), k.up.id, k.up.c, k.up.sib),
                Mk(k.s, t, k.id, Black, Mk(k.s, k.sib, k.up.id, Red, k.up.sib)));
    var n :| Bal(t, n) && CBal(k, n);
    assert CBal(k.up, n) && CNoRR(k.up);
    OfMk(k.s, k.sib, k.up.id, Red, k.up.sib, n);
    assert CBal(In(k.up.up, k.s, k.id, Black, Mk(k.s, k.sib, k.up.id, Red, k.up.sib)), n);
  }

  // ------------------------------------------------------------------ erasure

  /** Loop invariant of rb_erase_color: the focus is one black node short, and may be a red node
      with a red child; everything else is sound. */
  ghost predicate Erasing(k: Ctx, t: Tree) {
    NoRR(Blacken(t)) && CNoRR(k) && exists n :: Bal(t, n - 1) && CBal(k, n)
  }

  /** Nothing is left to repair, except perhaps a red root. */
  ghost predicate Sound(k: Ctx, t: Tree) {
    && NoRR(t) && CNoRR(k) && (IsRed(t) ==> k.Top? || RedOk(k))
    && exists n :: Bal(t, n) && CBal(k, n)
  }

  lemma {:induction false} ErasingSib(k: Ctx, t: Tree)
    requires Erasing(k, t) && k.In?
    ensures k.sib.Bin? && (IsRed(k.sib) ==> k.c == Black && Near(k.sib, k.s).Bin? && !IsRed(Near(k.sib, k.s)))
  {
    var n :| Bal(t, n - 1) && CBal(k, n);
    BalHeight(t, n - 1);
    assert IsRed(k.sib) ==> Bal(Near(k.sib, k.s), n);
  }

  /** Red sibling: it comes up black, and the new sibling is black. */
  lemma {:induction false} EraseSwap(k: Ctx, t: Tree)
    requires Erasing(k, t) && k.In? && IsRed(k.sib)
    ensures Erasing(SwappedCtx(k), t)
    ensures Inorder(Plug(SwappedCtx(k), t)) == Inorder(Plug(k.up, Swapped(k, t))) == Inorder(Plug(k, t))
  {
    var n :| Bal(t, n - 1) && CBal(k, n);
    var p := Mk(k.s, t, k.id, k.c, k.sib);
    var near, far := Near(k.sib, k.s), Near(k.sib, Opp(k.s));
    InorderCong(k.up, p, Swapped(k, t));
    InorderRotate(k.s, t, k.id, k.c, Red, near, k.sib.id, Red, Black, far);
    InorderCong(k.up, p, Mk(k.s, Mk(k.s, t, k.id, Red, near), k.sib.id, Black, far));
    ErasingSib(k, t);
    assert CBal(In(k.up, k.s, k.sib.id, Black, far), n) && CNoRR(In(k.up, k.s, k.sib.id, Black, far));
    assert CBal(SwappedCtx(k), n);
  }

  /** Black sibling with no red child: it fades to red and the shortage moves up. */
  lemma {:induction false} EraseFade(k: Ctx, t: Tree)
    requires Erasing(k, t) && k.In? && !IsRed(t) && k.sib.Bin? && !IsRed(k.sib) && !IsRed(k.sib.l) && !IsRed(k.sib.r)
    ensures Erasing(k.up, Mk(k.s, t, k.id, k.c, k.sib.(c := Red)))
    ensures Inorder(Plug(k.up, Mk(k.s, t, k.id, k.c, k.sib.(c := Red)))) == Inorder(Plug(k, t))
  {
    var n :| Bal(t, n - 1) && CBal(k, n);
    InorderCong(k.up, Mk(k.s, t, k.id, k.c, k.sib), Mk(k.s, t, k.id, k.c, k.sib.(c := Red)));
    OfMk(k.s, t, k.id, k.c, k.sib.(c := Red), n - 1 + B(k.c));
    OfMk(k.s, t, k.id, Black, k.sib.(c := Red), n);
    assert Bal(k.sib.(c := Red), n - 1);
    assert Blacken(Mk(k.s, t, k.id, k.c, k.sib.(c := Red))) == Mk(k.s, t, k.id, Black, k.sib.(c := Red));
    assert CBal(k.up, n + B(k.c)) && Bal(Mk(k.s, t, k.id, k.c, k.sib.(c := Red)), n + B(k.c) - 1);
  }

  /** Only the near child is red: it becomes the sibling, and the far child of that is red. */
  lemma {:induction false} EraseTurn(k: Ctx, t: Tree)
    requires Erasing(k, t) && k.In? && k.sib.Bin? && !IsRed(k.sib) && IsRed(Near(k.sib, k.s))
    requires !IsRed(Near(k.sib, Opp(k.s)))
    ensures Erasing(k.(sib := Turned(k.s, k.sib)), t)
    ensures Inorder(Plug(k.(sib := Turned(k.s, k.sib)), t)) == Inorder(Plug(k, t))
  {
    var n :| Bal(t, n - 1) && CBal(k, n);
    var near, far := Near(k.sib, k.s), Near(k.sib, Opp(k.s));
    var sib := Mk(k.s, Near(near, Opp(k.s)), k.sib.id, Red, far);
    OfMk(k.s, near, k.sib.id, Black, far, n);
    OfMk(k.s, Near(near, k.s), near.id, Red, Near(near, Opp(k.s)), n - 1);
    OfMk(k.s, Near(near, Opp(k.s)), k.sib.id, Red, far, n - 1);
    OfMk(k.s, Near(near, k.s), near.id, Black, sib, n);
    assert CBal(k.(sib := Turned(k.s, k.sib)), n);
    InorderRotate(k.s, Near(near, k.s), near.id, Black, Red, Near(near, Opp(k.s)), k.sib.id, Red, Black, far);
    InorderCong(k.up, Mk(k.s, t, k.id, k.c, k.sib), Mk(k.s, t, k.id, k.c, Turned(k.s, k.sib)));
  }

  /** Red far child: one rotation pays the shortage. */
  lemma {:induction false} EraseLift(k: Ctx, t: Tree)
    requires Erasing(k, t) && k.In? && !IsRed(t) && k.sib.Bin? && !IsRed(k.sib) && IsRed(Near(k.sib, Opp(k.s)))
    ensures Sound(k.up, Lifted(k, t))
    ensures Inorder(Plug(k.up, Lifted(k, t))) == Inorder(Plug(k.up, Lifting(k, t))) == Inorder(Plug(k, t))
  {
    var n :| Bal(t, n - 1) && CBal(k, n);
    var near, far := Near(k.sib, k.s), Near(k.sib, Opp(k.s));
    var p := Mk(k.s, t, k.id, Black, near);
    OfMk(k.s, near, k.sib.id, Black, far, n);
    OfMk(k.s, t, k.id, Black, near, n);
    OfMk(k.s, p, k.sib.id, k.c, Blacken(far), n + B(k.c));
    assert Bal(Blacken(far), n);
    InorderRotate(k.s, t, k.id, Black, Black, near, k.sib.id, k.c, k.c, Blacken(far));
    InorderCong(k.up, Lifting(k, t), Lifted(k, t));
    assert Inorder(Mk(k.s, near, k.sib.id, k.c, Blacken(far))) == Inorder(k.sib) by {
      assert Inorder(Blacken(far)) == Inorder(far);
    }
    InorderCong(k.up, Mk(k.s, t, k.id, k.c, k.sib), Lifting(k, t));
  }

  /** Blackening the focus ends the loop when it was red or is the root. */
  lemma {:induction false} EraseEnd(k: Ctx, t: Tree)
    requires Erasing(k, t) && (IsRed(t) || k.Top?)
    ensures Sound(k, Blacken(t))
  {
  }

  /** Unlinking a node with at most one child. */
  lemma {:induction false} EraseStart(k: Ctx, s: Side, x: Ref, c: Color, t: Tree)
    requires RedBlack(Plug(k, Mk(s, Leaf, x, c, t)))
    ensures if c == Red then Sound(k, t) && !IsRed(t) && k.In? else Erasing(k, t)
  {
    var T := Mk(s, Leaf, x, c, t);
    PlugTaken(k, T, BlackHeight(Plug(k, T)));
    var n := BlackHeight(T);
    OfMk(s, Leaf, x, c, t, n);
    assert Bal(t, n - B(c)) && CBal(k, n);
  }

  /** The discipline does not see which node sits in the frame at the end of a spine. */
  lemma {:induction false} SpineRename(p: Spine, k: Ctx, k': Ctx, n: int)
    requires k.In? && k'.In? && k' == k.(id := k'.id)
    ensures CBal(Hang(p, k), n) == CBal(Hang(p, k'), n)
    ensures CNoRR(Hang(p, k)) == CNoRR(Hang(p, k'))
    ensures RedOk(Hang(p, k)) == RedOk(Hang(p, k'))
    decreases p
  {
    if p.SCons? {
      SpineRename(p.rest, k, k', n + B(p.c));
    }
  }

  // ------------------------------------------------------------------ height

  function Height(t: Tree): nat {
    if t.Leaf? then 0 else 1 + if Height(t.l) < Height(t.r) then Height(t.r) else Height(t.l)
  }

  lemma {:induction false} Pow2Add(m: nat, n: nat)
    ensures Pow2(m + n) == Pow2(m) * Pow2(n)
  {
    if m > 0 {
      Pow2Add(m - 1, n);
    }
  }

  lemma {:induction false} HeightBlack(t: Tree, n: int)
    requires NoRR(t) && Bal(t, n)
    ensures n >= 0 && Height(t) <= 2 * n + (if IsRed(t) then 1 else 0) && Pow2(n) <= |Inorder(t)| + 1
    decreases t
  {
    if t.Bin? {
      HeightBlack(t.l, n - B(t.c));
      HeightBlack(t.r, n - B(t.c));
    }
  }

  /** Height at most 2 log2(n + 1), for a tree of n nodes. */
  lemma {:induction false} HeightBound(t: Tree)
    requires RedBlack(t)
    ensures Pow2(Height(t)) <= (|Inorder(t)| + 1) * (|Inorder(t)| + 1)
  {
    var n := BlackHeight(t);
    HeightBlack(t, n);
    Pow2Mono(Height(t), n + n);
    Pow2Add(n, n);
    Square(Pow2(n), |Inorder(t)| + 1);
  }

  lemma {:induction false} Square(a: nat, b: nat)
    requires a <= b
    ensures a * a <= b * b
  {
  }
}
