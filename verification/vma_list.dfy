/** The linked list of areas: nodes chained through `vm_next`, and what single updates do to it. */
module VmaList {
  import opened VmaModel

  type Ref = nat
  datatype Vma = Vma(start: nat, end: nat, flags: nat, anon: nat, next: Ref)
  type Heap = map<Ref, Vma>

  function Data(v: Vma): Area {
    Area(v.start, v.end, v.flags, v.anon)
  }

  /** Following `vm_next` from `head` visits the nodes `l`, without repetition, and they hold the areas `A`. */
  ghost predicate Rep(m: Heap, head: Ref, l: seq<Ref>, A: seq<Area>)
    decreases |l|
  {
    && |l| == |A|
    && if l == [] then head == 0 else
         && head == l[0] && head != 0 && head in m && Data(m[head]) == A[0]
         && l[0] !in l[1..] && Rep(m, m[head].next, l[1..], A[1..])
  }

  /** The heap holds the nodes of the list and no others. */
  ghost predicate Owned(m: Heap, l: seq<Ref>) {
    m.Keys == set x | x in l
  }

  lemma {:induction false} RepFrame(m: Heap, m': Heap, head: Ref, l: seq<Ref>, A: seq<Area>)
    requires Rep(m, head, l, A) && forall x | x in l && x in m :: x in m' && m'[x] == m[x]
    ensures Rep(m', head, l, A)
    decreases |l|
  {
    if l != [] {
      assert l[0] in l;
      RepFrame(m, m', m[head].next, l[1..], A[1..]);
    }
  }

  /** The node at index `i`. */
  lemma {:induction false} RepAt(m: Heap, head: Ref, l: seq<Ref>, A: seq<Area>, i: nat)
    requires Rep(m, head, l, A) && i < |l|
    ensures l[i] in m && l[i] != 0 && Data(m[l[i]]) == A[i] && m[l[i]].next == if i + 1 < |l| then l[i + 1] else 0
    ensures head == l[0]
    decreases |l|
  {
    if i > 0 {
      RepAt(m, m[head].next, l[1..], A[1..], i - 1);
    } else if |l| > 1 {
      assert l[1..][0] == l[1];
    }
  }

  lemma {:induction false} RepDistinct(m: Heap, head: Ref, l: seq<Ref>, A: seq<Area>, i: nat, j: nat)
    requires Rep(m, head, l, A) && i < j < |l|
    ensures l[i] != l[j]
    decreases |l|
  {
    if i > 0 {
      RepDistinct(m, m[head].next, l[1..], A[1..], i - 1, j - 1);
    } else {
      assert l[j] == l[1..][j - 1];
    }
  }

  /** Changing the fields of a node, but not its link. */
  lemma {:induction false} RepSet(m: Heap, head: Ref, l: seq<Ref>, A: seq<Area>, i: nat, v: Vma)
    requires Rep(m, head, l, A) && i < |l| && l[i] in m && v.next == m[l[i]].next
    ensures Rep(m[l[i] := v], head, l, A[i := Data(v)])
    decreases |l|
  {
    var m' := m[l[i] := v];
    if i == 0 {
      RepFrame(m, m', m[head].next, l[1..], A[1..]);
      assert A[0 := Data(v)][1..] == A[1..];
    } else {
      assert l[i] == l[1..][i - 1];
      RepSet(m, m[head].next, l[1..], A[1..], i - 1, v);
      assert A[i := Data(v)][1..] == A[1..][i - 1 := Data(v)];
    }
  }

  /** The heap and head after inserting node `r` with fields `a` before index `i`. */
  function Inserted(m: Heap, l: seq<Ref>, i: nat, r: Ref, a: Area): Heap
    requires i <= |l| && (i > 0 ==> l[i - 1] in m)
  {
    var m1 := m[r := Vma(a.start, a.end, a.flags, a.anon, if i < |l| then l[i] else 0)];
    if i > 0 then m1[l[i - 1] := m[l[i - 1]].(next := r)] else m1
  }

  lemma {:induction false} RepInsert(m: Heap, head: Ref, l: seq<Ref>, A: seq<Area>, i: nat, r: Ref, a: Area)
    requires Rep(m, head, l, A) && i <= |l| && r != 0 && r !in m && (i > 0 ==> l[i - 1] in m)
    ensures Rep(Inserted(m, l, i, r, a), if i == 0 then r else head, l[..i] + [r] + l[i..], A[..i] + [a] + A[i..])
    decreases |l|
  {
    var m' := Inserted(m, l, i, r, a);
    var l', A' := l[..i] + [r] + l[i..], A[..i] + [a] + A[i..];
    RepNoRef(m, head, l, A, r);
    if i == 0 {
      assert l' == [r] + l && A' == [a] + A;
      RepFrame(m, m', head, l, A);
      assert l'[1..] == l && A'[1..] == A;
    } else {
      assert l[i - 1] == if i == 1 then l[0] else l[1..][i - 2];
      var t := l[1..];
      assert l'[1..] == t[..i - 1] + [r] + t[i - 1..] && A'[1..] == A[1..][..i - 1] + [a] + A[1..][i - 1..];
      RepInsert(m, m[head].next, t, A[1..], i - 1, r, a);
      var m1 := Inserted(m, t, i - 1, r, a);
      if i == 1 {
        RepFrame(m1, m', r, l'[1..], A'[1..]);
      } else {
        RepDistinct(m, head, l, A, 0, i - 1);
        assert m' == m1;
      }
    }
  }

  lemma {:induction false} RepNoRef(m: Heap, head: Ref, l: seq<Ref>, A: seq<Area>, r: Ref)
    requires Rep(m, head, l, A) && r !in m
    ensures r !in l
    decreases |l|
  {
    if l != [] {
      RepNoRef(m, m[head].next, l[1..], A[1..], r);
    }
  }

  /** The heap after unlinking and freeing the node at index `i`. */
  function Unlinked(m: Heap, l: seq<Ref>, i: nat): Heap
    requires i < |l| && l[i] in m && (i > 0 ==> l[i - 1] in m)
  {
    (if i > 0 then m[l[i - 1] := m[l[i - 1]].(next := m[l[i]].next)] else m) - {l[i]}
  }

  lemma {:induction false} RepRemove(m: Heap, head: Ref, l: seq<Ref>, A: seq<Area>, i: nat)
    requires Rep(m, head, l, A) && i < |l| && l[i] in m && (i > 0 ==> l[i - 1] in m)
    ensures Rep(Unlinked(m, l, i), if i == 0 then m[head].next else head, l[..i] + l[i + 1..], A[..i] + A[i + 1..])
    decreases |l|
  {
    var m' := Unlinked(m, l, i);
    var l', A' := l[..i] + l[i + 1..], A[..i] + A[i + 1..];
    if i == 0 {
      assert l' == l[1..] && A' == A[1..];
      RepFrame(m, m', m[head].next, l[1..], A[1..]);
    } else {
      var t := l[1..];
      assert l'[1..] == t[..i - 1] + t[i..] && A'[1..] == A[1..][..i - 1] + A[1..][i..];
      assert l[i] == t[i - 1];
      RepDistinct(m, head, l, A, 0, i);
      RepRemove(m, m[head].next, t, A[1..], i - 1);
      var m1 := Unlinked(m, t, i - 1);
      if i == 1 {
        RepFrame(m1, m', m[l[1]].next, l'[1..], A'[1..]);
      } else {
        assert l[i - 1] == t[i - 2];
        RepDistinct(m, head, l, A, 0, i - 1);
        assert m' == m1;
      }
    }
  }
}
