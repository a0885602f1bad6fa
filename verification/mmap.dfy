/** mm/mmap.c: VMA surgery on the linked list of an address space. */
module Mmap {
  import opened Kmalloc
  import opened Machine
  import opened VmaModel
  import opened VmaList

  /** The pointer to the node at index `i`, or NULL at the end of the list. */
  function Ptr(l: seq<Ref>, i: nat): Ref {
    if i < |l| then l[i] else 0
  }

  const TASK_SIZE: nat := 0xC000_0000

  /** Nothing is mapped in the kernel's part of the address space. */
  ghost predicate UserOnly(A: seq<Area>) {
    forall x: nat | x >= TASK_SIZE :: At(A, x) == Hole
  }

  /** align_up, in 32-bit arithmetic */
  function AlignUp(v: nat): (r: nat)
    ensures r % PAGE == 0 && (v + 0xFFF < WORD ==> v <= r < v + PAGE)
    ensures WORD <= v + 0xFFF < WORD + PAGE ==> r == 0
  {
    (v + 0xFFF) % WORD / PAGE * PAGE
  }

  class MmStruct {
    var mmap: Ref
    var nodes: Heap
    var brk: nat
    var startCode: nat
    var endCode: nat
    var startStack: nat
    var nextAnon: nat
    ghost var list: seq<Ref>
    ghost var areas: seq<Area>

    /** The list is well linked, its nodes are exactly the live allocations, and it holds `areas`. */
    ghost predicate Ok()
      reads this
    {
      Rep(nodes, mmap, list, areas) && Owned(nodes, list)
    }

    /** Everything the operations keep: a tidy list within the user's part of the address space. */
    ghost predicate Valid()
      reads this
    {
      && Ok() && Tidy(areas) && UserOnly(areas) && nextAnon < WORD
      && startStack <= TASK_SIZE && brk < TASK_SIZE && endCode < TASK_SIZE
    }

    constructor ()
      ensures Valid() && areas == [] && nextAnon == 1
      ensures brk == 0 && startCode == 0 && endCode == 0 && startStack == 0
    {
      mmap, nodes, list, areas := 0, map[], [], [];
      brk, startCode, endCode, startStack, nextAnon := 0, 0, 0, 0, 1;
    }

    // ------------------------------------------------------------------ single updates of the list

    /** Allocates a node with fields `a` and links it between `prev` (or the head) and `cur`. */
    method LinkNew(prev: Ref, cur: Ref, a: Area, ghost i: nat) returns (r: Ref)
      requires Ok() && i <= |list| && prev == (if i > 0 then list[i - 1] else 0) && cur == Ptr(list, i)
      modifies this`mmap, this`nodes, this`list, this`areas
      ensures Ok() && r !in old(nodes)
      ensures list == old(list[..i] + [r] + list[i..]) && areas == old(areas[..i]) + [a] + old(areas[i..])
    {
      if i > 0 {
        RepAt(nodes, mmap, list, areas, i - 1);
      }
      FreshExists(nodes.Keys);
      r :| r != 0 && r !in nodes;
      RepInsert(nodes, mmap, list, areas, i, r, a);
      nodes := nodes[r := Vma(a.start, a.end, a.flags, a.anon, cur)];
      if prev != 0 {
        nodes := nodes[prev := nodes[prev].(next := r)];
      } else {
        mmap := r;
      }
      list, areas := list[..i] + [r] + list[i..], areas[..i] + [a] + areas[i..];
    }

    /** Unlinks the node `v` that follows `prev` (or is the head), and frees it. */
    method Drop(prev: Ref, v: Ref, ghost i: nat)
      requires Ok() && i < |list| && prev == (if i > 0 then list[i - 1] else 0) && v == list[i]
      modifies this`mmap, this`nodes, this`list, this`areas
      ensures Ok() && list == old(list[..i] + list[i + 1..]) && areas == old(areas[..i] + areas[i + 1..])
    {
      if i > 0 {
        RepAt(nodes, mmap, list, areas, i - 1);
        RepDistinct(nodes, mmap, list, areas, i - 1, i);
      }
      RepAt(nodes, mmap, list, areas, i);
      RepRemove(nodes, mmap, list, areas, i);
      DropOwned(nodes, mmap, list, areas, i);
      var next := nodes[v].next;
      if prev != 0 {
        nodes := nodes[prev := nodes[prev].(next := next)];
      } else {
        mmap := next;
      }
      nodes := nodes - {v};
      list, areas := list[..i] + list[i + 1..], areas[..i] + areas[i + 1..];
    }

    /** Writes the fields of the node `v`, leaving its link. */
    method Write(v: Ref, a: Area, ghost i: nat)
      requires Ok() && i < |list| && v == list[i]
      modifies this`nodes, this`areas
      ensures Ok() && areas == old(areas)[i := a]
    {
      RepAt(nodes, mmap, list, areas, i);
      var n := Vma(a.start, a.end, a.flags, a.anon, nodes[v].next);
      RepSet(nodes, mmap, list, areas, i, n);
      nodes := nodes[v := n];
      areas := areas[i := a];
    }

    /** `v` points to the node at index `i`, or is NULL at the end. */
    ghost predicate Here(v: Ref, i: nat)
      reads this
    {
      && |list| == |areas| && i <= |list| && v == Ptr(list, i)
      && (i < |list| ==> v != 0 && v in nodes && Data(nodes[v]) == areas[i] && nodes[v].next == Ptr(list, i + 1))
    }

    lemma Look(i: nat)
      requires Ok() && i <= |list|
      ensures Here(Ptr(list, i), i) && mmap == Ptr(list, 0)
    {
      if i < |list| {
        RepAt(nodes, mmap, list, areas, i);
      }
    }

    /** Both merging loops do this: `v` grows to the end of `next`, which leaves the list. */
    method Swallow(v: Ref, next: Ref, ghost i: nat)
      requires Ok() && i + 1 < |list| && v == list[i] && next == list[i + 1]
      modifies this`mmap, this`nodes, this`list, this`areas
      ensures Ok() && |list| == old(|list|) - 1 && areas == Swallowed(old(areas), i)
      ensures Here(v, i) && Here(nodes[v].next, i + 1)
    {
      Look(i);
      Look(i + 1);
      Write(v, Data(nodes[v]).(end := nodes[next].end), i);
      ghost var A := areas;
      Drop(v, next, i + 1);
      assert A[..i + 1] + A[i + 2..] == Swallowed(old(areas), i);
      Look(i);
      Look(i + 1);
    }

    /** vma_merge_adjacent */
    method MergeAdjacent()
      requires Ok()
      modifies this`mmap, this`nodes, this`list, this`areas
      ensures Ok() && areas == MergeAll(old(areas))
    {
      var v := mmap;
      ghost var i := 0;
      assert areas[0..] == areas;
      Look(0);
      while v != 0 && nodes[v].next != 0
        invariant Ok() && Here(v, i) && MergeAll(old(areas)) == areas[..i] + MergeAll(areas[i..])
        decreases |list| - i
      {
        var next := nodes[v].next;
        Look(i + 1);
        MergeAllStep(areas, i);
        if CanMerge(Data(nodes[v]), Data(nodes[next])) {
          Swallow(v, next, i);
        } else {
          v := next;
          i := i + 1;
        }
      }
      if v != 0 {
        Look(i + 1);
      }
      assert |areas[i..]| < 2 && areas[..i] + areas[i..] == areas;
    }

    /** vma_add_anon */
    method AddAnon(start: nat, end: nat, flags: nat, anon: nat) returns (ghost r: Ref)
      requires Ok()
      modifies this`mmap, this`nodes, this`list, this`areas
      ensures Ok() && areas == if start < end then Add(old(areas), Area(start, end, flags, anon)) else old(areas)
      ensures start < end && Alone(old(areas), Area(start, end, flags, anon)) ==>
                var i := Before(old(areas), start); list == old(list[..i] + [r] + list[i..])
    {
      r := 0;
      if start >= end {
        return;
      }
      var prev, cur := FindPlace(start);
      ghost var A, i := areas, Before(areas, start);
      var a := Area(start, end, flags, anon);
      var v := LinkNew(prev, cur, a, i);
      r := v;
      PlacedIn(A, i, a);
      v, i := JoinPrev(prev, v, i);
      AddPieces(A, a, areas);
      AbsorbNext(v, i);
    }

    /** Merges the new node `v` into its predecessor if the two fit; returns the node that holds it then. */
    method JoinPrev(prev: Ref, v: Ref, ghost i: nat) returns (w: Ref, ghost j: nat)
      requires Ok() && i < |list| && v == list[i] && prev == (if i > 0 then list[i - 1] else 0)
      modifies this`mmap, this`nodes, this`list, this`areas
      ensures Ok() && j < |list| && Here(w, j)
      ensures if i > 0 && CanMerge(old(areas[i - 1]), old(areas[i]))
              then j == i - 1 && areas ==
                     old(areas[..i - 1]) + [old(areas[i - 1]).(end := old(areas[i]).end)] + old(areas[i + 1..])
              else j == i && areas == old(areas) && list == old(list)
    {
      w, j := v, i;
      Look(i);
      if prev != 0 {
        Look(i - 1);
        if CanMerge(Data(nodes[prev]), Data(nodes[v])) {
          Write(prev, Data(nodes[prev]).(end := nodes[v].end), i - 1);
          Drop(prev, v, i);
          w, j := prev, i - 1;
          Look(j);
        }
      } else if i > 0 {
        Look(i - 1);
      }
    }

    /** The walk that finds where an area starting at `start` belongs. */
    method FindPlace(start: nat) returns (prev: Ref, cur: Ref)
      requires Ok()
      ensures var i := Before(areas, start);
              Here(cur, i) && prev == if i > 0 then list[i - 1] else 0
    {
      prev, cur := 0, mmap;
      ghost var i := 0;
      assert areas[0..] == areas;
      Look(0);
      while cur != 0 && nodes[cur].start < start
        invariant Here(cur, i) && (prev == if i > 0 then list[i - 1] else 0)
        invariant Before(areas, start) == i + Before(areas[i..], start)
        decreases |list| - i
      {
        assert areas[i..][1..] == areas[i + 1..];
        prev, cur := cur, nodes[cur].next;
        i := i + 1;
        Look(i);
      }
    }

    /** The last loop of vma_add_anon: merges the following areas into `v` while they fit. */
    method AbsorbNext(v: Ref, ghost i: nat)
      requires Ok() && i < |list| && Here(v, i)
      modifies this`mmap, this`nodes, this`list, this`areas
      ensures Ok() && areas == old(areas[..i]) + Absorb(old(areas[i]), old(areas[i + 1..]))
      ensures i + 1 == old(|areas|) || !CanMerge(old(areas[i]), old(areas[i + 1])) ==> list == old(list)
    {
      Look(i + 1);
      while nodes[v].next != 0 && CanMerge(Data(nodes[v]), Data(nodes[nodes[v].next]))
        invariant Ok() && i < |list| && Here(v, i) && Here(nodes[v].next, i + 1)
        invariant i + 1 == old(|areas|) || !CanMerge(old(areas[i]), old(areas[i + 1])) ==>
                    list == old(list) && areas == old(areas)
        invariant areas[..i] == old(areas[..i])
        invariant Absorb(areas[i], areas[i + 1..]) == Absorb(old(areas[i]), old(areas[i + 1..]))
        decreases |list|
      {
        var next := nodes[v].next;
        ghost var A := areas;
        Swallow(v, next, i);
        assert areas[i + 1..] == A[i + 2..] == A[i + 1..][1..];
      }
      assert areas == areas[..i] + ([areas[i]] + areas[i + 1..]);
    }

    /** vma_range_free */
    method IsRangeFree(start: nat, end: nat) returns (free: bool)
      requires Ok()
      ensures free <==> RangeFree(areas, start, end)
    {
      var v := mmap;
      ghost var i := 0;
      Look(0);
      while v != 0
        invariant Here(v, i) && forall j | 0 <= j < i :: end <= areas[j].start || start >= areas[j].end
        decreases |list| - i
      {
        if end <= nodes[v].start || start >= nodes[v].end {
          v := nodes[v].next;
          i := i + 1;
          Look(i);
          continue;
        }
        return false;
      }
      return true;
    }

    /** vma_find_covering: the first area that covers the range, NULL if none does */
    method FindCovering(start: nat, end: nat) returns (v: Ref, ghost k: nat)
      requires Ok()
      ensures v == 0 ==> forall j | 0 <= j < |areas| :: !(areas[j].start <= start && end <= areas[j].end)
      ensures v != 0 ==> k < |list| && Here(v, k) && areas[k].start <= start && end <= areas[k].end
    {
      v, k := mmap, 0;
      Look(0);
      while v != 0
        invariant Here(v, k) && forall j | 0 <= j < k :: !(areas[j].start <= start && end <= areas[j].end)
        decreases |list| - k
      {
        if start >= nodes[v].start && end <= nodes[v].end {
          return;
        }
        v := nodes[v].next;
        k := k + 1;
        Look(k);
      }
    }

    /** alloc_anon_vma_id */
    method AllocAnonId() returns (id: nat)
      requires nextAnon < WORD
      modifies this`nextAnon
      ensures id == FreshId(old(nextAnon)) && nextAnon == (id + 1) % WORD
    {
      if nextAnon == 0 {
        nextAnon := 1;
      }
      id := nextAnon;
      nextAnon := (nextAnon + 1) % WORD;
    }

    /** vma_add: takes the lineage id of a neighbour with the same flags, left before right, or a new one */
    method AddArea(start: nat, end: nat, flags: nat) returns (ghost anon: nat)
      requires Ok() && nextAnon < WORD
      modifies this`mmap, this`nodes, this`list, this`areas, this`nextAnon
      ensures Ok() && nextAnon < WORD
      ensures if start >= end then areas == old(areas) else areas == Add(old(areas), Area(start, end, flags, anon))
      ensures start < end ==> anon == Lineage(old(areas), start, end, flags, FreshId(old(nextAnon)))
      ensures nextAnon == if start >= end || Heir(old(areas), start, end, flags) != 0 then old(nextAnon)
                          else (anon + 1) % WORD
    {
      anon := 0;
      if start >= end {
        return;
      }
      var id := 0;
      var prev, cur := FindPlace(start);
      ghost var i := Before(areas, start);
      if i > 0 {
        Look(i - 1);
      }
      if prev != 0 && nodes[prev].end == start && nodes[prev].flags == flags {
        id := nodes[prev].anon;
      } else if cur != 0 && nodes[cur].start == end && nodes[cur].flags == flags {
        id := nodes[cur].anon;
      }
      if id == 0 {
        id := AllocAnonId();
      }
      anon := id;
      ghost var _ := AddAnon(start, end, flags, id);
    }
  }

  lemma {:induction false} DropOwned(m: Heap, head: Ref, l: seq<Ref>, A: seq<Area>, i: nat)
    requires Rep(m, head, l, A) && Owned(m, l) && i < |l|
    ensures Owned(m - {l[i]}, l[..i] + l[i + 1..])
  {
    forall x | x in l && x != l[i]
      ensures x in l[..i] + l[i + 1..]
    {
      var j :| 0 <= j < |l| && l[j] == x;
      assert (l[..i] + l[i + 1..])[if j < i then j else j - 1] == x;
    }
    forall j | 0 <= j < |l| && j != i
      ensures l[j] != l[i]
    {
      if j < i { RepDistinct(m, head, l, A, j, i); } else { RepDistinct(m, head, l, A, i, j); }
    }
  }

  /** Area `i` merged with the one after it. */
  ghost function Swallowed(A: seq<Area>, i: nat): seq<Area>
    requires i + 1 < |A|
  {
    A[..i] + [A[i].(end := A[i + 1].end)] + A[i + 2..]
  }

  lemma {:induction false} MergeAllStep(A: seq<Area>, i: nat)
    requires i + 1 < |A|
    ensures if CanMerge(A[i], A[i + 1])
            then Swallowed(A, i)[..i] == A[..i] && MergeAll(Swallowed(A, i)[i..]) == MergeAll(A[i..])
            else A[..i] + MergeAll(A[i..]) == A[..i + 1] + MergeAll(A[i + 1..])
  {
    assert A[i..][0] == A[i] && A[i..][1] == A[i + 1] && A[i..][1..] == A[i + 1..] && A[i..][2..] == A[i + 2..];
    if CanMerge(A[i], A[i + 1]) {
      assert Swallowed(A, i)[i..] == [A[i].(end := A[i + 1].end)] + A[i + 2..];
    } else {
      assert A[..i + 1] == A[..i] + [A[i]];
    }
  }

  lemma PlacedIn(A: seq<Area>, i: nat, a: Area)
    requires i <= |A|
    ensures var B := A[..i] + [a] + A[i..];
            && B[..i] == A[..i] && B[i] == a && B[i + 1..] == A[i..]
            && (i > 0 ==> B[i - 1] == A[i - 1])
    ensures i > 0 ==> (A[..i] + [a] + A[i..])[..i - 1] == A[..i - 1]
  {
  }

  /** The three parts of the list before the last merging loop of vma_add_anon. */
  lemma {:induction false} AddPieces(A: seq<Area>, v: Area, B: seq<Area>)
    requires var i := Before(A, v.start);
             B == if i > 0 && CanMerge(A[i - 1], v) then A[..i - 1] + [A[i - 1].(end := v.end)] + A[i..]
               else A[..i] + [v] + A[i..]
    ensures var i := Before(A, v.start);
            var j := if i > 0 && CanMerge(A[i - 1], v) then i - 1 else i;
            j < |B| && Add(A, v) == B[..j] + Absorb(B[j], B[j + 1..])
  {
  }

  /** The id that alloc_anon_vma_id returns: 0 is skipped when the counter has wrapped. */
  function FreshId(counter: nat): nat {
    if counter == 0 then 1 else counter
  }

  /** The id that a new area inherits: that of the left neighbour if it touches and has the same flags, else that of
      the right one, 0 if there is neither. */
  ghost function Heir(A: seq<Area>, start: nat, end: nat, flags: nat): nat {
    var i := Before(A, start);
    if i > 0 && A[i - 1].end == start && A[i - 1].flags == flags then A[i - 1].anon
    else if i < |A| && A[i].start == end && A[i].flags == flags then A[i].anon
    else 0
  }

  /** The id of a new area: the inherited one, or a fresh one. */
  ghost function Lineage(A: seq<Area>, start: nat, end: nat, flags: nat, newId: nat): nat {
    if Heir(A, start, end, flags) == 0 then newId else Heir(A, start, end, flags)
  }

  /** What is inherited, seen from the addresses on both sides. */
  lemma {:induction false} HeirIs(A: seq<Area>, start: nat, end: nat, flags: nat)
    requires Sorted(A) && start < end && RangeFree(A, start, end)
    ensures Heir(A, start, end, flags) ==
              if start > 0 && At(A, start - 1).Mapped? && At(A, start - 1).flags == flags then At(A, start - 1).anon
              else if At(A, end).Mapped? && At(A, end).flags == flags then At(A, end).anon
              else 0
  {
    var i := Before(A, start);
    BeforeIs(A, start);
    LeftOf(A, start, end, i);
    RightOfFree(A, start, end, i);
  }

  lemma {:induction false} LeftOf(A: seq<Area>, start: nat, end: nat, i: nat)
    requires Sorted(A) && start < end && RangeFree(A, start, end) && i <= |A|
    requires (forall j | 0 <= j < i :: A[j].start < start) && (i < |A| ==> A[i].start >= start)
    ensures if i > 0 && A[i - 1].end == start
            then start > 0 && At(A, start - 1) == Mapped(A[i - 1].flags, A[i - 1].anon)
            else start == 0 || At(A, start - 1) == Hole
  {
    if i > 0 && A[i - 1].end == start {
      SortedAt(A, i - 1, i - 1);
      AtIndex(A, i - 1, start - 1);
    } else if start > 0 && At(A, start - 1) != Hole {
      var j := AtSome(A, start - 1);
      if i <= j {
        if i < j { SortedAt(A, i, j); SortedAt(A, i, i); }
      } else if j < i - 1 {
        SortedAt(A, j, i - 1);
      }
      assert false;
    }
  }

  lemma {:induction false} RightOfFree(A: seq<Area>, start: nat, end: nat, i: nat)
    requires Sorted(A) && start < end && RangeFree(A, start, end) && i <= |A|
    requires (forall j | 0 <= j < i :: A[j].start < start) && (i < |A| ==> A[i].start >= start)
    ensures At(A, end) == if i < |A| && A[i].start == end then Mapped(A[i].flags, A[i].anon) else Hole
  {
    if i < |A| {
      SortedAt(A, i, i);
    }
    if i < |A| && A[i].start == end {
      AtIndex(A, i, end);
    } else if At(A, end) != Hole {
      var j := AtSome(A, end);
      if i < j {
        SortedAt(A, i, j);
      }
      assert false;
    }
  }

  /** A new area that merges with neither neighbour. */
  predicate Alone(A: seq<Area>, v: Area) {
    var i := Before(A, v.start);
    (i > 0 ==> !CanMerge(A[i - 1], v)) && (i < |A| ==> !CanMerge(v, A[i]))
  }
}
