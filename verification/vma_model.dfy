/** The address space of a process as a list of areas, and as a function from addresses.

    An area is `struct vm_area_struct` without its link. `At` is the meaning of a list of areas: the
    flags and anonymous-lineage id that cover an address, if any.
 */
module VmaModel {
  import opened Machine

  datatype Area = Area(start: nat, end: nat, flags: nat, anon: nat)
  datatype Cover = Hole | Mapped(flags: nat, anon: nat)

  function At(A: seq<Area>, x: nat): Cover {
    if A == [] then Hole
    else if A[0].start <= x < A[0].end then Mapped(A[0].flags, A[0].anon)
    else At(A[1..], x)
  }

  /** Non-empty areas in ascending order, without overlap. */
  predicate Sorted(A: seq<Area>) {
    A != [] ==> A[0].start < A[0].end && (|A| > 1 ==> A[0].end <= A[1].start) && Sorted(A[1..])
  }

  predicate OnPages(A: seq<Area>) {
    forall i | 0 <= i < |A| :: A[i].start % PAGE == 0 && A[i].end % PAGE == 0
  }

  /** vma_can_merge */
  predicate CanMerge(a: Area, b: Area) {
    a.flags == b.flags && a.anon == b.anon && a.end == b.start
  }

  predicate NoMergeable(A: seq<Area>) {
    forall i | 0 <= i < |A| - 1 :: !CanMerge(A[i], A[i + 1])
  }

  /** The shape that every operation keeps. */
  predicate Tidy(A: seq<Area>) {
    Sorted(A) && OnPages(A) && NoMergeable(A)
  }

  // ------------------------------------------------------------------ sorted lists and their meaning

  lemma {:induction false} SortedAt(A: seq<Area>, i: nat, j: nat)
    requires Sorted(A) && i <= j < |A|
    ensures A[i].start < A[i].end && (i < j ==> A[i].end <= A[j].start)
    decreases |A|
  {
    if i > 0 {
      SortedAt(A[1..], i - 1, j - 1);
    } else if j > 0 {
      SortedAt(A[1..], 0, j - 1);
    }
  }

  lemma {:induction false} AtConcat(A: seq<Area>, B: seq<Area>, x: nat)
    ensures At(A + B, x) == if At(A, x) != Hole then At(A, x) else At(B, x)
    decreases |A|
  {
    if A == [] {
      assert A + B == B;
    } else {
      assert (A + B)[1..] == A[1..] + B;
      AtConcat(A[1..], B, x);
    }
  }

  /** Outside the reach of a sorted list there is nothing. */
  lemma {:induction false} AtBelow(A: seq<Area>, x: nat)
    requires Sorted(A) && (A == [] || x < A[0].start || A[|A| - 1].end <= x)
    ensures At(A, x) == Hole
    decreases |A|
  {
    if A != [] {
      SortedAt(A, 0, |A| - 1);
      SortedAt(A, |A| - 1, |A| - 1);
      if |A| > 1 {
        assert A[1..][0] == A[1];
        AtBelow(A[1..], x);
      }
    }
  }

  lemma {:induction false} SortedConcat(A: seq<Area>, B: seq<Area>)
    ensures Sorted(A + B) <==> Sorted(A) && Sorted(B) && (A != [] && B != [] ==> A[|A| - 1].end <= B[0].start)
    decreases |A|
  {
    if A == [] {
      assert A + B == B;
    } else {
      assert (A + B)[1..] == A[1..] + B;
      SortedConcat(A[1..], B);
    }
  }

  /** In a sorted list the area at index `i` decides its addresses. */
  lemma {:induction false} AtIndex(A: seq<Area>, i: nat, x: nat)
    requires Sorted(A) && i < |A| && A[i].start <= x < A[i].end
    ensures At(A, x) == Mapped(A[i].flags, A[i].anon)
    decreases |A|
  {
    if i > 0 {
      SortedAt(A, 0, i);
      AtIndex(A[1..], i - 1, x);
    }
  }

  lemma {:induction false} AtSome(A: seq<Area>, x: nat) returns (i: nat)
    requires At(A, x) != Hole
    ensures i < |A| && A[i].start <= x < A[i].end && At(A, x) == Mapped(A[i].flags, A[i].anon)
    decreases |A|
  {
    if A[0].start <= x < A[0].end {
      i := 0;
    } else {
      i := AtSome(A[1..], x);
      i := i + 1;
    }
  }

  /** Between two neighbouring areas there is nothing. */
  lemma {:induction false} Between(A: seq<Area>, i: nat, x: nat)
    requires Sorted(A) && i < |A| && x < A[i].start && (i > 0 ==> A[i - 1].end <= x)
    ensures At(A, x) == Hole
  {
    if At(A, x) != Hole {
      var k := AtSome(A, x);
      if k < i {
        SortedAt(A, k, i - 1);
        SortedAt(A, i - 1, i - 1);
      } else {
        SortedAt(A, i, k);
        SortedAt(A, i, i);
      }
    }
  }

  /** What comes right after an area. */
  lemma {:induction false} AfterArea(A: seq<Area>, k: nat)
    requires Sorted(A) && k < |A|
    ensures At(A, A[k].end) == if k + 1 < |A| && A[k + 1].start == A[k].end then Mapped(A[k + 1].flags, A[k + 1].anon)
              else Hole
  {
    if k + 1 == |A| {
      AtBelow(A, A[k].end);
    } else {
      SortedAt(A, k, k + 1);
      SortedAt(A, k + 1, k + 1);
      if A[k + 1].start == A[k].end {
        AtIndex(A, k + 1, A[k].end);
      } else {
        Between(A, k + 1, A[k].end);
      }
    }
  }

  // ------------------------------------------------------------------ vma_merge_adjacent

  function MergeAll(A: seq<Area>): seq<Area>
    decreases |A|
  {
    if |A| < 2 then A
    else if CanMerge(A[0], A[1]) then MergeAll([A[0].(end := A[1].end)] + A[2..])
    else [A[0]] + MergeAll(A[1..])
  }

  lemma {:induction false} MergeAllAt(A: seq<Area>, x: nat)
    requires Sorted(A)
    ensures At(MergeAll(A), x) == At(A, x)
    ensures Sorted(MergeAll(A)) && (A != [] ==> MergeAll(A) != [] && MergeAll(A)[0].start == A[0].start)
    ensures MergeAll(A) != [] ==> MergeAll(A)[0].flags == A[0].flags && MergeAll(A)[0].anon == A[0].anon
    ensures OnPages(A) ==> OnPages(MergeAll(A))
    decreases |A|
  {
    if |A| >= 2 {
      if CanMerge(A[0], A[1]) {
        var B := [A[0].(end := A[1].end)] + A[2..];
        MergedPair(A, x);
        MergeAllAt(B, x);
      } else {
        MergeAllAt(A[1..], x);
        assert ([A[0]] + MergeAll(A[1..]))[1..] == MergeAll(A[1..]);
      }
    }
  }

  lemma {:induction false} MergedPair(A: seq<Area>, x: nat)
    requires Sorted(A) && |A| >= 2 && CanMerge(A[0], A[1])
    ensures var B := [A[0].(end := A[1].end)] + A[2..];
            Sorted(B) && At(B, x) == At(A, x) && (OnPages(A) ==> OnPages(B))
  {
  }

  lemma {:induction false} MergeAllNoMergeable(A: seq<Area>)
    requires Sorted(A)
    ensures NoMergeable(MergeAll(A))
    decreases |A|
  {
    if |A| >= 2 {
      if CanMerge(A[0], A[1]) {
        MergedPair(A, 0);
        MergeAllNoMergeable([A[0].(end := A[1].end)] + A[2..]);
      } else {
        var B := MergeAll(A[1..]);
        MergeAllNoMergeable(A[1..]);
        MergeAllAt(A[1..], 0);
        forall i | 0 <= i < |[A[0]] + B| - 1
          ensures !CanMerge(([A[0]] + B)[i], ([A[0]] + B)[i + 1])
        {
          if i > 0 {
            assert !CanMerge(B[i - 1], B[i]);
          }
        }
      }
    }
  }

  // ------------------------------------------------------------------ do_munmap

  /** What is left of one area when the addresses from `lo` to `hi` go. */
  function CutOne(a: Area, lo: nat, hi: nat): seq<Area> {
    if hi <= a.start || lo >= a.end then [a]
    else if lo <= a.start && hi >= a.end then []
    else if lo <= a.start then [a.(start := hi)]
    else if hi >= a.end then [a.(end := lo)]
    else [a.(end := lo), a.(start := hi)]
  }

  function Cut(A: seq<Area>, lo: nat, hi: nat): seq<Area> {
    if A == [] then [] else CutOne(A[0], lo, hi) + Cut(A[1..], lo, hi)
  }

  lemma {:induction false} CutShape(A: seq<Area>, lo: nat, hi: nat)
    requires Sorted(A) && lo < hi
    ensures Sorted(Cut(A, lo, hi))
    ensures Cut(A, lo, hi) != [] ==> A != [] && A[0].start <= Cut(A, lo, hi)[0].start
    ensures OnPages(A) && lo % PAGE == 0 && hi % PAGE == 0 ==> OnPages(Cut(A, lo, hi))
    decreases |A|
  {
    if A != [] {
      CutShape(A[1..], lo, hi);
      SortedConcat(CutOne(A[0], lo, hi), Cut(A[1..], lo, hi));
    }
  }

  lemma {:induction false} CutAt(A: seq<Area>, lo: nat, hi: nat, x: nat)
    requires Sorted(A) && lo < hi
    ensures At(Cut(A, lo, hi), x) == if lo <= x < hi then Hole else At(A, x)
    decreases |A|
  {
    if A != [] {
      CutAt(A[1..], lo, hi, x);
      AtConcat(CutOne(A[0], lo, hi), Cut(A[1..], lo, hi), x);
      if A[0].start <= x < A[0].end {
        SortedAt(A, 0, 0);
        AtBelow(A[1..], x);
      }
    }
  }

  // ------------------------------------------------------------------ vma_add_anon

  /** How many areas start before `s`; the walk of vma_add_anon and vma_add. */
  function Before(A: seq<Area>, s: nat): (n: nat)
    ensures n <= |A|
  {
    if A == [] || A[0].start >= s then 0 else 1 + Before(A[1..], s)
  }

  /** `v` with every following area that can be merged into it. */
  function Absorb(v: Area, B: seq<Area>): seq<Area>
    decreases |B|
  {
    if B != [] && CanMerge(v, B[0]) then Absorb(v.(end := B[0].end), B[1..]) else [v] + B
  }

  function Add(A: seq<Area>, v: Area): seq<Area> {
    var i := Before(A, v.start);
    if i > 0 && CanMerge(A[i - 1], v) then A[..i - 1] + Absorb(A[i - 1].(end := v.end), A[i..])
    else A[..i] + Absorb(v, A[i..])
  }

  /** vma_range_free */
  predicate RangeFree(A: seq<Area>, s: nat, e: nat) {
    forall i | 0 <= i < |A| :: e <= A[i].start || s >= A[i].end
  }

  lemma {:induction false} BeforeIs(A: seq<Area>, s: nat)
    ensures forall j | 0 <= j < Before(A, s) :: A[j].start < s
    ensures Before(A, s) < |A| ==> A[Before(A, s)].start >= s
    decreases |A|
  {
    if A != [] && A[0].start < s {
      BeforeIs(A[1..], s);
      forall j | 0 <= j < Before(A, s)
        ensures A[j].start < s
      {
        if j > 0 {
          assert A[1..][j - 1].start < s;
        }
      }
    }
  }

  lemma {:induction false} AbsorbAt(v: Area, B: seq<Area>, x: nat)
    requires Sorted([v] + B)
    ensures Sorted(Absorb(v, B)) && At(Absorb(v, B), x) == At([v] + B, x)
    ensures Absorb(v, B) != [] && Absorb(v, B)[0].start == v.start && Absorb(v, B)[0].flags == v.flags
    ensures Absorb(v, B)[0].anon == v.anon
    ensures OnPages([v] + B) ==> OnPages(Absorb(v, B))
    decreases |B|
  {
    if B != [] && CanMerge(v, B[0]) {
      var A, w := [v] + B, v.(end := B[0].end);
      MergedPair(A, x);
      assert A[2..] == B[1..];
      AbsorbAt(w, B[1..], x);
    }
  }

  lemma {:induction false} AbsorbNoMergeable(v: Area, B: seq<Area>)
    requires NoMergeable(B)
    ensures NoMergeable(Absorb(v, B))
    decreases |B|
  {
  }

  lemma {:induction false} NoMergeableConcat(A: seq<Area>, B: seq<Area>)
    requires NoMergeable(A) && NoMergeable(B) && (A != [] && B != [] ==> !CanMerge(A[|A| - 1], B[0]))
    ensures NoMergeable(A + B)
  {
  }

  /** A new area in a free range lies between the areas before and after it. */
  lemma {:induction false} AddGap(A: seq<Area>, v: Area)
    requires Sorted(A) && v.start < v.end && RangeFree(A, v.start, v.end)
    ensures var i := Before(A, v.start);
            && (i > 0 ==> A[i - 1].end <= v.start) && (i < |A| ==> v.end <= A[i].start)
            && Sorted(A[..i]) && Sorted(A[i..]) && Sorted([v] + A[i..]) && Sorted(A[..i] + ([v] + A[i..]))
  {
    var i := Before(A, v.start);
    BeforeIs(A, v.start);
    assert A == A[..i] + A[i..];
    SortedConcat(A[..i], A[i..]);
    if i > 0 {
      SortedAt(A, i - 1, i - 1);
    }
    if i < |A| {
      SortedAt(A, i, i);
    }
    SortedConcat([v], A[i..]);
    SortedConcat(A[..i], [v] + A[i..]);
  }

  lemma {:induction false} AddAt(A: seq<Area>, v: Area, x: nat)
    requires Sorted(A) && v.start < v.end && RangeFree(A, v.start, v.end)
    ensures Sorted(Add(A, v)) && At(Add(A, v), x) == if v.start <= x < v.end then Mapped(v.flags, v.anon) else At(A, x)
  {
    var i := Before(A, v.start);
    AddGap(A, v);
    var B := A[..i] + ([v] + A[i..]);
    InsertedAt(A, v, i, x);
    if i > 0 && CanMerge(A[i - 1], v) {
      AddJoined(A, v, i, x);
    } else {
      AbsorbAt(v, A[i..], x);
      AtConcat(A[..i], [v] + A[i..], x);
      AtConcat(A[..i], Absorb(v, A[i..]), x);
      SortedConcat(A[..i], [v] + A[i..]);
      SortedConcat(A[..i], Absorb(v, A[i..]));
    }
  }

  lemma {:induction false} InsertedAt(A: seq<Area>, v: Area, i: nat, x: nat)
    requires Sorted(A) && i <= |A| && v.start < v.end && Sorted(A[..i] + ([v] + A[i..]))
    ensures At(A[..i] + ([v] + A[i..]), x) == if v.start <= x < v.end then Mapped(v.flags, v.anon) else At(A, x)
  {
    var B := A[..i] + ([v] + A[i..]);
    AtConcat(A[..i], [v] + A[i..], x);
    AtConcat(A[..i], A[i..], x);
    assert A == A[..i] + A[i..];
    assert ([v] + A[i..])[1..] == A[i..];
    if v.start <= x < v.end {
      assert B[i] == v;
      AtIndex(B, i, x);
    }
  }

  lemma {:induction false} AddJoined(A: seq<Area>, v: Area, i: nat, x: nat)
    requires Sorted(A) && 0 < i <= |A| && CanMerge(A[i - 1], v) && v.start < v.end && Sorted(A[..i] + ([v] + A[i..]))
    ensures var C := A[..i - 1] + Absorb(A[i - 1].(end := v.end), A[i..]);
            Sorted(C) && At(C, x) == At(A[..i] + ([v] + A[i..]), x)
  {
    var a, B := A[i - 1], [A[i - 1]] + ([v] + A[i..]);
    var w := a.(end := v.end);
    assert A[..i] + ([v] + A[i..]) == A[..i - 1] + B;
    SortedConcat(A[..i - 1], B);
    MergedPair(B, x);
    assert B[2..] == A[i..];
    AbsorbAt(w, A[i..], x);
    AtConcat(A[..i - 1], B, x);
    AtConcat(A[..i - 1], Absorb(w, A[i..]), x);
    SortedConcat(A[..i - 1], Absorb(w, A[i..]));
  }

  lemma {:induction false} NoMergeableSlice(A: seq<Area>, i: nat, j: nat)
    requires NoMergeable(A) && i <= j <= |A|
    ensures NoMergeable(A[i..j])
  {
  }

  lemma {:induction false} AddPlainTidy(A: seq<Area>, v: Area, i: nat)
    requires Tidy(A) && i <= |A| && (i > 0 ==> !CanMerge(A[i - 1], v)) && Sorted([v] + A[i..]) && v.start % PAGE == 0
    requires v.end % PAGE == 0
    ensures NoMergeable(A[..i] + Absorb(v, A[i..])) && OnPages(A[..i] + Absorb(v, A[i..]))
  {
    NoMergeableSlice(A, i, |A|);
    NoMergeableSlice(A, 0, i);
    assert A[i..|A|] == A[i..] && A[0..i] == A[..i];
    AbsorbNoMergeable(v, A[i..]);
    AbsorbAt(v, A[i..], 0);
    NoMergeableConcat(A[..i], Absorb(v, A[i..]));
  }

  lemma {:induction false} AddTidy(A: seq<Area>, v: Area)
    requires Tidy(A) && v.start < v.end && RangeFree(A, v.start, v.end) && v.start % PAGE == 0 && v.end % PAGE == 0
    ensures Tidy(Add(A, v))
  {
    var i := Before(A, v.start);
    AddAt(A, v, 0);
    AddGap(A, v);
    if i > 0 && CanMerge(A[i - 1], v) {
      AddJoinedTidy(A, v, i);
    } else {
      AddPlainTidy(A, v, i);
    }
  }

  lemma {:induction false} AddJoinedTidy(A: seq<Area>, v: Area, i: nat)
    requires Tidy(A) && 0 < i <= |A| && v.start < v.end && Sorted([v] + A[i..]) && A[i - 1].end <= v.start
    requires v.end % PAGE == 0
    ensures var w := A[i - 1].(end := v.end);
            NoMergeable(A[..i - 1] + Absorb(w, A[i..])) && OnPages(A[..i - 1] + Absorb(w, A[i..]))
  {
    var w := A[i - 1].(end := v.end);
    SortedAt(A, i - 1, i - 1);
    assert ([v] + A[i..])[1..] == A[i..] && ([w] + A[i..])[1..] == A[i..];
    SortedConcat([v], A[i..]);
    SortedConcat([w], A[i..]);
    NoMergeableSlice(A, i, |A|);
    NoMergeableSlice(A, 0, i - 1);
    assert A[i..|A|] == A[i..] && A[0..i - 1] == A[..i - 1];
    AbsorbNoMergeable(w, A[i..]);
    AbsorbAt(w, A[i..], 0);
    if i > 1 {
      assert !CanMerge(A[i - 2], A[i - 1]);
    }
    NoMergeableConcat(A[..i - 1], Absorb(w, A[i..]));
  }

  // ------------------------------------------------------------------ one area replaced by pieces

  /** Pieces that take the place of the area at index `k` and stay clear of the next one. */
  predicate Fits(A: seq<Area>, k: nat, P: seq<Area>) {
    && k < |A| && Sorted(A) && Sorted(P)
    && (P != [] ==> A[k].start <= P[0].start && (k + 1 < |A| ==> P[|P| - 1].end <= A[k + 1].start))
  }

  lemma {:induction false} SwapSorted(A: seq<Area>, k: nat, P: seq<Area>)
    requires Fits(A, k, P)
    ensures Sorted(A[..k] + (P + A[k + 1..])) && Sorted(A[..k]) && Sorted(A[k + 1..])
    ensures forall x: nat | A[k].start <= x < A[k].end :: At(A[..k], x) == Hole && At(A[k + 1..], x) == Hole
    ensures forall x: nat | At(P, x) != Hole :: At(A[..k], x) == Hole && At(A[k + 1..], x) == Hole
  {
    assert A == A[..k] + ([A[k]] + A[k + 1..]);
    SortedConcat(A[..k], [A[k]] + A[k + 1..]);
    SortedConcat([A[k]], A[k + 1..]);
    SortedConcat(P, A[k + 1..]);
    SortedConcat(A[..k], P + A[k + 1..]);
    SortedAt(A, k, k);
    forall x: nat | A[k].start <= x < A[k].end || At(P, x) != Hole
      ensures At(A[..k], x) == Hole && At(A[k + 1..], x) == Hole
    {
      if At(P, x) != Hole {
        var i := AtSome(P, x);
        SortedAt(P, 0, i);
        SortedAt(P, i, |P| - 1);
        SortedAt(P, |P| - 1, |P| - 1);
      }
      AtBelow(A[..k], x);
      AtBelow(A[k + 1..], x);
    }
  }

  lemma {:induction false} SwapAt(A: seq<Area>, k: nat, P: seq<Area>, x: nat)
    requires Fits(A, k, P)
    ensures At(A[..k] + (P + A[k + 1..]), x) ==
            if At(P, x) != Hole then At(P, x) else if A[k].start <= x < A[k].end then Hole else At(A, x)
  {
    SwapSorted(A, k, P);
    assert A == A[..k] + ([A[k]] + A[k + 1..]);
    AtConcat(A[..k], P + A[k + 1..], x);
    AtConcat(P, A[k + 1..], x);
    AtConcat(A[..k], [A[k]] + A[k + 1..], x);
    AtConcat([A[k]], A[k + 1..], x);
  }

  /** The pieces of an area when the addresses from `lo` to `hi` get new flags. */
  function Pieces(a: Area, lo: nat, hi: nat, flags: nat): seq<Area> {
    (if lo > a.start then [a.(end := lo)] else [])
    + [Area(lo, hi, flags, a.anon)]
    + (if hi < a.end then [a.(start := hi)] else [])
  }

  lemma {:induction false} PiecesAt(A: seq<Area>, k: nat, lo: nat, hi: nat, flags: nat, x: nat)
    requires k < |A| && Sorted(A) && A[k].start <= lo < hi <= A[k].end
    ensures Fits(A, k, Pieces(A[k], lo, hi, flags))
    ensures At(A[..k] + (Pieces(A[k], lo, hi, flags) + A[k + 1..]), x) ==
            if lo <= x < hi then Mapped(flags, A[k].anon) else At(A, x)
  {
    var a, P := A[k], Pieces(A[k], lo, hi, flags);
    PiecesSorted(a, lo, hi, flags, x);
    if k + 1 < |A| {
      SortedAt(A, k, k + 1);
    }
    SwapAt(A, k, P, x);
    if a.start <= x < a.end {
      AtIndex(A, k, x);
    }
  }

  lemma {:induction false} PiecesSorted(a: Area, lo: nat, hi: nat, flags: nat, x: nat)
    requires a.start <= lo < hi <= a.end
    ensures var P := Pieces(a, lo, hi, flags);
            && Sorted(P) && P[0].start == a.start && P[|P| - 1].end == a.end
            && At(P, x) == if lo <= x < hi then Mapped(flags, a.anon)
                 else if a.start <= x < a.end then Mapped(a.flags, a.anon) else Hole
  {
    var L := if lo > a.start then [a.(end := lo)] else [];
    var M := [Area(lo, hi, flags, a.anon)];
    var R := if hi < a.end then [a.(start := hi)] else [];
    SortedConcat(L, M);
    SortedConcat(L + M, R);
    AtConcat(L, M, x);
    AtConcat(L + M, R, x);
  }

  // ------------------------------------------------------------------ do_munmap, one step

  lemma {:induction false} CutStep(A: seq<Area>, i: nat, lo: nat, hi: nat)
    requires i < |A|
    ensures Cut(A[i..], lo, hi) == CutOne(A[i], lo, hi) + Cut(A[i + 1..], lo, hi)
  {
  }

  // ------------------------------------------------------------------ one list for each address space

  /** Addresses in a row with the mapping of an area belong to it: the list is as coarse as can be. */
  lemma {:induction false} Maximal(A: seq<Area>, k: nat, hi: nat)
    requires Tidy(A) && k < |A|
    requires forall x: nat | A[k].start <= x < hi :: At(A, x) == Mapped(A[k].flags, A[k].anon)
    ensures hi <= A[k].end
  {
    SortedAt(A, k, k);
    AfterArea(A, k);
    if k + 1 < |A| {
      assert !CanMerge(A[k], A[k + 1]);
    }
  }

  /** A tidy list is determined by what it means: two that map every address alike are the same. */
  lemma {:induction false} TidyUnique(A: seq<Area>, B: seq<Area>)
    requires Tidy(A) && Tidy(B) && forall x: nat :: At(A, x) == At(B, x)
    ensures A == B
    decreases |A|
  {
    if A == [] || B == [] {
      FirstMapped(A);
      FirstMapped(B);
    } else {
      FirstAlike(A, B);
      FirstAlike(B, A);
      forall x: nat
        ensures At(A[1..], x) == At(B[1..], x)
      {
        RestAt(A, x);
        RestAt(B, x);
      }
      TidyRest(A);
      TidyRest(B);
      TidyUnique(A[1..], B[1..]);
      assert A == [A[0]] + A[1..] && B == [B[0]] + B[1..];
    }
  }

  lemma {:induction false} FirstMapped(A: seq<Area>)
    requires Sorted(A)
    ensures A != [] ==> At(A, A[0].start).Mapped? && forall x: nat | x < A[0].start :: At(A, x) == Hole
  {
    forall x: nat | A != [] && x < A[0].start
      ensures At(A, x) == Hole
    {
      AtBelow(A, x);
    }
  }

  lemma {:induction false} FirstAlike(A: seq<Area>, B: seq<Area>)
    requires Tidy(A) && Tidy(B) && A != [] && B != [] && forall x: nat :: At(A, x) == At(B, x)
    ensures A[0].start == B[0].start && A[0].flags == B[0].flags && A[0].anon == B[0].anon && B[0].end <= A[0].end
  {
    FirstMapped(A);
    FirstMapped(B);
    forall x: nat | B[0].start <= x < B[0].end
      ensures At(B, x) == Mapped(B[0].flags, B[0].anon)
    {
      AtIndex(B, 0, x);
    }
    Maximal(A, 0, B[0].end);
  }

  lemma {:induction false} RestAt(A: seq<Area>, x: nat)
    requires Sorted(A) && A != []
    ensures At(A[1..], x) == if A[0].start <= x < A[0].end then Hole else At(A, x)
  {
    if A[0].start <= x < A[0].end {
      AtBelow(A[1..], x);
    }
  }

  lemma {:induction false} TidyRest(A: seq<Area>)
    requires Tidy(A) && A != []
    ensures Tidy(A[1..])
  {
    NoMergeableSlice(A, 1, |A|);
    assert A[1..|A|] == A[1..];
  }
}
