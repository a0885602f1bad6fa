/** mm/mmap.c: the calls mmap, munmap, mprotect and mremap, as functions from addresses to mappings. */
module MmapCalls {
  import opened Machine
  import opened VmaModel
  import opened VmaList
  import opened Mmap

  /** uint32_t */
  type U32 = x: int | 0 <= x < WORD

  function Add32(a: U32, b: U32): U32 {
    (a + b) % WORD
  }

  /** The address range of a call wraps past the end of the address space. */
  predicate Wraps(addr: U32, len: U32) {
    addr + len >= WORD
  }

  // VMA_READ, VMA_WRITE and VMA_EXEC
  predicate HasRead(flags: nat) { flags % 2 == 1 }
  predicate HasWrite(flags: nat) { flags / 2 % 2 == 1 }
  predicate HasExec(flags: nat) { flags / 4 % 2 == 1 }

  /** The area flags for a requested protection. */
  function FlagsOf(prot: nat): nat {
    (if HasRead(prot) then 1 else 0) + (if HasWrite(prot) then 2 else 0) + (if HasExec(prot) then 4 else 0)
  }

  /** The flags are the three low bits of what is asked for. */
  lemma {:induction false} FlagBits(prot: nat)
    ensures FlagsOf(prot) == prot % 8
  {
    LowBits(prot / 8, prot % 8);
  }

  lemma {:induction false} LowBits(q: nat, r: nat)
    requires r < 8
    ensures (8 * q + r) % 2 == r % 2 && (8 * q + r) / 2 % 2 == r / 2 % 2 && (8 * q + r) / 4 % 2 == r / 4 % 2
  {
    assert (8 * q + r) / 2 == 4 * q + r / 2;
    assert (8 * q + r) / 4 == 2 * q + r / 4;
  }

  function LimitOf(mm: MmStruct): nat
    reads mm
  {
    if mm.startStack != 0 then mm.startStack else TASK_SIZE
  }

  /** The address where vma_find_gap starts to look. */
  function GapStart(mm: MmStruct): (r: U32)
    requires mm.brk < TASK_SIZE && mm.endCode < TASK_SIZE
    reads mm
    ensures r % PAGE == 0 && 0x1000 <= r <= TASK_SIZE
  {
    var s := if mm.brk != 0 then AlignUp(mm.brk) else 0x40_0000;
    var t := if mm.startCode != 0 && mm.endCode != 0 && s < mm.endCode then AlignUp(mm.endCode) else s;
    if t < 0x1000 then 0x1000 else t
  }

  /** The list after a call is tidy and means what the list before the last merge meant. */
  lemma {:induction false} Settled(B: seq<Area>)
    requires Sorted(B) && OnPages(B)
    ensures Tidy(MergeAll(B)) && forall x: nat :: At(MergeAll(B), x) == At(B, x)
  {
    MergeAllNoMergeable(B);
    forall x: nat
      ensures At(MergeAll(B), x) == At(B, x) && Sorted(MergeAll(B)) && OnPages(MergeAll(B))
    {
      MergeAllAt(B, x);
    }
    MergeAllAt(B, 0);
  }

  // ------------------------------------------------------------------ do_mmap

  /** A place for `size` bytes, from the gap search's starting point on, in whole pages. */
  ghost predicate Place(mm: MmStruct, size: nat, limit: nat, s: nat)
    requires mm.brk < TASK_SIZE && mm.endCode < TASK_SIZE
    reads mm
  {
    s >= GapStart(mm) && s % PAGE == 0 && s + size <= limit && RangeFree(mm.areas, s, s + size)
  }

  /** `r` is the lowest place, or 0 if there is none. */
  ghost predicate Lowest(mm: MmStruct, size: nat, limit: nat, r: nat)
    requires mm.brk < TASK_SIZE && mm.endCode < TASK_SIZE
    reads mm
  {
    if r == 0 then forall s: nat :: !Place(mm, size, limit, s)
    else Place(mm, size, limit, r) && forall s: nat | s < r :: !Place(mm, size, limit, s)
  }

  /** vma_find_gap: the lowest place, provided the first candidate range does not wrap. */
  method FindGap(mm: MmStruct, size: U32, limit: nat) returns (r: U32)
    requires mm.Valid() && size > 0 && size % PAGE == 0 && limit <= TASK_SIZE
    ensures r != 0 ==>
              r >= GapStart(mm) && r % PAGE == 0 && Add32(r, size) <= limit && RangeFree(mm.areas, r, Add32(r, size))
    ensures Wraps(GapStart(mm), size) ==> forall s: nat :: !Place(mm, size, limit, s)
    ensures Lowest(mm, size, limit, r) <==> !Wraps(GapStart(mm), size) || r == 0
  {
    var start := FirstTry(mm);
    if limit <= start {
      return 0;
    }
    while Add32(start, size) <= limit
      invariant GapStart(mm) <= start <= TASK_SIZE + PAGE && start % PAGE == 0
      invariant !Wraps(GapStart(mm), size) ==>
                  !Wraps(start, size) && forall s: nat | s < start :: !Place(mm, size, limit, s)
      decreases TASK_SIZE + PAGE - start
    {
      var free := mm.IsRangeFree(start, Add32(start, size));
      if free {
        return start;
      }
      BelowTop(mm.areas, start, Add32(start, size));
      start := start + 0x1000;
    }
    return 0;
  }

  method FirstTry(mm: MmStruct) returns (start: U32)
    requires mm.brk < TASK_SIZE && mm.endCode < TASK_SIZE
    ensures start == GapStart(mm)
  {
    start := if mm.brk != 0 then AlignUp(mm.brk) else 0x40_0000;
    if mm.startCode != 0 && mm.endCode != 0 {
      var min := mm.endCode;
      if start < min {
        start := AlignUp(min);
      }
    }
    if start < 0x1000 {
      start := 0x1000;
    }
  }

  /** A range that is not free begins in the user's part of the address space. */
  lemma {:induction false} BelowTop(A: seq<Area>, s: nat, e: nat)
    requires Sorted(A) && UserOnly(A) && !RangeFree(A, s, e)
    ensures s < TASK_SIZE
  {
    var i :| 0 <= i < |A| && !(e <= A[i].start || s >= A[i].end);
    SortedAt(A, i, i);
    AtIndex(A, i, A[i].end - 1);
  }

  /** The arguments that do_mmap accepts at a given address. */
  ghost predicate FixedOk(mm: MmStruct, addr: U32, len: U32)
    reads mm
  {
    && addr >= 0x1000 && addr % PAGE == 0 && Add32(addr, len) <= LimitOf(mm)
    && RangeFree(mm.areas, addr, Add32(addr, len))
  }

  /** The address that do_mmap settles on: the given one if it is acceptable, the lowest place if none is given. */
  ghost predicate Chosen(mm: MmStruct, addr: U32, len: U32, r: nat)
    requires mm.brk < TASK_SIZE && mm.endCode < TASK_SIZE
    reads mm
  {
    if addr != 0 then r == if FixedOk(mm, addr, len) then addr else 0
    else if Wraps(GapStart(mm), len) then r == 0 || r + len >= WORD
    else Lowest(mm, len, LimitOf(mm), r) && r + len < WORD
  }

  /** do_mmap. When the range does not wrap, the call maps it, all of it and nothing else. When it wraps, a
      call that passes the checks reports success and maps nothing. */
  method DoMmap(mm: MmStruct, addr: U32, length: U32, prot: nat) returns (r: U32, ghost anon: nat)
    requires mm.Valid()
    modifies mm`mmap, mm`nodes, mm`list, mm`areas, mm`nextAnon
    ensures mm.Valid()
    ensures var len := AlignUp(length);
      && (r == 0 || Wraps(r, len) ==> mm.areas == old(mm.areas))
      && (r != 0 && !Wraps(r, len) ==> Maps(old(mm.areas), mm.areas, r, r + len, prot % 8, anon))
      && (r != 0 && !Wraps(r, len) ==>
           anon == Lineage(old(mm.areas), r, r + len, prot % 8, FreshId(old(mm.nextAnon))))
      && (mm.nextAnon == if r == 0 || Wraps(r, len) || Heir(old(mm.areas), r, r + len, prot % 8) != 0
                         then old(mm.nextAnon) else (anon + 1) % WORD)
      && (if length == 0 || len == 0 || LimitOf(mm) <= 0x1000 then r == 0 else old(Chosen(mm, addr, len, r)))
  {
    r, anon := 0, 0;
    if length == 0 {
      return;
    }
    var len := AlignUp(length);
    if len == 0 {
      return;
    }
    var limit := if mm.startStack != 0 then mm.startStack else TASK_SIZE;
    if limit <= 0x1000 {
      return;
    }
    r := Choose(mm, addr, len, limit);
    if r == 0 {
      return;
    }
    FlagBits(prot);
    anon := MapNew(mm, r, len, FlagsOf(prot));
  }

  /** The checks and the search of do_mmap. */
  method Choose(mm: MmStruct, addr: U32, len: U32, limit: nat) returns (r: U32)
    requires mm.Valid() && len > 0 && len % PAGE == 0 && limit == LimitOf(mm)
    ensures r != 0 ==> r % PAGE == 0 && Add32(r, len) <= limit && RangeFree(mm.areas, r, Add32(r, len))
    ensures Chosen(mm, addr, len, r)
  {
    if addr != 0 {
      if addr < 0x1000 || addr % PAGE != 0 || Add32(addr, len) > limit {
        return 0;
      }
      var free := mm.IsRangeFree(addr, Add32(addr, len));
      return if free then addr else 0;
    }
    r := FindGap(mm, len, limit);
  }

  /** The addresses from `lo` to `hi` were free and are mapped now; nothing else changed. */
  ghost predicate Maps(A: seq<Area>, B: seq<Area>, lo: nat, hi: nat, flags: nat, anon: nat) {
    && (forall x: nat :: At(B, x) == if lo <= x < hi then Mapped(flags, anon) else At(A, x))
    && (forall x: nat | lo <= x < hi :: At(A, x) == Hole)
  }

  /** vma_add on a checked range. */
  method MapNew(mm: MmStruct, r: U32, len: U32, flags: nat) returns (ghost anon: nat)
    requires mm.Valid() && len > 0 && len % PAGE == 0 && r % PAGE == 0 && Add32(r, len) <= TASK_SIZE
    requires RangeFree(mm.areas, r, Add32(r, len))
    modifies mm`mmap, mm`nodes, mm`list, mm`areas, mm`nextAnon
    ensures mm.Valid()
    ensures if Wraps(r, len) then mm.areas == old(mm.areas)
            else Maps(old(mm.areas), mm.areas, r, r + len, flags, anon)
                   && anon == Lineage(old(mm.areas), r, r + len, flags, FreshId(old(mm.nextAnon)))
    ensures mm.nextAnon == if Wraps(r, len) || Heir(old(mm.areas), r, r + len, flags) != 0 then old(mm.nextAnon)
                           else (anon + 1) % WORD
  {
    ghost var A := mm.areas;
    anon := mm.AddArea(r, Add32(r, len), flags);
    if !Wraps(r, len) {
      Mapping(A, Area(r, r + len, flags, anon));
    }
  }

  lemma {:induction false} Mapping(A: seq<Area>, v: Area)
    requires Tidy(A) && UserOnly(A) && v.start < v.end <= TASK_SIZE && RangeFree(A, v.start, v.end)
    requires v.start % PAGE == 0 && v.end % PAGE == 0
    ensures Tidy(Add(A, v)) && UserOnly(Add(A, v)) && Maps(A, Add(A, v), v.start, v.end, v.flags, v.anon)
  {
    AddTidy(A, v);
    forall x: nat
      ensures At(Add(A, v), x) == if v.start <= x < v.end then Mapped(v.flags, v.anon) else At(A, x)
    {
      AddAt(A, v, x);
    }
    forall x: nat | v.start <= x < v.end
      ensures At(A, x) == Hole
    {
      if At(A, x) != Hole {
        var i := AtSome(A, x);
      }
    }
  }

  /** A wrapping request on an empty address space: success is reported and nothing is mapped. */
  method WrappingExample() returns (mm: MmStruct, r: U32)
    ensures r == 0xFFFF_F000 && mm.Valid() && mm.areas == []
  {
    mm := new MmStruct();
    ghost var anon;
    r, anon := DoMmap(mm, 0xFFFF_F000, 0x1000, 3);
  }

  // ------------------------------------------------------------------ do_munmap

  /** What the arguments of do_munmap and do_mprotect must satisfy. */
  predicate RangeOk(addr: U32, length: U32) {
    length != 0 && addr >= 0x1000 && addr % PAGE == 0 && AlignUp(length) != 0 && !Wraps(addr, AlignUp(length))
  }

  /** The checks of do_munmap and do_mprotect on their range, and its end. */
  method CheckRange(addr: U32, length: U32) returns (fine: bool, end: nat)
    ensures fine <==> RangeOk(addr, length)
    ensures fine ==> addr < end == addr + AlignUp(length) && addr % PAGE == 0 && end % PAGE == 0
  {
    fine, end := false, 0;
    if length == 0 || addr < 0x1000 || addr % PAGE != 0 {
      return;
    }
    var len := AlignUp(length);
    if len == 0 {
      return;
    }
    end := Add32(addr, len);
    fine := end > addr;
  }

  /** The addresses from `lo` to `hi` are free now; nothing else changed. */
  ghost predicate Unmaps(A: seq<Area>, B: seq<Area>, lo: nat, hi: nat) {
    forall x: nat :: At(B, x) == if lo <= x < hi then Hole else At(A, x)
  }

  /** do_munmap: unmaps the range, all of it and nothing else. */
  method DoMunmap(mm: MmStruct, addr: U32, length: U32) returns (r: int)
    requires mm.Valid()
    modifies mm`mmap, mm`nodes, mm`list, mm`areas
    ensures mm.Valid() && r == if RangeOk(addr, length) then 0 else -1
    ensures r == -1 ==> mm.areas == old(mm.areas)
    ensures r == 0 ==> Unmaps(old(mm.areas), mm.areas, addr, addr + AlignUp(length))
  {
    var fine, end := CheckRange(addr, length);
    if !fine {
      return -1;
    }
    Unmapping(mm.areas, addr, end);
    CutRange(mm, addr, end);
    mm.MergeAdjacent();
    return 0;
  }

  lemma {:induction false} Unmapping(A: seq<Area>, lo: nat, hi: nat)
    requires Tidy(A) && UserOnly(A) && lo < hi && lo % PAGE == 0 && hi % PAGE == 0
    ensures var B := MergeAll(Cut(A, lo, hi));
            Tidy(B) && UserOnly(B) && Unmaps(A, B, lo, hi)
  {
    CutShape(A, lo, hi);
    Settled(Cut(A, lo, hi));
    forall x: nat
      ensures At(MergeAll(Cut(A, lo, hi)), x) == if lo <= x < hi then Hole else At(A, x)
    {
      CutAt(A, lo, hi, x);
    }
  }

  /** The walk of do_munmap over the list. */
  method CutRange(mm: MmStruct, lo: nat, hi: nat)
    requires mm.Ok() && lo < hi
    modifies mm`mmap, mm`nodes, mm`list, mm`areas
    ensures mm.Ok() && mm.areas == Cut(old(mm.areas), lo, hi)
  {
    var v, prev := mm.mmap, 0;
    ghost var i: nat := 0;
    mm.Look(0);
    assert mm.areas[0..] == mm.areas;
    while v != 0
      invariant mm.Ok() && mm.Here(v, i) && prev == (if i > 0 then mm.list[i - 1] else 0)
      invariant mm.areas[..i] + Cut(mm.areas[i..], lo, hi) == Cut(old(mm.areas), lo, hi)
      decreases |Cut(mm.areas[i..], lo, hi)| + |mm.list| - i
    {
      prev, v, i := CutAtNode(mm, prev, v, lo, hi, i);
    }
    assert mm.areas[..i] == mm.areas;
  }

  /** One turn of that walk. */
  method CutAtNode(mm: MmStruct, prev: Ref, v: Ref, lo: nat, hi: nat, ghost i: nat)
    returns (prev': Ref, v': Ref, ghost i': nat)
    requires mm.Ok() && v != 0 && mm.Here(v, i) && prev == (if i > 0 then mm.list[i - 1] else 0) && lo < hi
    modifies mm`mmap, mm`nodes, mm`list, mm`areas
    ensures mm.Ok() && mm.Here(v', i') && prev' == (if i' > 0 then mm.list[i' - 1] else 0)
    ensures mm.areas[..i'] + Cut(mm.areas[i'..], lo, hi) == old(mm.areas[..i] + Cut(mm.areas[i..], lo, hi))
    ensures |Cut(mm.areas[i'..], lo, hi)| + |mm.list| - i' < old(|Cut(mm.areas[i..], lo, hi)| + |mm.list| - i)
  {
    CutDone(mm.areas, i, lo, hi);
    prev', v', i' := v, mm.nodes[v].next, i + 1;
    if hi <= mm.nodes[v].start || lo >= mm.nodes[v].end {
    } else if lo <= mm.nodes[v].start && hi >= mm.nodes[v].end {
      mm.Drop(prev, v, i);
      prev', i' := prev, i;
    } else if lo <= mm.nodes[v].start && hi < mm.nodes[v].end {
      mm.Write(v, Data(mm.nodes[v]).(start := hi), i);
    } else if lo > mm.nodes[v].start && hi >= mm.nodes[v].end {
      mm.Write(v, Data(mm.nodes[v]).(end := lo), i);
    } else {
      v' := Split(mm, v, lo, hi, i);
    }
    mm.Look(i');
  }

  /** The case of do_munmap where the range lies inside one area: a new node takes the part after it. */
  method Split(mm: MmStruct, v: Ref, lo: nat, hi: nat, ghost i: nat) returns (w: Ref)
    requires mm.Ok() && v != 0 && mm.Here(v, i)
    modifies mm`mmap, mm`nodes, mm`list, mm`areas
    ensures mm.Ok() && |mm.list| == |old(mm.list)| + 1 && mm.list[i] == v && mm.list[i + 1] == w
    ensures mm.areas == old(mm.areas)[..i] + [old(mm.areas)[i].(end := lo), old(mm.areas)[i].(start := hi)]
              + old(mm.areas)[i + 1..]
  {
    ghost var A := mm.areas;
    var right := Data(mm.nodes[v]).(start := hi);
    mm.Write(v, Data(mm.nodes[v]).(end := lo), i);
    mm.Look(i);
    w := mm.LinkNew(v, mm.nodes[v].next, right, i + 1);
    assert mm.areas == A[..i] + [A[i].(end := lo), right] + A[i + 1..];
  }

  /** The areas after one turn, and that the rest of the walk still leads to the same cut. */
  lemma {:induction false} CutDone(A: seq<Area>, i: nat, lo: nat, hi: nat)
    requires i < |A| && lo < hi
    ensures var P := CutOne(A[i], lo, hi);
            var B := A[..i] + P + A[i + 1..];
            var n := if P == [] then i else i + 1;
            && B[..n] + Cut(B[n..], lo, hi) == A[..i] + Cut(A[i..], lo, hi)
            && |Cut(B[n..], lo, hi)| + |B| - n < |Cut(A[i..], lo, hi)| + |A| - i
            && (|P| == 1 ==> B == A[i := P[0]])
            && (P == [] ==> B == A[..i] + A[i + 1..])
  {
    var a, P, C := A[i], CutOne(A[i], lo, hi), Cut(A[i + 1..], lo, hi);
    CutStep(A, i, lo, hi);
    if P == [] {
      assert A[..i] + P + A[i + 1..] == A[..i] + A[i + 1..];
      assert (A[..i] + A[i + 1..])[i..] == A[i + 1..];
    } else if |P| == 1 {
      assert A[..i] + P + A[i + 1..] == A[i := P[0]];
      assert A[..i] + (P + C) == A[i := P[0]][..i + 1] + C;
    } else {
      CutSplit(A, i, P[0], P[1], lo, hi);
      assert P == [P[0], P[1]];
    }
  }

  lemma {:induction false} CutSplit(A: seq<Area>, i: nat, p: Area, q: Area, lo: nat, hi: nat)
    requires i < |A| && CutOne(q, lo, hi) == [q]
    ensures var B, C := A[..i] + [p, q] + A[i + 1..], Cut(A[i + 1..], lo, hi);
            B[..i + 1] + Cut(B[i + 1..], lo, hi) == A[..i] + ([p, q] + C) && |Cut(B[i + 1..], lo, hi)| == |C| + 1
  {
  }

  // ------------------------------------------------------------------ do_mprotect

  /** One area covers the whole range. */
  ghost predicate Covered(A: seq<Area>, lo: nat, hi: nat) {
    exists k | 0 <= k < |A| :: A[k].start <= lo && hi <= A[k].end
  }

  /** The range was mapped and has other flags now; lineages and everything else are as before. */
  ghost predicate Reprotects(A: seq<Area>, B: seq<Area>, lo: nat, hi: nat, flags: nat) {
    && (forall x: nat | lo <= x < hi :: At(A, x).Mapped? && At(B, x) == Mapped(flags, At(A, x).anon))
    && (forall x: nat | !(lo <= x < hi) :: At(B, x) == At(A, x))
  }

  /** do_mprotect: changes the flags of the range, all of it and nothing else, if one area covers it. */
  method DoMprotect(mm: MmStruct, addr: U32, length: U32, prot: nat) returns (r: int)
    requires mm.Valid()
    modifies mm`mmap, mm`nodes, mm`list, mm`areas
    ensures mm.Valid()
    ensures r == if RangeOk(addr, length) && Covered(old(mm.areas), addr, addr + AlignUp(length)) then 1 else 0
    ensures r == 0 ==> mm.areas == old(mm.areas)
    ensures r == 1 ==> Reprotects(old(mm.areas), mm.areas, addr, addr + AlignUp(length), prot % 8)
  {
    var fine, end := CheckRange(addr, length);
    if !fine {
      return 0;
    }
    var v, k := mm.FindCovering(addr, end);
    if v == 0 {
      return 0;
    }
    FlagBits(prot);
    Protecting(mm.areas, k, addr, end, FlagsOf(prot));
    Carve(mm, v, addr, end, FlagsOf(prot), k);
    mm.MergeAdjacent();
    return 1;
  }

  /** The part of do_mprotect that splits the covering area `v`. */
  method Carve(mm: MmStruct, v: Ref, lo: nat, hi: nat, flags: nat, ghost k: nat)
    requires mm.Ok() && Tidy(mm.areas) && v != 0 && mm.Here(v, k) && mm.areas[k].start <= lo < hi <= mm.areas[k].end
    modifies mm`mmap, mm`nodes, mm`list, mm`areas
    ensures mm.Ok()
    ensures mm.areas == old(mm.areas)[..k] + (Pieces(old(mm.areas)[k], lo, hi, flags) + old(mm.areas)[k + 1..])
  {
    ghost var A := mm.areas;
    ghost var n := KeepLeft(mm, v, lo, k);
    KeepRight(mm, v, hi, A, k, n);
    mm.Write(v, Area(lo, hi, flags, mm.nodes[v].anon), n);
    Assembled(A, k, lo, hi, flags);
  }

  method KeepLeft(mm: MmStruct, v: Ref, lo: nat, ghost k: nat) returns (ghost n: nat)
    requires mm.Ok() && Tidy(mm.areas) && v != 0 && mm.Here(v, k) && mm.areas[k].start <= lo < mm.areas[k].end
    modifies mm`mmap, mm`nodes, mm`list, mm`areas
    ensures mm.Ok() && mm.Here(v, n) && n == k + |LeftOf(old(mm.areas)[k], lo)|
    ensures mm.areas == old(mm.areas)[..k] + LeftOf(old(mm.areas)[k], lo) + old(mm.areas)[k..]
  {
    n := k;
    if lo > mm.nodes[v].start {
      LeftPart(mm.areas, k, lo);
      ghost var _ := mm.AddAnon(mm.nodes[v].start, lo, mm.nodes[v].flags, mm.nodes[v].anon);
      n := k + 1;
      mm.Look(n);
    } else {
      assert mm.areas == mm.areas[..k] + [] + mm.areas[k..];
    }
  }

  method KeepRight(mm: MmStruct, v: Ref, hi: nat, ghost A: seq<Area>, ghost k: nat, ghost n: nat)
    requires Tidy(A) && k < |A| && A[k].start < hi <= A[k].end && k <= n <= k + 1
    requires mm.Ok() && v != 0 && mm.Here(v, n) && LeftDone(A, mm.areas, k, n)
    modifies mm`mmap, mm`nodes, mm`list, mm`areas
    ensures mm.Ok() && mm.Here(v, n) && mm.areas == old(mm.areas)[..n + 1] + RightOf(A[k], hi) + old(mm.areas)[n + 1..]
  {
    if hi < mm.nodes[v].end {
      RightPart(A, mm.areas, k, n, hi);
      ghost var _ := mm.AddAnon(hi, mm.nodes[v].end, mm.nodes[v].flags, mm.nodes[v].anon);
      mm.Look(n);
    } else {
      assert mm.areas == mm.areas[..n + 1] + [] + mm.areas[n + 1..];
    }
  }

  function LeftOf(a: Area, lo: nat): seq<Area> {
    if lo > a.start then [a.(end := lo)] else []
  }

  function RightOf(a: Area, hi: nat): seq<Area> {
    if hi < a.end then [a.(start := hi)] else []
  }

  /** `B` is `A` with at most one area, that starts where `A[k]` does, put before `A[k]`. */
  ghost predicate LeftDone(A: seq<Area>, B: seq<Area>, k: nat, n: nat)
    requires k < |A|
  {
    && k <= n <= k + 1 && |B| == |A| + n - k && B[..k] == A[..k] && B[n..] == A[k..] && B[k].start == A[k].start
  }

  lemma {:induction false} BeforeAt(A: seq<Area>, s: nat, k: nat)
    requires k <= |A| && (forall j | 0 <= j < k :: A[j].start < s) && (k < |A| ==> A[k].start >= s)
    ensures Before(A, s) == k
  {
    BeforeIs(A, s);
  }

  /** vma_add_anon puts the left part right before the area it comes from, and merges it with nothing. */
  lemma {:induction false} LeftPart(A: seq<Area>, k: nat, lo: nat)
    requires Tidy(A) && k < |A| && A[k].start < lo < A[k].end
    ensures var l := A[k].(end := lo);
            Before(A, l.start) == k && Alone(A, l) && Add(A, l) == A[..k] + [l] + A[k..]
  {
    forall j | 0 <= j < k
      ensures A[j].start < A[k].start
    {
      SortedAt(A, j, k);
    }
    BeforeAt(A, A[k].start, k);
    if k > 0 {
      assert !CanMerge(A[k - 1], A[k]);
    }
  }

  /** vma_add_anon puts the right part right after the area it comes from, and merges it with nothing. */
  lemma {:induction false} RightPart(A: seq<Area>, B: seq<Area>, k: nat, n: nat, hi: nat)
    requires Tidy(A) && k < |A| && A[k].start < hi < A[k].end && LeftDone(A, B, k, n)
    ensures var r := A[k].(start := hi);
            Before(B, hi) == n + 1 && Alone(B, r) && Add(B, r) == B[..n + 1] + [r] + B[n + 1..]
  {
    var r := A[k].(start := hi);
    assert B[n] == B[n..][0] == A[k];
    forall j | 0 <= j < n + 1
      ensures B[j].start < hi
    {
      if j < k {
        assert B[j] == B[..k][j] == A[j];
        SortedAt(A, j, k);
      }
    }
    if n + 1 < |B| {
      assert B[n + 1] == B[n..][1] == A[k + 1];
      SortedAt(A, k, k + 1);
      assert !CanMerge(A[k], A[k + 1]);
    }
    BeforeAt(B, hi, n + 1);
  }

  lemma {:induction false} Assembled(A: seq<Area>, k: nat, lo: nat, hi: nat, flags: nat)
    requires k < |A|
    ensures var a := A[k];
            var B := A[..k] + LeftOf(a, lo) + A[k..];
            var n := k + |LeftOf(a, lo)|;
            (B[..n + 1] + RightOf(a, hi) + B[n + 1..])[n := Area(lo, hi, flags, a.anon)] ==
              A[..k] + (Pieces(a, lo, hi, flags) + A[k + 1..])
  {
  }

  lemma {:induction false} Protecting(A: seq<Area>, k: nat, lo: nat, hi: nat, flags: nat)
    requires Tidy(A) && UserOnly(A) && k < |A| && A[k].start <= lo < hi <= A[k].end && lo % PAGE == 0 && hi % PAGE == 0
    ensures var B := MergeAll(A[..k] + (Pieces(A[k], lo, hi, flags) + A[k + 1..]));
            Tidy(B) && UserOnly(B) && Reprotects(A, B, lo, hi, flags)
  {
    var P := Pieces(A[k], lo, hi, flags);
    var C := A[..k] + (P + A[k + 1..]);
    PiecesAt(A, k, lo, hi, flags, 0);
    SwapSorted(A, k, P);
    Settled(C);
    forall x: nat
      ensures At(MergeAll(C), x) == if lo <= x < hi then Mapped(flags, A[k].anon) else At(A, x)
      ensures lo <= x < hi ==> At(A, x).Mapped? && At(A, x).anon == A[k].anon
    {
      PiecesAt(A, k, lo, hi, flags, x);
      if lo <= x < hi {
        AtIndex(A, k, x);
      }
    }
  }

  // ------------------------------------------------------------------ do_mremap

  predicate ResizeOk(addr: U32, oldLength: U32, newLength: U32) {
    && oldLength != 0 && newLength != 0 && addr >= 0x1000 && addr % PAGE == 0 && AlignUp(oldLength) != 0
         && AlignUp(newLength) != 0
    && !Wraps(addr, AlignUp(oldLength)) && !Wraps(addr, AlignUp(newLength))
  }

  /** The area at index `k` ends at `e` now; nothing else changed. */
  ghost predicate Resizes(A: seq<Area>, B: seq<Area>, k: nat, e: nat)
    requires k < |A|
  {
    forall x: nat :: At(B, x) ==
      if A[k].start <= x < e then Mapped(A[k].flags, A[k].anon) else if A[k].start <= x < A[k].end then Hole
        else At(A, x)
  }

  ghost predicate Grants(A: seq<Area>, limit: nat, addr: U32, oldLength: U32, newLength: U32) {
    && ResizeOk(addr, oldLength, newLength) && Covered(A, addr, addr + AlignUp(oldLength))
    && (AlignUp(newLength) > AlignUp(oldLength) ==>
          addr + AlignUp(newLength) <= limit && RangeFree(A, addr + AlignUp(oldLength), addr + AlignUp(newLength)))
  }

  /** do_mremap. `k` is the index of the area that covers the old range. A larger size is granted if the
      addresses after the old range are free, which also means that the area ends with the old range. A
      smaller size ends the whole area at the new end. */
  method DoMremap(mm: MmStruct, addr: U32, oldLength: U32, newLength: U32) returns (r: U32, ghost k: nat)
    requires mm.Valid()
    modifies mm`mmap, mm`nodes, mm`list, mm`areas
    ensures mm.Valid()
    ensures r == if Grants(old(mm.areas), LimitOf(mm), addr, oldLength, newLength) then addr else 0
    ensures r == 0 || AlignUp(oldLength) == AlignUp(newLength) ==> mm.areas == old(mm.areas)
    ensures r != 0 && AlignUp(oldLength) != AlignUp(newLength) ==>
              var A := old(mm.areas);
              && k < |A| && A[k].start <= addr && addr + AlignUp(oldLength) <= A[k].end
              && Resizes(A, mm.areas, k, addr + AlignUp(newLength))
              && (AlignUp(newLength) > AlignUp(oldLength) ==> A[k].end == addr + AlignUp(oldLength))
  {
    r, k := 0, 0;
    var fine, oldEnd, newEnd := CheckResize(addr, oldLength, newLength);
    if !fine {
      return;
    }
    var v;
    v, k := mm.FindCovering(addr, oldEnd);
    if v == 0 {
      return;
    }
    if newEnd == oldEnd {
      return addr, k;
    }
    var ok := Resize(mm, v, oldEnd, newEnd, k);
    r := if ok then addr else 0;
  }

  /** The checks of do_mremap on its arguments, and the two ends of the range. */
  method CheckResize(addr: U32, oldLength: U32, newLength: U32) returns (fine: bool, oldEnd: nat, newEnd: nat)
    ensures fine <==> ResizeOk(addr, oldLength, newLength)
    ensures fine ==> oldEnd == addr + AlignUp(oldLength) && newEnd == addr + AlignUp(newLength) && newEnd % PAGE == 0
    ensures fine ==> addr < oldEnd && addr < newEnd
  {
    fine, oldEnd, newEnd := false, 0, 0;
    if oldLength == 0 || newLength == 0 || addr < 0x1000 || addr % PAGE != 0 {
      return;
    }
    var oldLen, newLen := AlignUp(oldLength), AlignUp(newLength);
    if oldLen == 0 || newLen == 0 {
      return;
    }
    oldEnd := Add32(addr, oldLen);
    if oldEnd <= addr {
      return;
    }
    newEnd := Add32(addr, newLen);
    fine := newEnd > addr;
  }

  /** The part of do_mremap that moves the end of the covering area `v`. */
  method Resize(mm: MmStruct, v: Ref, oldEnd: nat, newEnd: nat, ghost k: nat) returns (ok: bool)
    requires mm.Valid() && v != 0 && mm.Here(v, k) && newEnd % PAGE == 0 && newEnd != oldEnd
    requires mm.areas[k].start < oldEnd <= mm.areas[k].end && mm.areas[k].start < newEnd
    modifies mm`mmap, mm`nodes, mm`list, mm`areas
    ensures mm.Valid()
    ensures ok <==> newEnd > oldEnd ==> newEnd <= LimitOf(mm) && RangeFree(old(mm.areas), oldEnd, newEnd)
    ensures if ok then Resizes(old(mm.areas), mm.areas, k, newEnd) else mm.areas == old(mm.areas)
    ensures ok && newEnd > oldEnd ==> old(mm.areas)[k].end == oldEnd
  {
    if newEnd > oldEnd {
      var limit := if mm.startStack != 0 then mm.startStack else TASK_SIZE;
      if newEnd > limit {
        return false;
      }
      var free := mm.IsRangeFree(oldEnd, newEnd);
      if !free {
        return false;
      }
      Growing(mm.areas, k, oldEnd, newEnd);
    } else {
      Shrinking(mm.areas, k, newEnd);
    }
    Resizing(mm.areas, k, newEnd);
    mm.Write(v, Data(mm.nodes[v]).(end := newEnd), k);
    mm.MergeAdjacent();
    return true;
  }

  lemma {:induction false} Resizing(A: seq<Area>, k: nat, e: nat)
    requires Tidy(A) && UserOnly(A) && k < |A| && A[k].start < e <= TASK_SIZE && e % PAGE == 0
    requires (k + 1 < |A| ==> e <= A[k + 1].start)
    ensures var B := MergeAll(A[k := A[k].(end := e)]);
            Tidy(B) && UserOnly(B) && Resizes(A, B, k, e)
  {
    var P := [A[k].(end := e)];
    var C := A[k := P[0]];
    assert C == A[..k] + (P + A[k + 1..]);
    SwapSorted(A, k, P);
    Settled(C);
    forall x: nat
      ensures At(MergeAll(C), x) == if A[k].start <= x < e then Mapped(A[k].flags, A[k].anon)
                else if A[k].start <= x < A[k].end then Hole else At(A, x)
    {
      SwapAt(A, k, P, x);
    }
  }

  lemma {:induction false} Growing(A: seq<Area>, k: nat, from: nat, to: nat)
    requires Sorted(A) && k < |A| && A[k].start < from <= A[k].end && from < to && RangeFree(A, from, to)
    ensures A[k].end == from && (k + 1 < |A| ==> to <= A[k + 1].start)
  {
    SortedAt(A, k, k);
    if k + 1 < |A| {
      SortedAt(A, k, k + 1);
      SortedAt(A, k + 1, k + 1);
    }
  }

  lemma {:induction false} Shrinking(A: seq<Area>, k: nat, e: nat)
    requires Sorted(A) && UserOnly(A) && k < |A| && A[k].start < e < A[k].end
    ensures e <= TASK_SIZE && (k + 1 < |A| ==> e <= A[k + 1].start)
  {
    if k + 1 < |A| {
      SortedAt(A, k, k + 1);
    }
    AtIndex(A, k, A[k].end - 1);
  }

  /** Shrinking unmaps exactly the addresses between the new and the old end if and only if the covering area
      ends where the caller's old range does. */
  lemma {:induction false} ShrinkExact(A: seq<Area>, B: seq<Area>, k: nat, newEnd: nat, oldEnd: nat)
    requires Sorted(A) && k < |A| && A[k].start < newEnd < oldEnd <= A[k].end && Resizes(A, B, k, newEnd)
    ensures Unmaps(A, B, newEnd, oldEnd) <==> A[k].end == oldEnd
  {
    forall x: nat | A[k].start <= x < A[k].end
      ensures At(A, x) == Mapped(A[k].flags, A[k].anon)
    {
      AtIndex(A, k, x);
    }
    if A[k].end != oldEnd {
      assert At(B, oldEnd) == Hole;
    }
  }

  lemma {:induction false} OneArea(A: seq<Area>, lo: nat, hi: nat, flags: nat, anon: nat)
    requires Tidy(A) && lo < hi && forall x: nat :: At(A, x) == if lo <= x < hi then Mapped(flags, anon) else Hole
    ensures forall k | 0 <= k < |A| :: A[k].start == lo && A[k].end == hi
    ensures Covered(A, lo, hi)
  {
    forall k | 0 <= k < |A|
      ensures A[k].start == lo && A[k].end == hi
    {
      SortedAt(A, k, k);
      AtIndex(A, k, A[k].start);
      AtIndex(A, k, A[k].end - 1);
      Maximal(A, k, hi);
      var j := AtSome(A, lo);
      SortedAt(A, j, j);
      AtIndex(A, j, A[j].start);
      Maximal(A, j, hi);
      if j < k {
        SortedAt(A, j, k);
      } else if k < j {
        SortedAt(A, k, j);
      }
    }
    var j := AtSome(A, lo);
    assert A[j].start == lo && A[j].end == hi;
  }

  /** A shrink that drops more than the caller's range: of three pages, two are named and one is kept. */
  method ShrinkExample() returns (mm: MmStruct, r: U32)
    ensures r == 0x40_0000 && mm.Valid()
    ensures At(mm.areas, 0x40_0000).Mapped? && At(mm.areas, 0x40_1000) == Hole && At(mm.areas, 0x40_2000) == Hole
  {
    mm := new MmStruct();
    ghost var anon, k;
    r, anon := DoMmap(mm, 0x40_0000, 0x3000, 3);
    OneArea(mm.areas, 0x40_0000, 0x40_3000, 3, anon);
    r, k := DoMremap(mm, 0x40_0000, 0x2000, 0x1000);
  }

  // ------------------------------------------------------------------ vma_allows

  /** The access that a mapping grants; none where nothing is mapped. */
  predicate Permits(c: Cover, isWrite: bool, isExec: bool) {
    c.Mapped? && (isExec ==> HasExec(c.flags)) && if isWrite then HasWrite(c.flags) else HasRead(c.flags)
  }

  /** vma_allows */
  method Allows(mm: MmStruct, addr: nat, isWrite: bool, isExec: bool) returns (ok: bool)
    requires mm.Ok()
    ensures ok <==> Permits(At(mm.areas, addr), isWrite, isExec)
  {
    var v := mm.mmap;
    ghost var i := 0;
    mm.Look(0);
    assert mm.areas[0..] == mm.areas;
    while v != 0
      invariant mm.Here(v, i) && At(mm.areas, addr) == At(mm.areas[i..], addr)
      decreases |mm.list| - i
    {
      assert mm.areas[i..][1..] == mm.areas[i + 1..];
      if mm.nodes[v].start <= addr < mm.nodes[v].end {
        var flags := mm.nodes[v].flags;
        if isExec && !HasExec(flags) {
          return false;
        }
        if isWrite && !HasWrite(flags) {
          return false;
        }
        if !isWrite && !HasRead(flags) {
          return false;
        }
        return true;
      }
      v := mm.nodes[v].next;
      i := i + 1;
      mm.Look(i);
    }
    return false;
  }
}
