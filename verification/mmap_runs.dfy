/** Whole runs of mmap, munmap, mprotect and mremap, as changes of a function from addresses to mappings. Nothing here
    mentions areas or lists: sizes, limits and flags are plain numbers. */
module MmapRuns {
  import opened Machine
  import opened VmaModel
  import opened Mmap
  import opened MmapCalls

  datatype Call =
    | Map(addr: U32, length: U32, prot: nat)
    | Unmap(addr: U32, length: U32)
    | Protect(addr: U32, length: U32, prot: nat)
    | Remap(addr: U32, oldLength: U32, newLength: U32)

  /** What is mapped at every address. */
  type Space = imap<nat, Cover>

  ghost function On(c: Space, x: nat): Cover {
    if x in c then c[x] else Hole
  }

  /** The space, and the next lineage id. */
  datatype State = State(space: Space, next: nat)

  /** Where heap, code and stack are. */
  datatype Env = Env(brk: nat, startCode: nat, endCode: nat, startStack: nat)

  function Limit(e: Env): nat {
    if e.startStack != 0 then e.startStack else 0xC000_0000
  }

  function Rounded(length: nat): nat {
    (length + 0xFFF) / 0x1000 * 0x1000
  }

  /** A range of whole pages above the first one that ends below 2^32. */
  predicate Sane(addr: nat, length: nat) {
    length > 0 && addr >= 0x1000 && addr % 0x1000 == 0 && addr + length <= 0xFFFF_F000
  }

  ghost predicate Free(c: Space, lo: nat, hi: nat) {
    forall x: nat | lo <= x < hi :: On(c, x) == Hole
  }

  /** The whole range is mapped in one way. */
  ghost predicate Same(c: Space, lo: nat, hi: nat) {
    On(c, lo).Mapped? && forall x: nat | lo <= x < hi :: On(c, x) == On(c, lo)
  }

  /** A place for a mapping whose address the caller leaves open: above the heap and the code, below the stack. */
  ghost predicate Spot(e: Env, c: Space, len: nat, s: nat) {
    && s % 0x1000 == 0 && s >= 0x1000 && s >= (if e.brk != 0 then e.brk else 0x40_0000)
    && (e.startCode != 0 && e.endCode != 0 ==> s >= e.endCode)
    && s + len <= Limit(e) && Free(c, s, s + len)
  }

  /** The lineage a new mapping takes from the address before it or the one after it, 0 for none. */
  ghost function Inherits(c: Space, lo: nat, hi: nat, flags: nat): nat {
    if lo > 0 && On(c, lo - 1).Mapped? && On(c, lo - 1).flags == flags then On(c, lo - 1).anon
    else if On(c, hi).Mapped? && On(c, hi).flags == flags then On(c, hi).anon
    else 0
  }

  // ------------------------------------------------------------------ what a call does, given its result

  ghost function Effect(s: State, call: Call, r: int): State {
    match call
    case Map(addr, length, prot) =>
      if r <= 0 || r + Rounded(length) >= WORD then s else MapEffect(s, r, r + Rounded(length), prot % 8)
    case Unmap(addr, length) =>
      if r != 0 then s
      else s.(space := imap x: nat :: if addr <= x < addr + Rounded(length) then Hole else On(s.space, x))
    case Protect(addr, length, prot) =>
      if r != 1 then s
      else s.(space := imap x: nat ::
        if addr <= x < addr + Rounded(length) && On(s.space, x).Mapped? then On(s.space, x).(flags := prot % 8)
        else On(s.space, x))
    case Remap(addr, oldLength, newLength) =>
      if r == 0 || Rounded(newLength) == Rounded(oldLength) then s
      else if Rounded(newLength) > Rounded(oldLength) then
        s.(space := Grown(s.space, addr, addr + Rounded(oldLength), addr + Rounded(newLength)))
      else
        s.(space := Trimmed(s.space, addr, addr + Rounded(newLength)))
  }

  /** The addresses from `lo` to `hi` are mapped as `addr` is. */
  ghost function Grown(c: Space, addr: nat, lo: nat, hi: nat): Space {
    imap x: nat :: if lo <= x < hi then On(c, addr) else On(c, x)
  }

  /** What is mapped as `addr` is without a break, from `lo` on, is gone. */
  ghost function Trimmed(c: Space, addr: nat, lo: nat): Space {
    imap x: nat :: if lo <= x && Reaches(c, addr, x) then Hole else On(c, x)
  }

  ghost predicate Reaches(c: Space, addr: nat, x: nat) {
    Same(c, addr, x + 1)
  }

  ghost function MapEffect(s: State, lo: nat, hi: nat, flags: nat): State {
    var id := Inherits(s.space, lo, hi, flags);
    var anon := if id != 0 then id else if s.next == 0 then 1 else s.next;
    State(imap x: nat :: if lo <= x < hi then Mapped(flags, anon) else On(s.space, x),
          if id != 0 then s.next else (anon + 1) % WORD)
  }

  /** The results that a call may have. */
  ghost predicate Answers(e: Env, s: State, call: Call, r: int) {
    match call
    case Map(addr, length, prot) =>
      if length == 0 || length > 0xFFFF_F000 || Limit(e) <= 0x1000 then r == 0
      else MapAnswers(e, s.space, addr, Rounded(length), r)
    case Unmap(addr, length) =>
      r == if Sane(addr, length) then 0 else -1
    case Protect(addr, length, prot) =>
      r == if Sane(addr, length) && Same(s.space, addr, addr + Rounded(length)) then 1 else 0
    case Remap(addr, oldLength, newLength) =>
      r == if Movable(e, s.space, addr, oldLength, newLength) then addr else 0
  }

  ghost predicate Movable(e: Env, c: Space, addr: nat, oldLength: nat, newLength: nat) {
    && Sane(addr, oldLength) && Sane(addr, newLength) && Same(c, addr, addr + Rounded(oldLength))
    && (Rounded(newLength) > Rounded(oldLength) ==>
          && addr + Rounded(newLength) <= Limit(e)
          && Free(c, addr + Rounded(oldLength), addr + Rounded(newLength)))
  }

  /** A given address is taken if it will do; otherwise it is the lowest spot. Ranges that pass 2^32 are the exception:
      whatever is reported, nothing is mapped. */
  ghost predicate MapAnswers(e: Env, c: Space, addr: nat, len: nat, r: int) {
    if addr != 0 then
      if addr + len >= WORD then r == 0 || r == addr
      else r == if addr >= 0x1000 && addr % 0x1000 == 0 && addr + len <= Limit(e) && Free(c, addr, addr + len)
                then addr else 0
    else
      || (r == 0 && forall s: nat :: !Spot(e, c, len, s))
      || (r > 0 && Spot(e, c, len, r) && forall s: nat | s < r :: !Spot(e, c, len, s))
      || (r > 0 && r + len >= WORD && forall s: nat :: !Spot(e, c, len, s))
  }

  // ------------------------------------------------------------------ lists and their meaning

  ghost function Meaning(A: seq<Area>): Space {
    imap x: nat :: At(A, x)
  }

  lemma {:induction false} FreeIff(A: seq<Area>, lo: nat, hi: nat)
    requires Sorted(A) && lo < hi
    ensures RangeFree(A, lo, hi) <==> Free(Meaning(A), lo, hi)
  {
    if RangeFree(A, lo, hi) {
      forall x: nat | lo <= x < hi
        ensures At(A, x) == Hole
      {
        if At(A, x) != Hole {
          var i := AtSome(A, x);
        }
      }
    } else {
      var i :| 0 <= i < |A| && !(hi <= A[i].start || lo >= A[i].end);
      var x := if lo < A[i].start then A[i].start else lo;
      SortedAt(A, i, i);
      AtIndex(A, i, x);
      assert On(Meaning(A), x) != Hole;
    }
  }

  /** One area covers the range exactly if the range is mapped in one way. */
  lemma {:induction false} CoveredIff(A: seq<Area>, lo: nat, hi: nat)
    requires Tidy(A) && lo < hi
    ensures Covered(A, lo, hi) <==> Same(Meaning(A), lo, hi)
  {
    if Covered(A, lo, hi) {
      var k :| 0 <= k < |A| && A[k].start <= lo && hi <= A[k].end;
      forall x: nat | lo <= x < hi
        ensures At(A, x) == Mapped(A[k].flags, A[k].anon)
      {
        AtIndex(A, k, x);
      }
    } else if Same(Meaning(A), lo, hi) {
      var k := AtSome(A, lo);
      InOneArea(A, k, lo, hi);
    }
  }

  /** Addresses in a row, from inside an area on, that are mapped as it is belong to it. */
  lemma {:induction false} InOneArea(A: seq<Area>, k: nat, lo: nat, hi: nat)
    requires Tidy(A) && k < |A| && A[k].start <= lo < A[k].end
    ensures Same(Meaning(A), lo, hi) <==> hi <= A[k].end
  {
    AtIndex(A, k, lo);
    if hi <= A[k].end {
      forall x: nat | lo <= x < hi
        ensures At(A, x) == At(A, lo)
      {
        AtIndex(A, k, x);
      }
    } else if Same(Meaning(A), lo, hi) {
      forall x: nat | A[k].start <= x < hi
        ensures At(A, x) == Mapped(A[k].flags, A[k].anon)
      {
        if x < lo {
          AtIndex(A, k, x);
        } else {
          assert On(Meaning(A), x) == On(Meaning(A), lo);
        }
      }
      Maximal(A, k, hi);
    }
  }

  lemma {:induction false} RoundedIs(length: U32)
    ensures AlignUp(length) == if length > 0xFFFF_F000 then 0 else Rounded(length)
    ensures length > 0 ==> Rounded(length) > 0
  {
  }

  lemma {:induction false} SaneIff(addr: U32, length: U32)
    ensures RangeOk(addr, length) <==> Sane(addr, length)
    ensures Sane(addr, length) ==> AlignUp(length) == Rounded(length)
  {
    RoundedIs(length);
  }

  ghost function EnvOf(mm: MmStruct): Env
    reads mm
  {
    Env(mm.brk, mm.startCode, mm.endCode, mm.startStack)
  }

  ghost function StateOf(mm: MmStruct): State
    reads mm
  {
    State(Meaning(mm.areas), mm.nextAnon)
  }

  /** The gap search starts at the lowest page above heap and code. */
  lemma {:induction false} GapStartIs(mm: MmStruct, s: nat)
    requires mm.brk < TASK_SIZE && mm.endCode < TASK_SIZE && s % 0x1000 == 0
    ensures s >= GapStart(mm) <==>
              && s >= 0x1000 && s >= (if mm.brk != 0 then mm.brk else 0x40_0000)
              && (mm.startCode != 0 && mm.endCode != 0 ==> s >= mm.endCode)
  {
    AlignLeast(mm.brk, s);
    AlignLeast(mm.endCode, s);
  }

  /** The least multiple of the page size that is not below `v`. */
  lemma {:induction false} AlignLeast(v: nat, s: nat)
    requires s % 0x1000 == 0 && v < TASK_SIZE
    ensures s >= AlignUp(v) <==> s >= v
  {
    var a, b := AlignUp(v) / 0x1000, s / 0x1000;
    assert AlignUp(v) == 0x1000 * a && s == 0x1000 * b;
  }

  lemma {:induction false} SpotIff(mm: MmStruct, len: nat, s: nat)
    requires mm.Valid() && len > 0
    ensures Place(mm, len, LimitOf(mm), s) <==> Spot(EnvOf(mm), Meaning(mm.areas), len, s)
  {
    if s % 0x1000 == 0 {
      GapStartIs(mm, s);
      FreeIff(mm.areas, s, s + len);
    }
  }

  // ------------------------------------------------------------------ single calls

  lemma {:induction false} MapMeans(A: seq<Area>, B: seq<Area>, lo: nat, hi: nat, flags: nat, next: nat, anon: nat)
    requires Sorted(A) && lo < hi && Maps(A, B, lo, hi, flags, anon)
    requires anon == Lineage(A, lo, hi, flags, FreshId(next))
    ensures MapEffect(State(Meaning(A), next), lo, hi, flags) ==
              State(Meaning(B), if Heir(A, lo, hi, flags) != 0 then next else (anon + 1) % WORD)
  {
    FreeIff(A, lo, hi);
    HeirIs(A, lo, hi, flags);
    var c := Meaning(A);
    assert Inherits(c, lo, hi, flags) == Heir(A, lo, hi, flags);
    assert MapEffect(State(c, next), lo, hi, flags).space == Meaning(B);
  }

  lemma {:induction false} MapDone(A: seq<Area>, B: seq<Area>, next: nat, next': nat, addr: U32, length: U32, prot: nat,
                                   r: nat, anon: nat)
    requires Sorted(A) && (r != 0 ==> Rounded(length) > 0)
    requires r == 0 || r + Rounded(length) >= WORD ==> B == A && next' == next
    requires r != 0 && r + Rounded(length) < WORD ==>
               var hi := r + Rounded(length);
               && Maps(A, B, r, hi, prot % 8, anon) && anon == Lineage(A, r, hi, prot % 8, FreshId(next))
               && next' == if Heir(A, r, hi, prot % 8) != 0 then next else (anon + 1) % WORD
    ensures State(Meaning(B), next') == Effect(State(Meaning(A), next), Map(addr, length, prot), r)
  {
    if r != 0 && r + Rounded(length) < WORD {
      MapMeans(A, B, r, r + Rounded(length), prot % 8, next, anon);
    }
  }

  lemma {:induction false} ChosenAnswers(mm: MmStruct, addr: U32, len: U32, r: nat)
    requires mm.Valid() && len > 0 && Chosen(mm, addr, len, r)
    ensures MapAnswers(EnvOf(mm), Meaning(mm.areas), addr, len, r)
  {
    if addr != 0 {
      FreeIff(mm.areas, addr, addr + len);
    } else {
      forall s: nat {
        SpotIff(mm, len, s);
      }
    }
  }

  method MapCall(mm: MmStruct, addr: U32, length: U32, prot: nat) returns (r: U32)
    requires mm.Valid()
    modifies mm`mmap, mm`nodes, mm`list, mm`areas, mm`nextAnon
    ensures mm.Valid() && Answers(EnvOf(mm), old(StateOf(mm)), Map(addr, length, prot), r)
    ensures StateOf(mm) == Effect(old(StateOf(mm)), Map(addr, length, prot), r)
  {
    RoundedIs(length);
    ghost var len := Rounded(length);
    forall q: nat {:trigger Chosen(mm, addr, len, q)} | 0 < length <= 0xFFFF_F000 && Chosen(mm, addr, len, q)
      ensures MapAnswers(EnvOf(mm), Meaning(mm.areas), addr, len, q)
    {
      ChosenAnswers(mm, addr, len, q);
    }
    ghost var anon, A, next := 0, mm.areas, mm.nextAnon;
    r, anon := DoMmap(mm, addr, length, prot);
    MapDone(A, mm.areas, next, mm.nextAnon, addr, length, prot, r, anon);
  }

  method UnmapCall(mm: MmStruct, addr: U32, length: U32) returns (r: int)
    requires mm.Valid()
    modifies mm`mmap, mm`nodes, mm`list, mm`areas
    ensures mm.Valid() && Answers(EnvOf(mm), old(StateOf(mm)), Unmap(addr, length), r)
    ensures StateOf(mm) == Effect(old(StateOf(mm)), Unmap(addr, length), r)
  {
    SaneIff(addr, length);
    r := DoMunmap(mm, addr, length);
    assert r == 0 ==> Meaning(mm.areas) == Effect(old(StateOf(mm)), Unmap(addr, length), r).space;
  }

  method ProtectCall(mm: MmStruct, addr: U32, length: U32, prot: nat) returns (r: int)
    requires mm.Valid()
    modifies mm`mmap, mm`nodes, mm`list, mm`areas
    ensures mm.Valid() && Answers(EnvOf(mm), old(StateOf(mm)), Protect(addr, length, prot), r)
    ensures StateOf(mm) == Effect(old(StateOf(mm)), Protect(addr, length, prot), r)
  {
    SaneIff(addr, length);
    if Sane(addr, length) {
      RoundedIs(length);
      CoveredIff(mm.areas, addr, addr + Rounded(length));
    }
    r := DoMprotect(mm, addr, length, prot);
    assert r == 1 ==> Meaning(mm.areas) == Effect(old(StateOf(mm)), Protect(addr, length, prot), r).space;
  }

  method RemapCall(mm: MmStruct, addr: U32, oldLength: U32, newLength: U32) returns (r: U32)
    requires mm.Valid()
    modifies mm`mmap, mm`nodes, mm`list, mm`areas
    ensures mm.Valid() && Answers(EnvOf(mm), old(StateOf(mm)), Remap(addr, oldLength, newLength), r)
    ensures StateOf(mm) == Effect(old(StateOf(mm)), Remap(addr, oldLength, newLength), r)
  {
    ghost var A, k := mm.areas, 0;
    Granting(A, LimitOf(mm), addr, oldLength, newLength);
    r, k := DoMremap(mm, addr, oldLength, newLength);
    RemapDone(A, mm.areas, k, mm.nextAnon, addr, oldLength, newLength, r);
  }

  lemma {:induction false} RemapDone(A: seq<Area>, B: seq<Area>, k: nat, next: nat, addr: U32, oldLength: U32,
                                     newLength: U32, r: nat)
    requires Tidy(A) && (r != 0 ==> oldLength > 0 && newLength > 0)
    requires r == 0 || Rounded(oldLength) == Rounded(newLength) ==> B == A
    requires r != 0 && Rounded(oldLength) != Rounded(newLength) ==>
               && k < |A| && A[k].start <= addr && addr + Rounded(oldLength) <= A[k].end
               && Resizes(A, B, k, addr + Rounded(newLength))
               && (Rounded(newLength) > Rounded(oldLength) ==> A[k].end == addr + Rounded(oldLength))
    ensures State(Meaning(B), next) == Effect(State(Meaning(A), next), Remap(addr, oldLength, newLength), r)
  {
    if r != 0 && Rounded(oldLength) != Rounded(newLength) {
      Resized(A, B, k, addr, Rounded(oldLength), Rounded(newLength));
    }
  }

  /** When a resize is granted, seen from the addresses. */
  lemma {:induction false} Granting(A: seq<Area>, limit: nat, addr: U32, oldLength: U32, newLength: U32)
    requires Tidy(A)
    ensures Grants(A, limit, addr, oldLength, newLength) <==>
              && Sane(addr, oldLength) && Sane(addr, newLength) && Same(Meaning(A), addr, addr + Rounded(oldLength))
              && (Rounded(newLength) > Rounded(oldLength) ==>
                    && addr + Rounded(newLength) <= limit
                    && Free(Meaning(A), addr + Rounded(oldLength), addr + Rounded(newLength)))
    ensures Sane(addr, oldLength) ==> AlignUp(oldLength) == Rounded(oldLength)
    ensures Sane(addr, newLength) ==> AlignUp(newLength) == Rounded(newLength)
  {
    SaneIff(addr, oldLength);
    SaneIff(addr, newLength);
    if Sane(addr, oldLength) && Sane(addr, newLength) {
      RoundedIs(oldLength);
      CoveredIff(A, addr, addr + Rounded(oldLength));
      if Rounded(newLength) > Rounded(oldLength) {
        FreeIff(A, addr + Rounded(oldLength), addr + Rounded(newLength));
      }
    }
  }

  lemma {:induction false} Resized(A: seq<Area>, B: seq<Area>, k: nat, addr: nat, oldLen: nat, newLen: nat)
    requires Tidy(A) && k < |A| && A[k].start <= addr && addr + oldLen <= A[k].end && oldLen > 0 && newLen != oldLen
    requires Resizes(A, B, k, addr + newLen) && newLen > 0 && (newLen > oldLen ==> A[k].end == addr + oldLen)
    ensures newLen > oldLen ==> Meaning(B) == Grown(Meaning(A), addr, addr + oldLen, addr + newLen)
    ensures newLen < oldLen ==> Meaning(B) == Trimmed(Meaning(A), addr, addr + newLen)
  {
    forall x: nat | A[k].start <= x < A[k].end
      ensures At(A, x) == Mapped(A[k].flags, A[k].anon)
    {
      AtIndex(A, k, x);
    }
    forall x: nat | addr <= x
      ensures Reaches(Meaning(A), addr, x) <==> x < A[k].end
    {
      InOneArea(A, k, addr, x + 1);
    }
  }

  // ------------------------------------------------------------------ runs

  method Step(mm: MmStruct, call: Call) returns (r: int)
    requires mm.Valid()
    modifies mm`mmap, mm`nodes, mm`list, mm`areas, mm`nextAnon
    ensures mm.Valid() && Answers(EnvOf(mm), old(StateOf(mm)), call, r)
    ensures StateOf(mm) == Effect(old(StateOf(mm)), call, r)
  {
    match call
    case Map(addr, length, prot) => r := MapCall(mm, addr, length, prot);
    case Unmap(addr, length) => r := UnmapCall(mm, addr, length);
    case Protect(addr, length, prot) => r := ProtectCall(mm, addr, length, prot);
    case Remap(addr, oldLength, newLength) => r := RemapCall(mm, addr, oldLength, newLength);
  }

  ghost function EffectAll(s: State, calls: seq<Call>, rs: seq<int>): State
    requires |rs| == |calls|
  {
    if calls == [] then s
    else Effect(EffectAll(s, calls[..|calls| - 1], rs[..|rs| - 1]), calls[|calls| - 1], rs[|rs| - 1])
  }

  /** Result `i` is right for what the calls before it made of the space. */
  ghost predicate RightAt(e: Env, s: State, calls: seq<Call>, rs: seq<int>, i: nat)
    requires i < |rs| <= |calls|
  {
    Answers(e, EffectAll(s, calls[..i], rs[..i]), calls[i], rs[i])
  }

  /** Every run: the list stays sorted, page-aligned, disjoint, free of mergeable neighbours and in the user's part of
      the address space, it means what the calls with their results make of a function from addresses to mappings, and
      every result is right for that function. */
  method Run(mm: MmStruct, calls: seq<Call>) returns (rs: seq<int>)
    requires mm.Valid()
    modifies mm`mmap, mm`nodes, mm`list, mm`areas, mm`nextAnon
    ensures mm.Valid() && |rs| == |calls| && StateOf(mm) == EffectAll(old(StateOf(mm)), calls, rs)
    ensures forall i | 0 <= i < |calls| :: RightAt(EnvOf(mm), old(StateOf(mm)), calls, rs, i)
  {
    rs := [];
    ghost var e, s := EnvOf(mm), StateOf(mm);
    assert calls[..0] == [];
    var i := 0;
    while i < |calls|
      invariant i == |rs| <= |calls| && mm.Valid() && EnvOf(mm) == e && StateOf(mm) == EffectAll(s, calls[..i], rs)
      invariant forall j | 0 <= j < i :: RightAt(e, s, calls, rs, j)
    {
      var r := Step(mm, calls[i]);
      Snoc(e, s, calls, rs, i, r);
      rs := rs + [r];
      i := i + 1;
    }
    assert calls[..i] == calls;
  }

  lemma {:induction false} Snoc(e: Env, s: State, calls: seq<Call>, rs: seq<int>, i: nat, r: int)
    requires i == |rs| < |calls| && Answers(e, EffectAll(s, calls[..i], rs), calls[i], r)
    requires forall j | 0 <= j < i :: RightAt(e, s, calls, rs, j)
    ensures EffectAll(s, calls[..i + 1], rs + [r]) == Effect(EffectAll(s, calls[..i], rs), calls[i], r)
    ensures forall j | 0 <= j < i + 1 :: RightAt(e, s, calls, rs + [r], j)
  {
    assert calls[..i + 1][..i] == calls[..i] && (rs + [r])[..i] == rs;
    forall j | 0 <= j < i
      ensures RightAt(e, s, calls, rs + [r], j)
    {
      assert RightAt(e, s, calls, rs, j) && (rs + [r])[..j] == rs[..j];
    }
  }

  /** The call leaves a mapped address alone: it is no mremap, and no munmap or mprotect of a range with the address. */
  predicate Avoids(call: Call, x: nat) {
    && !call.Remap?
    && (call.Unmap? || call.Protect? ==> !(call.addr <= x < call.addr + Rounded(call.length)))
  }

  /** What is mapped and avoided by all calls stays as it is, whatever else is mapped. */
  lemma {:induction false} Untouched(e: Env, s: State, calls: seq<Call>, rs: seq<int>, x: nat)
    requires |rs| == |calls| && On(s.space, x) != Hole
    requires forall i | 0 <= i < |calls| :: RightAt(e, s, calls, rs, i) && Avoids(calls[i], x)
    ensures On(EffectAll(s, calls, rs).space, x) == On(s.space, x)
    decreases |calls|
  {
    if calls != [] {
      var n := |calls| - 1;
      forall i | 0 <= i < n
        ensures RightAt(e, s, calls[..n], rs[..n], i) && Avoids(calls[..n][i], x)
      {
        assert RightAt(e, s, calls, rs, i) && calls[..n][..i] == calls[..i] && rs[..n][..i] == rs[..i];
      }
      Untouched(e, s, calls[..n], rs[..n], x);
      assert RightAt(e, s, calls, rs, n);
      Passed(e, EffectAll(s, calls[..n], rs[..n]), calls[n], rs[n], x);
    }
  }

  lemma {:induction false} Passed(e: Env, s: State, call: Call, r: int, x: nat)
    requires On(s.space, x) != Hole && Answers(e, s, call, r) && Avoids(call, x)
    ensures On(Effect(s, call, r).space, x) == On(s.space, x)
  {
  }

  // ------------------------------------------------------------------ what the caller gets

  /** An access of a kind is granted exactly if its bit was asked for: 1 for reading, 2 for writing, 4 for execution. */
  predicate Granted(prot: nat, isWrite: bool, isExec: bool) {
    (if isWrite then prot / 2 % 2 == 1 else prot % 2 == 1) && (isExec ==> prot / 4 % 2 == 1)
  }

  lemma {:induction false} Bits(prot: nat)
    ensures prot % 8 % 2 == prot % 2 && prot % 8 / 2 % 2 == prot / 2 % 2 && prot % 8 / 4 % 2 == prot / 4 % 2
  {
    LowBits(prot / 8, prot % 8);
  }

  method MapThenAccess(mm: MmStruct, addr: U32, length: U32, prot: nat, x: nat, isWrite: bool, isExec: bool)
    returns (r: U32, ok: bool)
    requires mm.Valid()
    modifies mm`mmap, mm`nodes, mm`list, mm`areas, mm`nextAnon
    ensures mm.Valid()
    ensures 0 < r <= x < r + length && r + length <= 0xFFFF_F000 ==> ok == Granted(prot, isWrite, isExec)
  {
    RoundedIs(length);
    Bits(prot);
    ghost var anon;
    r, anon := DoMmap(mm, addr, length, prot);
    ok := Allows(mm, x, isWrite, isExec);
  }

  method ProtectThenAccess(mm: MmStruct, addr: U32, length: U32, prot: nat, x: nat, isWrite: bool, isExec: bool)
    returns (r: int, ok: bool)
    requires mm.Valid()
    modifies mm`mmap, mm`nodes, mm`list, mm`areas
    ensures mm.Valid() && (r == 1 && addr <= x < addr + length ==> ok == Granted(prot, isWrite, isExec))
  {
    SaneIff(addr, length);
    Bits(prot);
    r := DoMprotect(mm, addr, length, prot);
    ok := Allows(mm, x, isWrite, isExec);
  }
}
