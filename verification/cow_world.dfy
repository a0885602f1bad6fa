/** What fork, faults, loads, stores, mapping, unmapping and exit mean when every process has a memory of its own.
    Nothing here is shared: a cell belongs to one process, and sizes, limits and permission bits are plain numbers. */
module CowWorld {
  import opened CowModel

  /** One page of one process: its permissions, its lineage, its bytes, and whether it has a frame yet. */
  datatype Cell = Cell(flags: nat, anon: nat, bytes: Bytes, present: bool)

  datatype World = World(procs: set<nat>, cells: map<User, Cell>)

  datatype Op =
    | ForkOp(src: nat)
    | FaultOp(mm: nat, addr: nat, isWrite: bool, isExec: bool)
    | LoadOp(mm: nat, addr: nat)
    | StoreOp(mm: nat, addr: nat, b: bv8)
    | MapOp(mm: nat, lo: nat, hi: nat, flags: nat, anon: nat)
    | UnmapOp(mm: nat, addr: nat, length: nat)
    | ExitOp(mm: nat)

  /** The result of an operation; a load also has a byte. */
  datatype Res = Res(r: int, b: bv8)

  function PageOf(m: nat, addr: nat): User {
    User(m, addr / 0x1000 * 0x1000)
  }

  function Rounded(length: nat): nat {
    (length + 0xFFF) / 0x1000 * 0x1000
  }

  predicate InRange(u: User, m: nat, lo: nat, hi: nat) {
    u.mm == m && lo <= u.va < hi
  }

  /** The pages of a range. */
  function PagesIn(m: nat, lo: nat, hi: nat): set<User> {
    set va | lo <= va < hi && va % 0x1000 == 0 :: User(m, va)
  }

  function Put(bytes: Bytes, i: nat, b: bv8): Bytes {
    if i < |bytes| then bytes[i := b] else bytes
  }

  /** The cells of `src`, as cells of `c`. */
  function Clone(cells: map<User, Cell>, src: nat, c: nat): map<User, Cell> {
    map u | u in (set v | v in cells && v.mm == src :: User(c, v.va)) :: cells[User(src, u.va)]
  }

  /** The world after an operation with result `r`. */
  function After(w: World, op: Op, r: int): World {
    match op
    case ForkOp(src) =>
      if r <= 0 then w else World(w.procs + {r}, w.cells + Clone(w.cells, src, r))
    case FaultOp(m, addr, _, _) => if r != 1 then w else Bring(w, PageOf(m, addr))
    case LoadOp(m, addr) => if r != 1 then w else Bring(w, PageOf(m, addr))
    case StoreOp(m, addr, b) =>
      var p := PageOf(m, addr);
      if r != 1 || p !in w.cells then w
      else
        var bytes := Put(w.cells[p].bytes, addr % 0x1000, b);
        w.(cells := w.cells[p := w.cells[p].(bytes := bytes, present := true)])
    case MapOp(m, lo, hi, flags, anon) =>
      if r != 1 then w
      else w.(cells := w.cells + map u | u in PagesIn(m, lo, hi) :: Cell(flags, anon, seq(0x1000, _ => 0), false))
    case UnmapOp(m, addr, length) =>
      if r != 0 then w
      else w.(cells := map u | u in w.cells && !InRange(u, m, addr, addr + Rounded(length)) :: w.cells[u])
    case ExitOp(m) =>
      if r != 1 then w
      else World(w.procs - {m}, map u | u in w.cells && u.mm != m :: w.cells[u])
  }

  /** The page has a frame now. */
  function Bring(w: World, p: User): World {
    if p !in w.cells then w else w.(cells := w.cells[p := w.cells[p].(present := true)])
  }

  predicate Present(w: World, p: User) {
    p in w.cells && w.cells[p].present
  }

  function PresentPages(w: World): set<User> {
    set u | u in w.cells && w.cells[u].present
  }

  /** There may be no frame for one more page: as many pages have one as the machine has frames, or memory is
      withheld. */
  predicate Starved(n: nat, w: World, memory: bool) {
    !memory || |PresentPages(w)| >= n
  }

  /** The result is one that the operation may have in this world, on a machine with `n` frames. */
  predicate Allowed(n: nat, w: World, op: Op, memory: bool, res: Res) {
    match op
    case ForkOp(src) =>
      if res.r == 0 then src !in w.procs || !memory || |w.procs| >= 0xFFFF
      else res.r > 0 && src in w.procs && res.r !in w.procs
    case FaultOp(m, addr, isWrite, isExec) =>
      var p := PageOf(m, addr);
      && -1 <= res.r <= 1 && (res.r == -1 ==> Starved(n, w, memory))
      && (!MayAccess(w, p, isWrite, isExec) || (Present(w, p) && !isWrite) ==> res.r == 0)
      && (MayAccess(w, p, isWrite, isExec) && !Present(w, p) ==> res.r != 0)
    case LoadOp(m, addr) =>
      var p := PageOf(m, addr);
      && -1 <= res.r <= 1 && (res.r == -1 ==> Starved(n, w, memory))
      && (Present(w, p) ==> res.r == 1) && (p !in w.cells ==> res.r == 0)
      && (!Present(w, p) ==> (res.r == 0 <==> !MayAccess(w, p, false, false)))
      && (res.r == 1 ==> addr % 0x1000 < |w.cells[p].bytes| && res.b == w.cells[p].bytes[addr % 0x1000])
    case StoreOp(m, addr, b) =>
      var p := PageOf(m, addr);
      && -1 <= res.r <= 1 && (res.r == -1 ==> Starved(n, w, memory))
      && (res.r == 0 <==> !MayAccess(w, p, true, false))
      && (res.r == 1 ==> addr % 0x1000 < |w.cells[p].bytes|)
    case MapOp(m, lo, hi, flags, anon) =>
      res.r == if m in w.procs && lo < hi <= 0xC000_0000 && lo % 0x1000 == 0 && hi % 0x1000 == 0
                  && (forall u | u in w.cells :: !InRange(u, m, lo, hi)) then 1 else 0
    case UnmapOp(m, addr, length) =>
      res.r == if m in w.procs && length > 0 && addr >= 0x1000 && addr % 0x1000 == 0 && addr + length <= 0xFFFF_F000
               then 0 else -1
    case ExitOp(m) =>
      res.r == if m in w.procs then 1 else 0
  }

  /** Bit 0 permits reading, bit 1 writing, bit 2 execution. */
  predicate MayAccess(w: World, u: User, isWrite: bool, isExec: bool) {
    && u in w.cells && (if isWrite then w.cells[u].flags / 2 % 2 == 1 else w.cells[u].flags % 2 == 1)
    && (isExec ==> w.cells[u].flags / 4 % 2 == 1)
  }

  /** The operations one after the other, with their results. */
  function AfterAll(w: World, ops: seq<Op>, rs: seq<Res>): World
    requires |rs| == |ops|
  {
    if ops == [] then w
    else After(AfterAll(w, ops[..|ops| - 1], rs[..|rs| - 1]), ops[|ops| - 1], rs[|rs| - 1].r)
  }

  /** Result `i` fits the world that the operations before it lead to. */
  predicate AllowedAt(n: nat, w: World, ops: seq<Op>, memory: seq<bool>, rs: seq<Res>, i: nat)
    requires i < |rs| <= |ops| && |memory| == |ops|
  {
    Allowed(n, AfterAll(w, ops[..i], rs[..i]), ops[i], memory[i], rs[i])
  }

  // ------------------------------------------------------------------ isolation

  /** The operation is a change that the process asks for. */
  predicate Acts(op: Op, m: nat) {
    match op
    case StoreOp(k, _, _) => k == m
    case MapOp(k, _, _, _, _) => k == m
    case UnmapOp(k, _, _) => k == m
    case ExitOp(k) => k == m
    case _ => false
  }

  /** The process does nothing in the run. */
  predicate Idle(ops: seq<Op>, m: nat) {
    forall i | 0 <= i < |ops| :: !Acts(ops[i], m)
  }

  /** Process `k` of one world has the memory that `m` has in the other; which pages have a frame may differ. */
  ghost predicate SameMemory(w: World, m: nat, w': World, k: nat) {
    forall va: nat :: CellOf(w, User(m, va)) == CellOf(w', User(k, va))
  }

  ghost function CellOf(w: World, u: User): Option<Cell> {
    if u in w.cells then Some(w.cells[u].(present := false)) else None
  }

  lemma {:induction false} IdleStep(n: nat, w: World, op: Op, memory: bool, res: Res, m: nat)
    requires Allowed(n, w, op, memory, res) && m in w.procs && !Acts(op, m)
    ensures m in After(w, op, res.r).procs && SameMemory(w, m, After(w, op, res.r), m)
  {
    var w' := After(w, op, res.r);
    forall va: nat
      ensures CellOf(w, User(m, va)) == CellOf(w', User(m, va))
    {
      var u := User(m, va);
      assert u in w'.cells <==> u in w.cells;
    }
  }

  /** Whatever the others do, a process that does nothing keeps its memory. */
  lemma {:induction false} IdleKeeps(n: nat, w: World, ops: seq<Op>, memory: seq<bool>, rs: seq<Res>, m: nat)
    requires |memory| == |ops| == |rs| && m in w.procs && Idle(ops, m)
    requires forall i | 0 <= i < |ops| :: AllowedAt(n, w, ops, memory, rs, i)
    ensures m in AfterAll(w, ops, rs).procs && SameMemory(w, m, AfterAll(w, ops, rs), m)
    decreases |ops|
  {
    if ops != [] {
      var k := |ops| - 1;
      Shorter(n, w, ops, memory, rs);
      IdleKeeps(n, w, ops[..k], memory[..k], rs[..k], m);
      assert AllowedAt(n, w, ops, memory, rs, k) && !Acts(ops[k], m);
      IdleStep(n, AfterAll(w, ops[..k], rs[..k]), ops[k], memory[k], rs[k], m);
    }
  }

  lemma {:induction false} Shorter(n: nat, w: World, ops: seq<Op>, memory: seq<bool>, rs: seq<Res>)
    requires |memory| == |ops| == |rs| > 0 && forall i | 0 <= i < |ops| :: AllowedAt(n, w, ops, memory, rs, i)
    ensures var k := |ops| - 1; forall i | 0 <= i < k :: AllowedAt(n, w, ops[..k], memory[..k], rs[..k], i)
  {
    var k := |ops| - 1;
    forall i | 0 <= i < k
      ensures AllowedAt(n, w, ops[..k], memory[..k], rs[..k], i)
    {
      assert AllowedAt(n, w, ops, memory, rs, i) && ops[..k][..i] == ops[..i] && rs[..k][..i] == rs[..i];
    }
  }

  /** A fork is a snapshot: the child begins with the parent's memory, and nothing else changes. */
  lemma {:induction false} ForkCopies(n: nat, w: World, src: nat, memory: bool, res: Res)
    requires Allowed(n, w, ForkOp(src), memory, res) && res.r > 0 && (forall u | u in w.cells :: u.mm in w.procs)
    ensures SameMemory(w, src, After(w, ForkOp(src), res.r), res.r)
    ensures forall m | m in w.procs :: SameMemory(w, m, After(w, ForkOp(src), res.r), m)
  {
    var w' := After(w, ForkOp(src), res.r);
    forall va: nat
      ensures CellOf(w, User(src, va)) == CellOf(w', User(res.r, va))
    {
      var u := User(res.r, va);
      assert u in Clone(w.cells, src, res.r) <==> User(src, va) in w.cells;
    }
  }

  /** A store with result 1 changes that byte of that process, and nothing else. */
  lemma {:induction false} StoreChanges(n: nat, w: World, m: nat, addr: nat, b: bv8, memory: bool, res: Res, k: nat,
                                        x: nat)
    requires Allowed(n, w, StoreOp(m, addr, b), memory, res) && res.r == 1
    ensures ByteAt(After(w, StoreOp(m, addr, b), 1), k, x) == if k == m && x == addr then Some(b) else ByteAt(w, k, x)
  {
    assert addr == addr / 0x1000 * 0x1000 + addr % 0x1000 && x == x / 0x1000 * 0x1000 + x % 0x1000;
  }

  /** The byte at an address of a process. */
  ghost function ByteAt(w: World, m: nat, addr: nat): Option<bv8> {
    var p := PageOf(m, addr);
    if p in w.cells && addr % 0x1000 < |w.cells[p].bytes| then Some(w.cells[p].bytes[addr % 0x1000]) else None
  }
}
