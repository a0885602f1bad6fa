/** Whole runs of driver and device, as changes of two queues. Nothing here mentions descriptors, slots or indices. */
module VringRuns {
  import opened VringModel
  import opened Vring

  datatype Op = AddOp(bs: seq<Buf>) | TakeOp | UseOp(head: nat, len: nat) | GetOp | FreeOp(head: nat)

  /** The result of a step, with the chain, the length and the buffers where it has them. */
  datatype Res = Res(r: int, head: nat, len: nat, bs: seq<Buf>)

  /** The number of free descriptors, the buffers of each outstanding chain and how far it has come, and the chains and
      completions on their way. */
  datatype Wire = Wire(free: nat, chains: map<nat, seq<Buf>>, stage: map<nat, Stage>, pending: seq<nat>,
                       done: seq<Elem>)

  predicate At(w: Wire, head: nat, st: Stage) {
    head in w.stage && w.stage[head] == st
  }

  /** What a step with this result does to the queues. */
  function After(w: Wire, op: Op, res: Res): Wire {
    match op
    case AddOp(bs) =>
      if res.r != 0 || |bs| > w.free then w
      else Wire(w.free - |bs|, w.chains[res.head := bs], w.stage[res.head := Posted], w.pending + [res.head], w.done)
    case TakeOp =>
      if res.r != 1 || w.pending == [] then w
      else w.(stage := w.stage[w.pending[0] := Taken], pending := w.pending[1..])
    case UseOp(head, len) =>
      if res.r != 1 then w
      else w.(stage := w.stage[head := Used], done := w.done + [Elem(head, len)])
    case GetOp =>
      if res.r != 1 || w.done == [] then w
      else w.(stage := w.stage[w.done[0].id := Seen], done := w.done[1..])
    case FreeOp(head) =>
      if res.r != 1 || head !in w.chains then w
      else Wire(w.free + |w.chains[head]|, w.chains - {head}, w.stage - {head}, w.pending, w.done)
  }

  /** The result that a step must have: a request is taken exactly if there is room, the device takes the chain offered
      first and finds its buffers, and the driver gets the completion sent first. */
  predicate Right(w: Wire, op: Op, res: Res) {
    match op
    case AddOp(bs) =>
      res.r == (if 0 < |bs| <= w.free then 0 else -1) && (res.r == 0 ==> res.head !in w.stage)
    case TakeOp =>
      if w.pending == [] then res.r == 0
      else res.r == 1 && res.head == w.pending[0] && res.head in w.chains && res.bs == w.chains[res.head]
    case UseOp(head, len) =>
      res.r == if At(w, head, Taken) then 1 else 0
    case GetOp =>
      if w.done == [] then res.r == 0 else res.r == 1 && Elem(res.head, res.len) == w.done[0]
    case FreeOp(head) =>
      res.r == if At(w, head, Seen) then 1 else 0
  }

  function AfterAll(w: Wire, ops: seq<Op>, rs: seq<Res>): Wire
    requires |rs| == |ops|
  {
    if ops == [] then w
    else After(AfterAll(w, ops[..|ops| - 1], rs[..|rs| - 1]), ops[|ops| - 1], rs[|rs| - 1])
  }

  predicate RightAt(w: Wire, ops: seq<Op>, rs: seq<Res>, i: nat)
    requires i < |rs| <= |ops|
  {
    Right(AfterAll(w, ops[..i], rs[..i]), ops[i], rs[i])
  }

  // ------------------------------------------------------------------ what goes in comes out

  /** Chains the driver offered and the device took, completions of the device and those the driver got. */
  datatype Log = Log(posted: seq<nat>, taken: seq<nat>, used: seq<Elem>, got: seq<Elem>)

  function LogOf(op: Op, res: Res): Log {
    match op
    case AddOp(bs) => Log(if res.r == 0 then [res.head] else [], [], [], [])
    case TakeOp => Log([], if res.r == 1 then [res.head] else [], [], [])
    case UseOp(head, len) => Log([], [], if res.r == 1 then [Elem(head, len)] else [], [])
    case GetOp => Log([], [], [], if res.r == 1 then [Elem(res.head, res.len)] else [])
    case FreeOp(_) => Log([], [], [], [])
  }

  function LogAll(ops: seq<Op>, rs: seq<Res>): Log
    requires |rs| == |ops|
  {
    if ops == [] then Log([], [], [], [])
    else Append(LogAll(ops[..|ops| - 1], rs[..|rs| - 1]), LogOf(ops[|ops| - 1], rs[|rs| - 1]))
  }

  function Append(a: Log, b: Log): Log {
    Log(a.posted + b.posted, a.taken + b.taken, a.used + b.used, a.got + b.got)
  }

  /** What was waiting and what went in is what came out, in order, and what waits now. */
  ghost predicate Fifo(w: Wire, log: Log, w': Wire) {
    w.pending + log.posted == log.taken + w'.pending && w.done + log.used == log.got + w'.done
  }

  lemma {:induction false} FifoAppend(w: Wire, a: Log, w': Wire, b: Log, w'': Wire)
    requires Fifo(w, a, w') && Fifo(w', b, w'')
    ensures Fifo(w, Append(a, b), w'')
  {
    Onward(w.pending, a.posted, a.taken, w'.pending, b.posted, b.taken, w''.pending);
    Onward(w.done, a.used, a.got, w'.done, b.used, b.got, w''.done);
  }

  lemma {:induction false} Onward<T>(w: seq<T>, ins: seq<T>, outs: seq<T>, d: seq<T>, u: seq<T>, o: seq<T>, d': seq<T>)
    requires w + ins == outs + d && d + u == o + d'
    ensures w + (ins + u) == (outs + o) + d'
  {
    assert w + (ins + u) == (w + ins) + u;
    assert (outs + d) + u == outs + (d + u);
    assert outs + (o + d') == (outs + o) + d';
  }

  lemma {:induction false} FifoStep(w: Wire, op: Op, res: Res)
    requires Right(w, op, res)
    ensures Fifo(w, LogOf(op, res), After(w, op, res))
  {
  }

  /** Over a whole run the device takes the chains the driver offers, and the driver gets the device's completions, in
      order and each once, and the rest is waiting. */
  lemma {:induction false} FifoAll(w: Wire, ops: seq<Op>, rs: seq<Res>)
    requires |rs| == |ops| && forall i | 0 <= i < |ops| :: RightAt(w, ops, rs, i)
    ensures Fifo(w, LogAll(ops, rs), AfterAll(w, ops, rs))
    decreases |ops|
  {
    if ops != [] {
      var n := |ops| - 1;
      forall i | 0 <= i < n
        ensures RightAt(w, ops[..n], rs[..n], i)
      {
        assert RightAt(w, ops, rs, i) && ops[..n][..i] == ops[..i] && rs[..n][..i] == rs[..i];
      }
      FifoAll(w, ops[..n], rs[..n]);
      assert RightAt(w, ops, rs, n);
      FifoStep(AfterAll(w, ops[..n], rs[..n]), ops[n], rs[n]);
      FifoAppend(w, LogAll(ops[..n], rs[..n]), AfterAll(w, ops[..n], rs[..n]), LogOf(ops[n], rs[n]),
                 AfterAll(w, ops, rs));
    }
  }

  // ------------------------------------------------------------------ runs of the queue itself

  ghost function ChainsOf(stage: map<nat, Stage>, bufs: map<nat, seq<Buf>>): map<nat, seq<Buf>> {
    map h | h in stage && h in bufs :: bufs[h]
  }

  ghost function W(vq: Virtqueue): Wire
    reads vq
  {
    Wire(vq.numFree, ChainsOf(vq.stage, vq.bufs), vq.stage, vq.pending, vq.done)
  }

  twostate predicate Did(vq: Virtqueue, op: Op, res: Res)
    reads vq
  {
    vq.Valid() && Right(old(W(vq)), op, res) && W(vq) == After(old(W(vq)), op, res)
  }

  method DoAdd(vq: Virtqueue, bs: seq<Buf>) returns (res: Res)
    requires vq.Valid()
    modifies vq
    ensures Did(vq, AddOp(bs), res)
  {
    var r, head := vq.AddBuf(bs);
    res := Res(r, head, 0, []);
    assert r == 0 ==> W(vq).chains == old(W(vq)).chains[head := bs];
  }

  method DoTake(vq: Virtqueue) returns (res: Res)
    requires vq.Valid()
    modifies vq
    ensures Did(vq, TakeOp, res)
  {
    Offered(vq);
    var r, head, bs := vq.DeviceTake();
    res := Res(r, head, 0, bs);
    assert W(vq).chains == old(W(vq)).chains;
  }

  /** The chain offered first is outstanding. */
  lemma {:induction false} Offered(vq: Virtqueue)
    requires vq.Valid()
    ensures vq.pending != [] ==> vq.pending[0] in vq.stage
  {
    if vq.pending != [] {
      assert vq.pending[0] in vq.pending;
    }
  }

  method DoUse(vq: Virtqueue, head: nat, len: nat) returns (res: Res)
    requires vq.Valid()
    modifies vq
    ensures Did(vq, UseOp(head, len), res)
  {
    res := Res(0, 0, 0, []);
    if head in vq.stage && vq.stage[head] == Taken {
      vq.DeviceUse(head, len);
      res := Res(1, 0, 0, []);
      assert W(vq).chains == old(W(vq)).chains;
    }
  }

  method DoGet(vq: Virtqueue) returns (res: Res)
    requires vq.Valid()
    modifies vq
    ensures Did(vq, GetOp, res)
  {
    var r, head, len := vq.GetBuf();
    res := Res(r, head, len, []);
    assert W(vq).chains == old(W(vq)).chains;
  }

  method DoFree(vq: Virtqueue, head: nat) returns (res: Res)
    requires vq.Valid()
    modifies vq
    ensures Did(vq, FreeOp(head), res)
  {
    res := Res(0, 0, 0, []);
    if head in vq.stage && vq.stage[head] == Seen {
      assert Described(vq.desc, vq.parts, vq.bufs, head);
      vq.FreeChain(head);
      res := Res(1, 0, 0, []);
      assert W(vq).chains == old(W(vq)).chains - {head};
    }
  }

  /** One step; one that its party could not take does nothing. */
  method Step(vq: Virtqueue, op: Op) returns (res: Res)
    requires vq.Valid()
    modifies vq
    ensures Did(vq, op, res)
  {
    match op
    case AddOp(bs) => res := DoAdd(vq, bs);
    case TakeOp => res := DoTake(vq);
    case UseOp(head, len) => res := DoUse(vq, head, len);
    case GetOp => res := DoGet(vq);
    case FreeOp(head) => res := DoFree(vq, head);
  }

  lemma {:induction false} Snoc(w: Wire, ops: seq<Op>, rs: seq<Res>, i: nat, res: Res)
    requires i == |rs| < |ops| && Right(AfterAll(w, ops[..i], rs), ops[i], res)
    requires forall j | 0 <= j < i :: RightAt(w, ops, rs, j)
    ensures AfterAll(w, ops[..i + 1], rs + [res]) == After(AfterAll(w, ops[..i], rs), ops[i], res)
    ensures forall j | 0 <= j < i + 1 :: RightAt(w, ops, rs + [res], j)
  {
    assert ops[..i + 1][..i] == ops[..i] && (rs + [res])[..i] == rs;
    forall j | 0 <= j < i
      ensures RightAt(w, ops, rs + [res], j)
    {
      assert RightAt(w, ops, rs, j) && (rs + [res])[..j] == rs[..j];
    }
  }

  /** Any run of the driver and the device does to the rings, across any wrap of the 16-bit indices, what its steps with
      their results do to two queues, and every result is the right one. Never more chains are outstanding than there
      are descriptors. */
  method Run(vq: Virtqueue, ops: seq<Op>) returns (rs: seq<Res>)
    requires vq.Valid()
    modifies vq
    ensures vq.Valid() && |rs| == |ops| && W(vq) == AfterAll(old(W(vq)), ops, rs)
    ensures forall i | 0 <= i < |ops| :: RightAt(old(W(vq)), ops, rs, i)
    ensures Fifo(old(W(vq)), LogAll(ops, rs), W(vq)) && |vq.stage| + vq.numFree <= vq.num
  {
    rs := [];
    ghost var w := W(vq);
    assert ops[..0] == [];
    var i := 0;
    while i < |ops|
      invariant i == |rs| <= |ops| && vq.Valid() && W(vq) == AfterAll(w, ops[..i], rs)
      invariant forall j | 0 <= j < i :: RightAt(w, ops, rs, j)
    {
      var res := Step(vq, ops[i]);
      Snoc(w, ops, rs, i, res);
      rs := rs + [res];
      i := i + 1;
    }
    assert ops[..i] == ops;
    FifoAll(w, ops, rs);
    Outstanding(vq.parts, vq.stage);
  }
}
