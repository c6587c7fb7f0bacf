/** Lazy retirement against eager retirement. */
module EeRetirement {
  import opened Instructions
  import opened EeRandom

  /** What generated code and the runtime do to the retirement state. */
  datatype Op =
    | Begin                     // a scalar instruction starts, everything before it is published
    | RetireMany(n: uint64)     // a run of batched instructions
    | Publish                   // Random is about to be observed
    | MoveToWired(value: uint32) // the MTC0 Wired instruction: Begin, then Wired and Random are written

  // ---- The lazy state -----------------------------------------------------------------------

  datatype Lazy = Lazy(random: uint32, wired: uint32, insnCount: uint64, pending: uint64)

  /** Applies the pending retirements to Random. */
  function Drain(s: Lazy): Lazy {
    s.(random := Retire(s.random, s.wired, s.pending), pending := 0)
  }

  function StepLazy(s: Lazy, op: Op): Lazy {
    match op
    case Begin =>
      Drain(s).(insnCount := Wrap64(s.insnCount + 1), pending := 1)
    case RetireMany(n) =>
      var t := if n > 0 && s.pending > TWO_64 - 1 - n then Drain(s) else s;
      t.(insnCount := Wrap64(t.insnCount + n), pending := t.pending + n)
    case Publish =>
      Drain(s)
    case MoveToWired(value) =>
      Drain(s).(insnCount := Wrap64(s.insnCount + 1), pending := 1, wired := value % 64, random := RANDOM_TOP)
  }

  function RunLazy(s: Lazy, ops: seq<Op>): Lazy
    decreases |ops|
  {
    if ops == [] then s else RunLazy(StepLazy(s, ops[0]), ops[1..])
  }

  // ---- The eager machine --------------------------------------------------------------------

  /** Random is up to date after every single instruction, and instructions are counted without bound. */
  datatype Eager = Eager(random: uint32, wired: uint32, retired: nat)

  function RetireEager(e: Eager, n: nat): Eager {
    e.(random := Retire(e.random, e.wired, n), retired := e.retired + n)
  }

  function StepEager(e: Eager, op: Op): Eager {
    match op
    case Begin => RetireEager(e, 1)
    case RetireMany(n) => RetireEager(e, n)
    case Publish => e
    case MoveToWired(value) => RetireEager(e.(wired := value % 64, random := RANDOM_TOP), 1)
  }

  function RunEager(e: Eager, ops: seq<Op>): Eager
    decreases |ops|
  {
    if ops == [] then e else RunEager(StepEager(e, ops[0]), ops[1..])
  }

  // ---- Refinement ---------------------------------------------------------------------------

  /** The eager state a lazy state stands for. */
  ghost predicate Represents(s: Lazy, e: Eager) {
    && e.random == Retire(s.random, s.wired, s.pending)
    && e.wired == s.wired
    && s.insnCount == Wrap64(e.retired)
  }

  lemma StepRefines(s: Lazy, e: Eager, op: Op)
    requires Represents(s, e)
    ensures Represents(StepLazy(s, op), StepEager(e, op))
  {
    match op
    case Begin =>
      Wrap64Adds(e.retired, 1);
    case RetireMany(n) =>
      Wrap64Adds(e.retired, n);
      RetireAdd(s.random, s.wired, s.pending, n);
    case Publish =>
    case MoveToWired(value) =>
      Wrap64Adds(e.retired, 1);
  }

  /** Main result: after any interleaving, the lazy state stands for the eager one; so once published,
      as it is when the next instruction begins and may read it, Random itself is the eager Random, and the counter is the number of retirements mod 2^64. */
  lemma {:induction false} RunRefines(s: Lazy, e: Eager, ops: seq<Op>)
    requires Represents(s, e)
    ensures Represents(RunLazy(s, ops), RunEager(e, ops))
    ensures StepLazy(RunLazy(s, ops), Publish).random == RunEager(e, ops).random
    ensures StepLazy(RunLazy(s, ops), Begin).random == RunEager(e, ops).random
    decreases |ops|
  {
    if ops != [] {
      StepRefines(s, e, ops[0]);
      RunRefines(StepLazy(s, ops[0]), StepEager(e, ops[0]), ops[1..]);
    }
  }

  /** How a run of instructions is cut into batches, with or without publishing in between, is
      unobservable. */
  lemma BatchingUnobservable(s: Lazy, m: uint64, n: uint64, k: uint64)
    requires m + n == k
    ensures Drain(RunLazy(s, [RetireMany(m), Publish, RetireMany(n)])) == Drain(RunLazy(s, [RetireMany(k)]))
    ensures Drain(RunLazy(s, [RetireMany(m), RetireMany(n)])) == Drain(RunLazy(s, [RetireMany(k)]))
  {
    var e := Eager(Retire(s.random, s.wired, s.pending), s.wired, s.insnCount);
    var with, without, whole := [RetireMany(m), Publish, RetireMany(n)], [RetireMany(m), RetireMany(n)], [RetireMany(k)];
    RunRefines(s, e, with);
    RunRefines(s, e, without);
    RunRefines(s, e, whole);
    assert with[1..] == [Publish, RetireMany(n)] && with[1..][1..] == [RetireMany(n)];
    assert without[1..] == [RetireMany(n)];
    RetireAdd(e.random, e.wired, m, n);
    assert RunEager(e, [RetireMany(n)]) == RetireEager(e, n);
    assert RunEager(e, with) == RunEager(e, without) == RunEager(e, whole);
  }
}
