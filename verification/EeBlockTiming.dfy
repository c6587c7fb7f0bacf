/** The cycle account of an EE basic block: issue time in eighths of a cycle, committed in whole cycles. */
module EeBlockTiming {
  import opened Instructions

  const TICKS_PER_CYCLE: int := 8

  datatype Block = Block(ticks: uint32, active: bool)

  datatype Op =
    | Advance(dualIssueTicks: uint32)
    | Commit

  /** COP0 Config bit 18 set means dual issue; without it every tick counts twice. */
  function IssueScale(config: uint32): (s: int)
    ensures 1 <= s <= 2
  {
    2 - config / 0x4_0000 % 2
  }

  /** Both the product and the sum are 32-bit. */
  function AdvanceBlock(b: Block, config: uint32, dualIssueTicks: uint32): Block {
    Block(Wrap32(b.ticks + Wrap32(dualIssueTicks * IssueScale(config))), true)
  }

  /** Cycles a commit or a block end hands out: whole cycles, but at least one. */
  function CommittedCycles(b: Block): nat {
    if !b.active then 0 else if b.ticks / TICKS_PER_CYCLE < 1 then 1 else b.ticks / TICKS_PER_CYCLE
  }

  /** A commit keeps the fraction; ending the block discards it. */
  function AfterCommit(b: Block): Block {
    if b.active then b.(ticks := b.ticks % TICKS_PER_CYCLE) else b
  }

  function StepBlock(b: Block, config: uint32, op: Op): Block {
    match op
    case Advance(x) => AdvanceBlock(b, config, x)
    case Commit => AfterCommit(b)
  }

  // ---- What the account is worth ------------------------------------------------------------

  /** Cycles handed out by the commits of a run, and by the end of the block behind it. */
  function CyclesOf(b: Block, config: uint32, ops: seq<Op>): nat
    decreases |ops|
  {
    if ops == [] then CommittedCycles(b)
    else (if ops[0].Commit? then CommittedCycles(b) else 0)
         + CyclesOf(StepBlock(b, config, ops[0]), config, ops[1..])
  }

  /** Ticks the run issued, without any 32-bit limit. */
  function IssuedTicks(config: uint32, ops: seq<Op>): nat
    decreases |ops|
  {
    if ops == [] then 0
    else (if ops[0].Advance? then ops[0].dualIssueTicks * IssueScale(config) else 0) + IssuedTicks(config, ops[1..])
  }

  /** Commits, and the block end, that had less than a cycle to hand out and rounded it up to one. */
  function RoundedUp(b: Block, config: uint32, ops: seq<Op>): nat
    decreases |ops|
  {
    var here := if b.active && b.ticks < TICKS_PER_CYCLE then 1 else 0;
    if ops == [] then here
    else (if ops[0].Commit? then here else 0) + RoundedUp(StepBlock(b, config, ops[0]), config, ops[1..])
  }

  /** Times the 32-bit tick accumulator went around. */
  function Wraps(b: Block, config: uint32, ops: seq<Op>): nat
    decreases |ops|
  {
    if ops == [] then 0
    else (if ops[0].Advance? then (b.ticks + ops[0].dualIssueTicks * IssueScale(config)) / TWO_32 else 0)
         + Wraps(StepBlock(b, config, ops[0]), config, ops[1..])
  }

  lemma AdvanceExact(b: Block, config: uint32, x: uint32)
    ensures var sum := b.ticks + x * IssueScale(config);
            AdvanceBlock(b, config, x).ticks == sum - TWO_32 * (sum / TWO_32)
  {
    if IssueScale(config) == 1 {
      assert Wrap32(x * 1) == x;
    } else {
      assert x * 2 == x + x;
    }
  }

  /** Nothing is lost or made up but the rounding and the wraps: the end of the block has `rest`
      ticks left to discard. */
  lemma {:induction false} AccountBalances(b: Block, config: uint32, ops: seq<Op>) returns (rest: nat)
    requires b.active || b.ticks == 0
    ensures rest < TICKS_PER_CYCLE
    ensures b.ticks + IssuedTicks(config, ops) + TICKS_PER_CYCLE * RoundedUp(b, config, ops)
            == TICKS_PER_CYCLE * CyclesOf(b, config, ops) + TWO_32 * Wraps(b, config, ops) + rest
    decreases |ops|
  {
    if ops == [] {
      rest := b.ticks % TICKS_PER_CYCLE;
    } else {
      rest := AccountBalances(StepBlock(b, config, ops[0]), config, ops[1..]);
      if ops[0].Advance? {
        AdvanceExact(b, config, ops[0].dualIssueTicks);
      }
    }
  }

  /** Main result: a block that starts with no ticks hands out, commits and end together, its issued
      ticks in whole cycles, plus one for every time less than a cycle was rounded up, minus
      2^32 ticks' worth of cycles for every wrap of the accumulator. */
  lemma BlockAccount(active: bool, config: uint32, ops: seq<Op>)
    ensures var b := Block(0, active);
            CyclesOf(b, config, ops)
            == IssuedTicks(config, ops) / TICKS_PER_CYCLE + RoundedUp(b, config, ops)
               - TWO_32 / TICKS_PER_CYCLE * Wraps(b, config, ops)
  {
    var rest := AccountBalances(Block(0, active), config, ops);
  }

  /** So the account is exact if and only if the accumulator never wraps. */
  lemma BlockAccountExactIff(active: bool, config: uint32, ops: seq<Op>)
    ensures var b := Block(0, active);
            CyclesOf(b, config, ops) == IssuedTicks(config, ops) / TICKS_PER_CYCLE + RoundedUp(b, config, ops)
            <==> Wraps(b, config, ops) == 0
  {
    BlockAccount(active, config, ops);
  }

  /** It cannot wrap while the ticks issued in all stay below 2^32. */
  lemma {:induction false} SmallBlockNeverWraps(b: Block, config: uint32, ops: seq<Op>)
    requires b.ticks + IssuedTicks(config, ops) < TWO_32
    ensures Wraps(b, config, ops) == 0
    decreases |ops|
  {
    if ops != [] {
      if ops[0].Advance? {
        AdvanceExact(b, config, ops[0].dualIssueTicks);
      }
      SmallBlockNeverWraps(StepBlock(b, config, ops[0]), config, ops[1..]);
    }
  }

  /** Two advances in dual issue that wrap it: 2^32 ticks hand out a single cycle. */
  lemma WrappingBlock()
    ensures var ops := [Advance(0xFFFF_FFFF), Advance(1)];
            var b := Block(0, false);
            && Wraps(b, 0x4_0000, ops) == 1
            && IssuedTicks(0x4_0000, ops) == TWO_32
            && CyclesOf(b, 0x4_0000, ops) == 1
  {
    var ops := [Advance(0xFFFF_FFFF), Advance(1)];
    var b := Block(0, false);
    assert ops[1..] == [Advance(1)] && ops[1..][1..] == [];
    assert StepBlock(b, 0x4_0000, ops[0]) == Block(0xFFFF_FFFF, true);
    assert StepBlock(Block(0xFFFF_FFFF, true), 0x4_0000, Advance(1)) == Block(0, true);
    assert Wraps(Block(0xFFFF_FFFF, true), 0x4_0000, ops[1..]) == 1;
    assert IssuedTicks(0x4_0000, ops[1..]) == 1;
    assert CyclesOf(Block(0xFFFF_FFFF, true), 0x4_0000, ops[1..]) == CyclesOf(Block(0, true), 0x4_0000, []);
  }

  /** An issue slot is an eighth of a cycle under dual issue, a quarter without, and a commit hands out
      what has been issued. */
  lemma IssueIsCommitted(config: uint32, slots: nat)
    requires slots < 0x1000_0000
    ensures var b := AdvanceBlock(Block(0, false), config, slots);
            var ticks := if config / 0x4_0000 % 2 == 1 then slots else 2 * slots;
            && CommittedCycles(b) == (if ticks < 8 then 1 else ticks / 8)
            && AfterCommit(b) == Block(ticks % 8, true)
  {
    IssuedSlots(config, slots);
  }

  lemma IssuedSlots(config: uint32, slots: nat)
    requires slots < 0x1000_0000
    ensures AdvanceBlock(Block(0, false), config, slots)
            == Block(if config / 0x4_0000 % 2 == 1 then slots else 2 * slots, true)
  {
    if config / 0x4_0000 % 2 == 1 {
      assert IssueScale(config) == 1;
    } else {
      assert IssueScale(config) == 2;
    }
  }
}
