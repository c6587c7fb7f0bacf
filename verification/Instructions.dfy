/** Decoded R5900 instructions, with the fields the analyses read, and the address arithmetic on them. */
module Instructions {

  const TWO_32: int := 0x1_0000_0000
  const TWO_64: int := 0x1_0000_0000_0000_0000

  type uint32 = x: int | 0 <= x < TWO_32
  type uint64 = x: int | 0 <= x < TWO_64

  /** A value reduced to 32 bits, as unsigned C++ arithmetic does. */
  function Wrap32(x: int): (r: uint32) { x % TWO_32 }

  function Wrap64(x: int): (r: uint64) { x % TWO_64 }

  lemma Wrap32Adds(x: int, n: int)
    ensures Wrap32(Wrap32(x) + n) == Wrap32(x + n)
  {
    var q := x / TWO_32;
    assert x + n == Wrap32(x) + n + q * TWO_32;
  }

  lemma Wrap64Adds(x: int, n: int)
    ensures Wrap64(Wrap64(x) + n) == Wrap64(x + n)
  {
    var q := x / TWO_64;
    assert x + n == Wrap64(x) + n + q * TWO_64;
  }

  const OPCODE_SPECIAL := 0x00
  const OPCODE_J := 0x02
  const OPCODE_JAL := 0x03
  const OPCODE_ADDIU := 0x09
  const OPCODE_ORI := 0x0D
  const OPCODE_LUI := 0x0F
  const OPCODE_BEQL := 0x14
  const OPCODE_BNEL := 0x15
  const OPCODE_BLEZL := 0x16
  const OPCODE_BGTZL := 0x17

  type Reg = r: int | 0 <= r < 32
  type Imm16 = x: int | 0 <= x < 0x1_0000
  type Target26 = x: int | 0 <= x < 0x400_0000

  datatype Instruction = Instruction(
    address: uint32,
    opcode: nat,
    rs: Reg,
    rt: Reg,
    rd: Reg,
    immediate: Imm16,
    target: Target26,
    isBranch: bool,
    isJump: bool,
    isCall: bool,
    isReturn: bool,
    hasDelaySlot: bool)

  /** The 16-bit immediate read as a signed number. */
  function Signed16(x: Imm16): int {
    if x < 0x8000 then x else x - 0x1_0000
  }

  /** Where a taken branch goes: a signed word offset from the delay slot. */
  function BranchTarget(inst: Instruction): uint32 {
    Wrap32(inst.address + 4 + 4 * Signed16(inst.immediate))
  }

  /** Where J and JAL go: the 26-bit field, in the 256 MB region of the delay slot. */
  function JumpTarget(inst: Instruction): uint32 {
    Wrap32(inst.address + 4) / 0x1000_0000 * 0x1000_0000 + 4 * inst.target
  }

  predicate IsControl(inst: Instruction) {
    inst.isBranch || inst.isJump
  }

  predicate IsDirectJump(inst: Instruction) {
    inst.opcode == OPCODE_J || inst.opcode == OPCODE_JAL
  }

  /** JAL and the branch-and-link instructions save the return address in $31, which is neither
      their rt nor their rd; JALR, an OPCODE_SPECIAL, names its link register in rd. */
  predicate LinksRa(inst: Instruction) {
    inst.isCall && inst.opcode != OPCODE_SPECIAL
  }

  predicate IsLikely(inst: Instruction) {
    inst.opcode in {OPCODE_BEQL, OPCODE_BNEL, OPCODE_BLEZL, OPCODE_BGTZL}
  }

  // ---- What the encodings are ---------------------------------------------------------------

  /** The opcode numbers of the MIPS instruction set. */
  lemma OpcodeNumbers(inst: Instruction)
    ensures IsLikely(inst) <==> 0x14 <= inst.opcode <= 0x17
    ensures IsDirectJump(inst) <==> inst.opcode == 2 || inst.opcode == 3
    ensures LinksRa(inst) <==> inst.isCall && inst.opcode != 0
    ensures OPCODE_ADDIU == 9 && OPCODE_ORI == 13 && OPCODE_LUI == 15
  {
  }

  /** A branch d words from its delay slot, backwards or forwards, holds d in 16 bits, and goes there. */
  lemma BranchGoesTo(inst: Instruction, d: int, t: uint32)
    requires -0x8000 <= d < 0x8000 && inst.immediate == d % 0x1_0000
    requires t == inst.address + 4 + 4 * d
    ensures BranchTarget(inst) == t
  {
    assert d % 0x1_0000 == if d < 0 then d + 0x1_0000 else d;
  }

  /** Every branch goes such a distance, around the address space if need be. */
  lemma BranchDistance(inst: Instruction) returns (d: int)
    ensures -0x8000 <= d < 0x8000 && inst.immediate == d % 0x1_0000
    ensures (BranchTarget(inst) - inst.address - 4 - 4 * d) % TWO_32 == 0
  {
    d := if inst.immediate >= 0x8000 then inst.immediate - 0x1_0000 else inst.immediate;
    var q := (inst.address + 4 + 4 * d) / TWO_32;
    assert BranchTarget(inst) - inst.address - 4 - 4 * d == -q * TWO_32;
  }

  /** Every aligned target in the delay slot's 256 MB region is reached, by the word number within it. */
  lemma JumpGoesTo(inst: Instruction, t: uint32)
    requires t % 4 == 0 && t / 0x1000_0000 == (if inst.address + 4 < TWO_32 then inst.address + 4 else 0) / 0x1000_0000
    requires inst.target == t % 0x1000_0000 / 4
    ensures JumpTarget(inst) == t
  {
  }
}
