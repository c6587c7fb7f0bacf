/** Resolving the constant in a register: a backward search over LUI, ADDIU and ORI. */
module ConstantResolution {
  import opened Instructions
  import opened Bits

  datatype Resolved = Unknown | Known(value: uint32)

  // ---- The search ---------------------------------------------------------------------------

  predicate AddsOrOrs(inst: Instruction) {
    inst.opcode == OPCODE_ADDIU || inst.opcode == OPCODE_ORI
  }

  function Combine(inst: Instruction, hi: uint32): uint32 {
    if inst.opcode == OPCODE_ADDIU then Wrap32(hi + Signed16(inst.immediate)) else Wrap32(Or(hi, inst.immediate))
  }

  function WindowStart(index: nat): nat {
    if index > 8 then index - 8 else 0
  }

  /** What the search finds for reg among the instructions before pos, not looking below start. */
  function Scan(instrs: seq<Instruction>, start: nat, pos: nat, reg: Reg): Resolved
    requires pos <= |instrs|
    decreases pos, 0
  {
    if pos <= start then Unknown
    else
      var prev := instrs[pos - 1];
      if AddsOrOrs(prev) && prev.rt == reg then
        match Resolve(instrs, pos - 1, prev.rs)
        case Unknown => Unknown
        case Known(hi) => Known(Combine(prev, hi))
      else if prev.opcode == OPCODE_LUI && prev.rt == reg then Known(0x1_0000 * prev.immediate)
      else if prev.rt == reg || prev.rd == reg then Unknown
      else Scan(instrs, start, pos - 1, reg)
  }

  /** What reg holds before instruction index, as far as the search can tell. */
  function Resolve(instrs: seq<Instruction>, index: nat, reg: Reg): Resolved
    requires index <= |instrs|
    decreases index, 1
  {
    Scan(instrs, WindowStart(index), index, reg)
  }

  /** The search loop. A failed search leaves zero in the out-parameter. */
  method TryResolveLuiBase(instrs: seq<Instruction>, index: nat, reg: Reg) returns (found: bool, baseAddr: uint32)
    requires index <= |instrs|
    ensures (if found then Known(baseAddr) else Unknown) == Resolve(instrs, index, reg)
    ensures !found ==> baseAddr == 0
    decreases index
  {
    baseAddr := 0;
    var start := if index > 8 then index - 8 else 0;
    var pos := index;
    while pos > start
      invariant start <= pos <= index
      invariant Resolve(instrs, index, reg) == Scan(instrs, start, pos, reg)
    {
      pos := pos - 1;
      var prev := instrs[pos];
      if (prev.opcode == OPCODE_ADDIU || prev.opcode == OPCODE_ORI) && prev.rt == reg {
        var hiFound, hiBase := TryResolveLuiBase(instrs, pos, prev.rs);
        if !hiFound {
          return false, baseAddr;
        }
        if prev.opcode == OPCODE_ADDIU {
          baseAddr := Wrap32(hiBase + if prev.immediate >= 0x8000 then prev.immediate - 0x1_0000 else prev.immediate);
        } else {
          baseAddr := Wrap32(Or(hiBase, prev.immediate));
        }
        return true, baseAddr;
      }
      if prev.opcode == OPCODE_LUI && prev.rt == reg {
        baseAddr := 0x1_0000 * prev.immediate;
        return true, baseAddr;
      }
      if prev.rt == reg || prev.rd == reg {
        break;
      }
    }
    return false, baseAddr;
  }

  /** Base register plus signed offset, as the patch and data-usage passes use it. */
  method TryResolveBasePlusOffset(instrs: seq<Instruction>, index: nat, baseReg: Reg, offset: Imm16)
    returns (found: bool, outAddr: uint32)
    requires index <= |instrs|
    ensures found <==> Resolve(instrs, index, baseReg).Known?
    ensures found ==> outAddr == Wrap32(Resolve(instrs, index, baseReg).value + Signed16(offset))
  {
    var baseAddr;
    found, baseAddr := TryResolveLuiBase(instrs, index, baseReg);
    outAddr := if found then Wrap32(baseAddr + if offset >= 0x8000 then offset - 0x1_0000 else offset) else 0;
  }

  // ---- What the search finds ----------------------------------------------------------------

  predicate Names(inst: Instruction, reg: Reg) {
    inst.rt == reg || inst.rd == reg
  }

  lemma {:induction false} ScanSkips(instrs: seq<Instruction>, start: nat, pos: nat, p: nat, reg: Reg)
    requires start <= p <= pos <= |instrs| && forall k :: p <= k < pos ==> !Names(instrs[k], reg)
    ensures Scan(instrs, start, pos, reg) == Scan(instrs, start, p, reg)
    decreases pos
  {
    if p < pos {
      assert !Names(instrs[pos - 1], reg);
      ScanSkips(instrs, start, pos - 1, p, reg);
    }
  }

  /** The search fails unless one of the last eight instructions names the register; if the last of
      those loads an upper half, that is the answer, if it adds to or or-s a resolved register, the
      result is, and otherwise there is none. */
  lemma LastNamingDecides(instrs: seq<Instruction>, index: nat, reg: Reg, p: nat)
    requires index <= |instrs| && WindowStart(index) <= p <= index
    requires forall k :: p <= k < index ==> !Names(instrs[k], reg)
    ensures p == WindowStart(index) ==> Resolve(instrs, index, reg) == Unknown
    ensures WindowStart(index) < p && Names(instrs[p - 1], reg) ==>
      var last := instrs[p - 1];
      Resolve(instrs, index, reg) ==
        if last.opcode == OPCODE_LUI && last.rt == reg then Known(0x1_0000 * last.immediate)
        else if AddsOrOrs(last) && last.rt == reg && Resolve(instrs, p - 1, last.rs).Known?
        then Known(Combine(last, Resolve(instrs, p - 1, last.rs).value))
        else Unknown
  {
    ScanSkips(instrs, WindowStart(index), index, p, reg);
  }

  /** A register that none of the last eight instructions names resolves to nothing. */
  lemma EightInstructions(instrs: seq<Instruction>, index: nat, reg: Reg)
    requires index <= |instrs| && forall k :: 0 <= k < index && index - 8 <= k ==> !Names(instrs[k], reg)
    ensures Resolve(instrs, index, reg) == Unknown
  {
    LastNamingDecides(instrs, index, reg, WindowStart(index));
  }

  /** The halves an assembler splits an address into: the lower one is added with its sign. */
  function UpperHalf(a: uint32): Imm16 { (a + 0x8000) / 0x1_0000 % 0x1_0000 }
  function LowerHalf(a: uint32): Imm16 { a % 0x1_0000 }

  /** Every address loaded that way is resolved, through up to seven instructions that do not name the register. */
  lemma LoadedAddressResolves(instrs: seq<Instruction>, index: nat, p: nat, reg: Reg, a: uint32)
    requires 2 <= p <= index <= |instrs| && index < p + 8
    requires var lui, addiu := instrs[p - 2], instrs[p - 1];
             && lui.opcode == OPCODE_LUI && addiu.opcode == OPCODE_ADDIU
             && lui.rt == addiu.rs && addiu.rt == reg
             && lui.immediate == UpperHalf(a) && addiu.immediate == LowerHalf(a)
    requires forall k :: p <= k < index ==> !Names(instrs[k], reg)
    ensures Resolve(instrs, index, reg) == Known(a)
  {
    LastNamingDecides(instrs, index, reg, p);
    LastNamingDecides(instrs, p - 1, instrs[p - 1].rs, p - 1);
    HalvesJoin(a);
  }

  lemma HalvesJoin(a: uint32)
    ensures Wrap32(0x1_0000 * UpperHalf(a) + Signed16(LowerHalf(a))) == a
  {
  }

  // ---- Running the instructions -------------------------------------------------------------

  /** The 64-bit general registers; $0 reads as zero. */
  type RegFile = s: seq<uint64> | |s| == 32 && s[0] == 0 witness seq(32, i => 0)

  /** 32-bit results are kept sign-extended. */
  function Extend32(x: uint32): uint64 {
    if x < 0x8000_0000 then x else x + 0xFFFF_FFFF_0000_0000
  }

  /** Read as signed 64-bit and 32-bit numbers, the two are the same. */
  lemma ExtendIsSigned(x: uint32)
    ensures var signed := if x < 0x8000_0000 then x else x - TWO_32;
            (Extend32(x) - signed) % TWO_64 == 0
  {
  }

  function Write(r: RegFile, reg: Reg, x: uint64): RegFile {
    if reg == 0 then r else r[reg := x]
  }

  /** One instruction, run in line. LUI, ADDIU and ORI do what the architecture says; of any other
      instruction it is only known that it leaves alone what it cannot name: registers other than
      its rt, its rd and, when it links, $31. */
  ghost predicate Step(inst: Instruction, r: RegFile, r': RegFile) {
    if inst.opcode == OPCODE_LUI then
      r' == Write(r, inst.rt, Extend32(0x1_0000 * inst.immediate))
    else if inst.opcode == OPCODE_ADDIU then
      r' == Write(r, inst.rt, Extend32(Wrap32(Wrap32(r[inst.rs]) + Signed16(inst.immediate))))
    else if inst.opcode == OPCODE_ORI then
      r' == Write(r, inst.rt, Wrap64(Or(r[inst.rs], inst.immediate)))
    else
      forall x: Reg :: x != inst.rt && x != inst.rd && !(x == 31 && LinksRa(inst)) ==> r'[x] == r[x]
  }

  /** trace[i] are the registers before instruction i. */
  ghost predicate IsRun(instrs: seq<Instruction>, trace: seq<RegFile>) {
    |trace| == |instrs| + 1 && forall i :: 0 <= i < |instrs| ==> Step(instrs[i], trace[i], trace[i + 1])
  }

  /** The search is right about (index, reg) on this run. */
  ghost predicate RightOn(instrs: seq<Instruction>, trace: seq<RegFile>, index: nat, reg: Reg)
    requires index <= |instrs| && |trace| == |instrs| + 1
  {
    Resolve(instrs, index, reg).Known? ==> Wrap32(trace[index][reg]) == Resolve(instrs, index, reg).value
  }

  /** The search is right about this register at this point, on every run. */
  ghost predicate RightAt(instrs: seq<Instruction>, index: nat, reg: Reg)
    requires index <= |instrs|
  {
    forall trace :: IsRun(instrs, trace) ==> RightOn(instrs, trace, index, reg)
  }

  /** The search is right about every register at every point. */
  ghost predicate AlwaysRight(instrs: seq<Instruction>) {
    forall index: nat, reg: Reg :: index <= |instrs| && Resolve(instrs, index, reg).Known? ==>
      RightAt(instrs, index, reg)
  }

  // ---- When it is right ---------------------------------------------------------------------

  /** The low half of an ORI's result depends on the low half of its operand only. */
  lemma OriLow(x: uint64, imm: Imm16)
    ensures Wrap32(Wrap64(Or(x, imm))) == Wrap32(Or(Wrap32(x), imm))
  {
    Pow32();
    OrReduced(x, imm, 32);
    OrReduced(Wrap32(x), imm, 32);
    ModMod(Or(x, imm), TWO_32, TWO_32);
  }

  lemma ExtendLow(x: uint32)
    ensures Wrap32(Extend32(x)) == x
  {
  }

  predicate OnlyLinks(inst: Instruction) {
    LinksRa(inst) && !AddsOrOrs(inst) && inst.opcode != OPCODE_LUI
  }

  /** The chain the search follows writes no constant to $0 and passes no link on its way to one in $31. */
  predicate ChainClean(instrs: seq<Instruction>, start: nat, pos: nat, reg: Reg)
    requires pos <= |instrs|
    decreases pos
  {
    pos > start ==>
      var prev := instrs[pos - 1];
      if AddsOrOrs(prev) && prev.rt == reg then
        reg != 0 && ChainClean(instrs, WindowStart(pos - 1), pos - 1, prev.rs)
      else if Names(prev, reg) then reg != 0
      else !(reg == 31 && OnlyLinks(prev)) && ChainClean(instrs, start, pos - 1, reg)
  }

  /** The chain asks for $0 somewhere. */
  predicate MeetsZero(instrs: seq<Instruction>, start: nat, pos: nat, reg: Reg)
    requires pos <= |instrs|
    decreases pos
  {
    reg == 0 ||
    (pos > start &&
     var prev := instrs[pos - 1];
     if AddsOrOrs(prev) && prev.rt == reg then MeetsZero(instrs, WindowStart(pos - 1), pos - 1, prev.rs)
     else !Names(prev, reg) && MeetsZero(instrs, start, pos - 1, reg))
  }

  /** What the same instructions fix the register to: the search again, but $0 is zero and a link is a
      write of $31. */
  function Held(instrs: seq<Instruction>, start: nat, pos: nat, reg: Reg): Resolved
    requires pos <= |instrs|
    decreases pos
  {
    if reg == 0 then Known(0)
    else if pos <= start then Unknown
    else
      var prev := instrs[pos - 1];
      if AddsOrOrs(prev) && prev.rt == reg then
        match Held(instrs, WindowStart(pos - 1), pos - 1, prev.rs)
        case Unknown => Unknown
        case Known(hi) => Known(Combine(prev, hi))
      else if prev.opcode == OPCODE_LUI && prev.rt == reg then Known(0x1_0000 * prev.immediate)
      else if Names(prev, reg) || (reg == 31 && OnlyLinks(prev)) then Unknown
      else Held(instrs, start, pos - 1, reg)
  }

  /** A wider window only finds more. */
  lemma {:induction false} WiderWindow(instrs: seq<Instruction>, start: nat, start': nat, pos: nat, reg: Reg)
    requires pos <= |instrs| && start' <= start && Scan(instrs, start, pos, reg).Known?
    ensures Scan(instrs, start', pos, reg) == Scan(instrs, start, pos, reg)
    decreases pos
  {
    var prev := instrs[pos - 1];
    if !(prev.rt == reg || prev.rd == reg) {
      WiderWindow(instrs, start, start', pos - 1, reg);
    }
  }

  /** What an ADDIU or ORI leaves in the low half of a register it may write. */
  lemma Combined(inst: Instruction, r: RegFile, r': RegFile)
    requires Step(inst, r, r') && AddsOrOrs(inst) && inst.rt != 0
    ensures Wrap32(r'[inst.rt]) == Combine(inst, Wrap32(r[inst.rs]))
  {
    if inst.opcode == OPCODE_ADDIU {
      ExtendLow(Wrap32(Wrap32(r[inst.rs]) + Signed16(inst.immediate)));
    } else {
      OriLow(r[inst.rs], inst.immediate);
    }
  }

  lemma {:induction false} HeldIsTrue(instrs: seq<Instruction>, trace: seq<RegFile>, start: nat, pos: nat, reg: Reg)
    requires IsRun(instrs, trace) && pos <= |instrs| && Held(instrs, start, pos, reg).Known?
    ensures Wrap32(trace[pos][reg]) == Held(instrs, start, pos, reg).value
    decreases pos
  {
    if reg != 0 {
      var prev := instrs[pos - 1];
      assert Step(prev, trace[pos - 1], trace[pos]);
      if AddsOrOrs(prev) && prev.rt == reg {
        HeldIsTrue(instrs, trace, WindowStart(pos - 1), pos - 1, prev.rs);
        Combined(prev, trace[pos - 1], trace[pos]);
      } else if prev.opcode == OPCODE_LUI && prev.rt == reg {
        ExtendLow(0x1_0000 * prev.immediate);
      } else {
        HeldIsTrue(instrs, trace, start, pos - 1, reg);
      }
    }
  }

  /** A clean chain that resolves is one that meets no $0 and whose answer stands. */
  lemma {:induction false} CleanIff(instrs: seq<Instruction>, start: nat, pos: nat, reg: Reg)
    requires pos <= |instrs| && Scan(instrs, start, pos, reg).Known?
    ensures ChainClean(instrs, start, pos, reg)
            <==> !MeetsZero(instrs, start, pos, reg) && Held(instrs, start, pos, reg).Known?
    ensures ChainClean(instrs, start, pos, reg) ==> Held(instrs, start, pos, reg) == Scan(instrs, start, pos, reg)
    decreases pos
  {
    var prev := instrs[pos - 1];
    if AddsOrOrs(prev) && prev.rt == reg {
      CleanIff(instrs, WindowStart(pos - 1), pos - 1, prev.rs);
    } else if !Names(prev, reg) {
      CleanIff(instrs, start, pos - 1, reg);
    }
  }

  /** A successful search along a clean chain agrees with every run, whatever the rest of the list does. */
  lemma ScanIsRight(instrs: seq<Instruction>, trace: seq<RegFile>, start: nat, pos: nat, reg: Reg)
    requires IsRun(instrs, trace) && pos <= |instrs|
    requires ChainClean(instrs, start, pos, reg) && Scan(instrs, start, pos, reg).Known?
    ensures Wrap32(trace[pos][reg]) == Scan(instrs, start, pos, reg).value
  {
    CleanIff(instrs, start, pos, reg);
    HeldIsTrue(instrs, trace, start, pos, reg);
  }

  /** A run always exists: let the other instructions write nothing. */
  function Exec(inst: Instruction, r: RegFile): RegFile {
    if inst.opcode == OPCODE_LUI then Write(r, inst.rt, Extend32(0x1_0000 * inst.immediate))
    else if inst.opcode == OPCODE_ADDIU then
      Write(r, inst.rt, Extend32(Wrap32(Wrap32(r[inst.rs]) + Signed16(inst.immediate))))
    else if inst.opcode == OPCODE_ORI then Write(r, inst.rt, Wrap64(Or(r[inst.rs], inst.immediate)))
    else r
  }

  /** A run that, if instruction i only links, leaves x in $31 behind it. */
  function RunWith(instrs: seq<Instruction>, r: RegFile, i: int, x: uint64): (trace: seq<RegFile>)
    ensures |trace| == |instrs| + 1 && trace[0] == r
    decreases |instrs|
  {
    if instrs == [] then [r]
    else
      var r' := if i == 0 then Write(Exec(instrs[0], r), 31, x) else Exec(instrs[0], r);
      [r] + RunWith(instrs[1..], r', i - 1, x)
  }

  lemma {:induction false} RunWithIsRun(instrs: seq<Instruction>, r: RegFile, i: int, x: uint64)
    requires 0 <= i < |instrs| ==> OnlyLinks(instrs[i])
    ensures IsRun(instrs, RunWith(instrs, r, i, x))
    ensures 0 <= i < |instrs| ==> RunWith(instrs, r, i, x)[i + 1][31] == x
    decreases |instrs|
  {
    if instrs != [] {
      var trace := RunWith(instrs, r, i, x);
      var rest := trace[1..];
      RunWithIsRun(instrs[1..], rest[0], i - 1, x);
      forall j | 0 <= j < |instrs| ensures Step(instrs[j], trace[j], trace[j + 1]) {
        if j > 0 {
          assert Step(instrs[1..][j - 1], rest[j - 1], rest[j]);
        }
      }
    }
  }

  // ---- When it is wrong ---------------------------------------------------------------------

  /** The chain, before it asks for $0, passes the link at i on its way to a constant in $31. */
  predicate PassesLink(instrs: seq<Instruction>, start: nat, pos: nat, reg: Reg, i: nat)
    requires pos <= |instrs|
    decreases pos
  {
    reg != 0 && pos > start &&
    var prev := instrs[pos - 1];
    if AddsOrOrs(prev) && prev.rt == reg then PassesLink(instrs, WindowStart(pos - 1), pos - 1, prev.rs, i)
    else if Names(prev, reg) then false
    else if reg == 31 && OnlyLinks(prev) then i == pos - 1
    else PassesLink(instrs, start, pos - 1, reg, i)
  }

  /** A chain that resolves, but to nothing the instructions fix, passes one. */
  lemma {:induction false} LinkPassed(instrs: seq<Instruction>, start: nat, pos: nat, reg: Reg) returns (i: nat)
    requires pos <= |instrs| && Scan(instrs, start, pos, reg).Known? && Held(instrs, start, pos, reg).Unknown?
    ensures i < pos && OnlyLinks(instrs[i]) && PassesLink(instrs, start, pos, reg, i)
    decreases pos
  {
    var prev := instrs[pos - 1];
    if AddsOrOrs(prev) && prev.rt == reg {
      i := LinkPassed(instrs, WindowStart(pos - 1), pos - 1, prev.rs);
    } else if reg == 31 && OnlyLinks(prev) {
      i := pos - 1;
    } else {
      i := LinkPassed(instrs, start, pos - 1, reg);
    }
  }

  /** An immediate does not reach bit 16: a difference there stays. */
  lemma CombineShifts(inst: Instruction, x: uint32)
    ensures Combine(inst, Wrap32(x + 0x1_0000)) == Wrap32(Combine(inst, x) + 0x1_0000)
  {
    if inst.opcode == OPCODE_ADDIU {
      AddShifts(x, Signed16(inst.immediate));
    } else {
      OrShifts(x, inst.immediate);
    }
  }

  lemma AddShifts(x: uint32, c: int)
    ensures Wrap32(Wrap32(x + 0x1_0000) + c) == Wrap32(Wrap32(x + c) + 0x1_0000)
  {
    Wrap32Adds(x + 0x1_0000, c);
    Wrap32Adds(x + c, 0x1_0000);
  }

  lemma OrShifts(x: uint32, imm: Imm16)
    ensures Wrap32(Or(Wrap32(x + 0x1_0000), imm)) == Wrap32(Wrap32(Or(x, imm)) + 0x1_0000)
  {
    var y := Wrap32(x + 0x1_0000);
    NextHigh(x / 0x1_0000, x % 0x1_0000);
    OrHighPart(x, imm);
    OrHighPart(y, imm);
    Shifted(x / 0x1_0000, Or(x % 0x1_0000, imm), Or(x, imm), Or(y, imm));
  }

  lemma Shifted(high: nat, low: nat, o: nat, o': nat)
    requires high < 0x1_0000 && low < 0x1_0000 && o == high * 0x1_0000 + low
    requires o' == (if high == 0xFFFF then 0 else high + 1) * 0x1_0000 + low
    ensures Wrap32(o') == Wrap32(Wrap32(o) + 0x1_0000)
  {
  }

  lemma NextHigh(high: nat, low: nat)
    requires high < 0x1_0000 && low < 0x1_0000
    ensures var next := if high == 0xFFFF then 0 else high + 1;
            Wrap32(high * 0x1_0000 + low + 0x1_0000) == next * 0x1_0000 + low
            && (next * 0x1_0000 + low) / 0x1_0000 == next && (next * 0x1_0000 + low) % 0x1_0000 == low
  {
  }

  lemma OrHighPart(x: uint32, imm: Imm16)
    ensures Or(x, imm) == x / 0x1_0000 * 0x1_0000 + Or(x % 0x1_0000, imm)
    ensures Or(x % 0x1_0000, imm) < 0x1_0000
  {
    Pow32();
    OrSplit(x, imm, 16);
  }

  /** In the second state the register is larger by 2^16, in 32 bits. */
  ghost predicate Apart(r: RegFile, s: RegFile, reg: Reg) {
    Wrap32(s[reg]) == Wrap32(Wrap32(r[reg]) + 0x1_0000)
  }

  /** Runs that are apart behind such a link are apart in the register the search was asked for. */
  lemma {:induction false} RunsDiffer(instrs: seq<Instruction>, t: seq<RegFile>, t': seq<RegFile>,
                                      start: nat, pos: nat, reg: Reg, i: nat)
    requires IsRun(instrs, t) && IsRun(instrs, t')
    requires pos <= |instrs| && i < |instrs| && PassesLink(instrs, start, pos, reg, i)
    requires Apart(t[i + 1], t'[i + 1], 31)
    ensures Apart(t[pos], t'[pos], reg)
    decreases pos
  {
    var prev := instrs[pos - 1];
    assert Step(prev, t[pos - 1], t[pos]) && Step(prev, t'[pos - 1], t'[pos]);
    if AddsOrOrs(prev) && prev.rt == reg {
      RunsDiffer(instrs, t, t', WindowStart(pos - 1), pos - 1, prev.rs, i);
      CombinedShifts(prev, t[pos - 1], t[pos], t'[pos - 1], t'[pos]);
    } else if !(reg == 31 && OnlyLinks(prev)) {
      RunsDiffer(instrs, t, t', start, pos - 1, reg, i);
      NotNamed(prev, t[pos - 1], t[pos], reg);
      NotNamed(prev, t'[pos - 1], t'[pos], reg);
    }
  }

  lemma NotNamed(inst: Instruction, r: RegFile, r': RegFile, reg: Reg)
    requires Step(inst, r, r') && !Names(inst, reg) && !(reg == 31 && OnlyLinks(inst))
    ensures r'[reg] == r[reg]
  {
  }

  lemma CombinedShifts(inst: Instruction, r: RegFile, r': RegFile, s: RegFile, s': RegFile)
    requires Step(inst, r, r') && Step(inst, s, s') && AddsOrOrs(inst) && inst.rt != 0
    requires Apart(r, s, inst.rs)
    ensures Apart(r', s', inst.rt)
  {
    Combined(inst, r, r');
    Combined(inst, s, s');
    CombineShifts(inst, Wrap32(r[inst.rs]));
  }

  /** So some run contradicts the search. */
  lemma PassedLinkFails(instrs: seq<Instruction>, index: nat, reg: Reg, r: RegFile) returns (trace: seq<RegFile>)
    requires index <= |instrs| && Resolve(instrs, index, reg).Known? && HeldBefore(instrs, index, reg).Unknown?
    ensures IsRun(instrs, trace) && !RightOn(instrs, trace, index, reg)
  {
    var i := LinkPassed(instrs, WindowStart(index), index, reg);
    var t, t' := RunWith(instrs, r, i, 0), RunWith(instrs, r, i, 0x1_0000);
    RunWithIsRun(instrs, r, i, 0);
    RunWithIsRun(instrs, r, i, 0x1_0000);
    RunsDiffer(instrs, t, t', WindowStart(index), index, reg, i);
    trace := if RightOn(instrs, t, index, reg) then t' else t;
  }

  // ---- Exactly when -------------------------------------------------------------------------

  function HeldBefore(instrs: seq<Instruction>, index: nat, reg: Reg): Resolved
    requires index <= |instrs|
  {
    Held(instrs, WindowStart(index), index, reg)
  }

  /** Main result, for every single query: what the search finds agrees with every run if and only if
      the chain, with $0 read as zero and links taken as writes of $31, gives the same. */
  lemma RightAtIff(instrs: seq<Instruction>, index: nat, reg: Reg)
    requires index <= |instrs| && Resolve(instrs, index, reg).Known?
    ensures RightAt(instrs, index, reg) <==> HeldBefore(instrs, index, reg) == Resolve(instrs, index, reg)
  {
    var r: RegFile := seq(32, _ => 0);
    if HeldBefore(instrs, index, reg).Unknown? {
      var trace := PassedLinkFails(instrs, index, reg, r);
    } else {
      forall trace | IsRun(instrs, trace)
        ensures Wrap32(trace[index][reg]) == HeldBefore(instrs, index, reg).value
      {
        HeldIsTrue(instrs, trace, WindowStart(index), index, reg);
      }
      RunWithIsRun(instrs, r, -1, 0);
    }
  }

  /** Where the chain never asks for $0, that is: it passes no link for $31. */
  lemma RightAtIffClean(instrs: seq<Instruction>, index: nat, reg: Reg)
    requires index <= |instrs| && Resolve(instrs, index, reg).Known?
    requires !MeetsZero(instrs, WindowStart(index), index, reg)
    ensures RightAt(instrs, index, reg) <==> ChainClean(instrs, WindowStart(index), index, reg)
  {
    RightAtIff(instrs, index, reg);
    CleanIff(instrs, WindowStart(index), index, reg);
  }

  /** No constant is written to $0 anywhere. */
  predicate ZeroUntouched(instrs: seq<Instruction>) {
    forall i :: 0 <= i < |instrs| && instrs[i].rt == 0 ==> !AddsOrOrs(instrs[i]) && instrs[i].opcode != OPCODE_LUI
  }

  lemma {:induction false} UntouchedZeroNotMet(instrs: seq<Instruction>, start: nat, pos: nat, reg: Reg)
    requires ZeroUntouched(instrs) && pos <= |instrs| && Scan(instrs, start, pos, reg).Known?
    ensures !MeetsZero(instrs, start, pos, reg)
    decreases pos
  {
    var prev := instrs[pos - 1];
    if AddsOrOrs(prev) && prev.rt == reg {
      UntouchedZeroNotMet(instrs, WindowStart(pos - 1), pos - 1, prev.rs);
    } else if !Names(prev, reg) {
      UntouchedZeroNotMet(instrs, start, pos - 1, reg);
    }
  }

  /** For whole lists: no query goes wrong if and only if every answer is what the chain holds; where no
      constant is written to $0, if and only if every chain that resolves is clean. */
  lemma AlwaysRightIff(instrs: seq<Instruction>)
    ensures AlwaysRight(instrs)
            <==> forall index: nat, reg: Reg :: index <= |instrs| && Resolve(instrs, index, reg).Known? ==>
                   HeldBefore(instrs, index, reg) == Resolve(instrs, index, reg)
    ensures ZeroUntouched(instrs) ==>
      (AlwaysRight(instrs)
       <==> forall index: nat, reg: Reg :: index <= |instrs| && Resolve(instrs, index, reg).Known? ==>
              ChainClean(instrs, WindowStart(index), index, reg))
  {
    forall index: nat, reg: Reg | index <= |instrs| && Resolve(instrs, index, reg).Known?
      ensures RightAt(instrs, index, reg) <==> HeldBefore(instrs, index, reg) == Resolve(instrs, index, reg)
      ensures ZeroUntouched(instrs) ==>
        (RightAt(instrs, index, reg) <==> ChainClean(instrs, WindowStart(index), index, reg))
    {
      RightAtIff(instrs, index, reg);
      if ZeroUntouched(instrs) {
        UntouchedZeroNotMet(instrs, WindowStart(index), index, reg);
        RightAtIffClean(instrs, index, reg);
      }
    }
  }

  /** The shortest program the search misreads: a constant loaded into $0. */
  lemma ZeroLoadMisread(lui: Instruction)
    requires lui.opcode == OPCODE_LUI && lui.rt == 0 && lui.immediate == 1
    ensures Resolve([lui], 1, 0) == Known(0x1_0000) && !RightAt([lui], 1, 0)
  {
    RightAtIff([lui], 1, 0);
  }

  /** And one that misleads it about $31: a constant, then a call. */
  lemma CallMisread(lui: Instruction, jal: Instruction)
    requires lui.opcode == OPCODE_LUI && lui.rt == 31
    requires jal.opcode == OPCODE_JAL && jal.isCall && jal.rt != 31 && jal.rd != 31
    ensures Resolve([lui, jal], 2, 31) == Known(0x1_0000 * lui.immediate) && !RightAt([lui, jal], 2, 31)
  {
    assert Scan([lui, jal], 0, 1, 31) == Known(0x1_0000 * lui.immediate);
    RightAtIff([lui, jal], 2, 31);
  }
}
