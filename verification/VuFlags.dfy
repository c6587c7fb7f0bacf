/** VU0 MAC and STATUS flags. What they mean is said bit by bit, bit 0 first; the context computes
    with words and masks. */
module VuFlags {
  import opened Instructions
  import opened Bits
  import opened Words

  type Mac = s: seq<bool> | |s| == 32 witness seq(32, _ => false)
  type Status = s: seq<bool> | |s| == 16 witness seq(16, _ => false)

  /** The four lanes of a vector, x first, as raw float bits. */
  type Vector = s: seq<uint32> | |s| == 4 witness seq(4, _ => 0)

  type Dest = x: int | 0 <= x < 16

  function Sign(bits: uint32): bool { bits >= 0x8000_0000 }
  function Exponent(bits: uint32): int { bits / 0x80_0000 % 0x100 }
  function Magnitude(bits: uint32): int { bits % 0x8000_0000 }

  /** Lane 0 is the highest of the four destination bits. */
  predicate Selects(dest: Dest, lane: nat)
    requires lane < 4
  {
    (match lane case 0 => dest / 8 case 1 => dest / 4 case 2 => dest / 2 case _ => dest) % 2 == 1
  }

  // ---- What the flags mean ------------------------------------------------------------------

  /** The flag of one kind (zero, sign, underflow, overflow) for one lane's result: a denormal counts as zero and as underflow, an
      all-ones exponent as overflow. */
  predicate Flag(kind: nat, bits: uint32) {
    match kind
    case 0 => Exponent(bits) == 0
    case 1 => Sign(bits)
    case 2 => Exponent(bits) == 0 && Magnitude(bits) != 0
    case _ => Exponent(bits) == 0xff
  }

  /** Where bit i of MAC belongs. */
  function LaneOfBit(i: nat): (lane: nat)
    ensures lane < 4
  {
    3 - i % 4
  }

  /** MAC has one nibble per kind, and lane 0 in the highest bit of each nibble. */
  function MacAfter(mac: Mac, result: Vector, dest: Dest, preserveUnselected: bool): Mac {
    seq(32, i requires 0 <= i < 32 => BitAfter(mac, result, dest, preserveUnselected, 4, i))
  }

  /** Bit i when the first `lanes` lanes have been handled. */
  function BitAfter(mac: Mac, result: Vector, dest: Dest, preserveUnselected: bool, lanes: nat, i: nat): bool
    requires i < 32
  {
    if i < 16 && LaneOfBit(i) < lanes && Selects(dest, LaneOfBit(i)) then Flag(i / 4, result[LaneOfBit(i)])
    else preserveUnselected && mac[i]
  }

  /** Bit k is set when some lane has flag k. */
  function Summary(mac: Mac): (s: seq<bool>)
    ensures |s| == 4
  {
    seq(4, k requires 0 <= k < 4 => mac[4 * k] || mac[4 * k + 1] || mac[4 * k + 2] || mac[4 * k + 3])
  }

  /** Current flags in bits 0-3, sticky ones in bits 6-9; bits 4, 5, 10 and 11 stay. */
  function StatusAfter(status: Status, summary: seq<bool>): Status
    requires |summary| == 4
  {
    seq(16, i requires 0 <= i < 16 =>
      if i < 4 then summary[i]
      else if 6 <= i < 10 then status[i] || summary[i - 6]
      else if i < 12 then status[i] else false)
  }

  /** Arithmetic flushes denormals, so a zero exponent is a zero operand. */
  predicate IsZero(bits: uint32) { Exponent(bits) == 0 }

  /** VRSQRT: division by zero in bit 5, an invalid operand in bit 4. */
  function RsqrtStatus(status: Status, fs: uint32, ft: uint32): Status {
    status[5 := IsZero(ft)][4 := if IsZero(ft) then IsZero(fs) else Sign(ft)]
  }

  /** What the host division is given: denormals flushed to signed zero, infinities and NaNs saturated. */
  function Canonical(bits: uint32): uint32 {
    var sign := if Sign(bits) then 0x8000_0000 else 0;
    if Exponent(bits) == 0 then sign else if Exponent(bits) == 0xff then sign + 0x7f7f_ffff else bits
  }

  /** VRSQRT's result: fixed bits when it divides by zero, otherwise fs over the root of magnitude ft,
      which host arithmetic computes. */
  datatype RsqrtResult = Fixed(bits: uint32) | Quotient(fs: uint32, ft: uint32)

  function RsqrtOf(fs: uint32, ft: uint32): RsqrtResult {
    if IsZero(ft) then
      Fixed((if Sign(fs) != Sign(ft) then 0x8000_0000 else 0) + if IsZero(fs) then 0 else 0x7f7f_ffff)
    else
      Quotient(Canonical(fs), Magnitude(Canonical(ft)))
  }

  datatype Op =
    | Fmac(result: Vector, dest: Dest, preserveUnselected: bool)
    | Rsqrt(fs: uint32, ft: uint32)

  datatype Flags = Flags(mac: Mac, status: Status)

  function Step(s: Flags, op: Op): Flags {
    match op
    case Fmac(result, dest, preserve) =>
      var mac := MacAfter(s.mac, result, dest, preserve);
      Flags(mac, StatusAfter(s.status, Summary(mac)))
    case Rsqrt(fs, ft) => s.(status := RsqrtStatus(s.status, fs, ft))
  }

  // ---- Words as bits ------------------------------------------------------------------------

  function MacBits(x: uint32): Mac {
    seq(32, i requires 0 <= i < 32 => BitAt(x, i))
  }

  function StatusBits(x: uint16): Status {
    seq(16, i requires 0 <= i < 16 => BitAt(x, i))
  }

  predicate InLane(shift: nat, i: nat) {
    i < 16 && i % 4 == shift
  }

  /** Digit k of a mask's four is one. */
  predicate Chosen(d0: nat, d1: nat, d2: nat, d3: nat, k: nat) {
    1 == match k case 0 => d0 case 1 => d1 case 2 => d2 case _ => d3
  }

  /** A mask with some of the bits 0, 4, 8 and 12, moved up to a lane. */
  function LaneMask(d0: nat, d1: nat, d2: nat, d3: nat, shift: nat): (mask: uint32)
    requires d0 <= 1 && d1 <= 1 && d2 <= 1 && d3 <= 1 && shift < 4
  {
    LaneMaskBelow(Hex4(d0, d1, d2, d3), shift);
    Hex4(d0, d1, d2, d3) * Pow2(shift)
  }

  lemma LaneMaskBelow(x: nat, shift: nat)
    requires x <= 0x1111 && shift < 4
    ensures 0 <= x * Pow2(shift) < TWO_32
  {
    Pow8();
    assert Pow2(0) == 1 && Pow2(1) == 2 && Pow2(2) == 4;
    assert shift in {0, 1, 2, 3};
  }

  lemma LaneMaskBits(d0: nat, d1: nat, d2: nat, d3: nat, shift: nat, i: nat)
    requires d0 <= 1 && d1 <= 1 && d2 <= 1 && d3 <= 1 && shift < 4
    ensures BitAt(LaneMask(d0, d1, d2, d3, shift), i)
            <==> InLane(shift, i) && Chosen(d0, d1, d2, d3, i / 4)
  {
    ShiftBits(Hex4(d0, d1, d2, d3), shift, i);
    if i >= shift {
      var j := i - shift;
      Hex4Bits(d0, d1, d2, d3, j);
      DigitBits(if j < 4 then j else if j < 8 then j - 4 else if j < 12 then j - 8 else j - 12);
    }
  }

  /** Bits 4 * k to 4 * k + 3 of the MAC register. */
  predicate NibbleSet(mac: uint32, k: nat) {
    BitAt(mac, 4 * k) || BitAt(mac, 4 * k + 1) || BitAt(mac, 4 * k + 2) || BitAt(mac, 4 * k + 3)
  }

  lemma NibbleMask(mac: uint32, k: nat, mask: uint32)
    requires k < 4 && mask == match k case 0 => 0x000f case 1 => 0x00f0 case 2 => 0x0f00 case _ => 0xf000
    ensures And32(mac, mask) != 0 <==> NibbleSet(mac, k)
  {
    forall i: nat ensures BitAt(And32(mac, mask), i) <==> BitAt(mac, i) && 4 * k <= i < 4 * k + 4 {
      NibbleMaskBits(k, mask, i);
      OpBits(mac, mask, i);
    }
    if And32(mac, mask) != 0 {
      var i := SomeBit(And32(mac, mask));
      assert i == 4 * k || i == 4 * k + 1 || i == 4 * k + 2 || i == 4 * k + 3;
    } else {
      forall i: nat ensures !BitAt(And32(mac, mask), i) {
        ZeroBits(i);
      }
    }
  }

  lemma NibblesSet(mac: uint32)
    ensures Summary(MacBits(mac)) == [And32(mac, 0x000f) != 0, And32(mac, 0x00f0) != 0,
                                      And32(mac, 0x0f00) != 0, And32(mac, 0xf000) != 0]
  {
    NibbleMask(mac, 0, 0x000f);
    NibbleMask(mac, 1, 0x00f0);
    NibbleMask(mac, 2, 0x0f00);
    NibbleMask(mac, 3, 0xf000);
    SummaryIs(mac, 0);
    SummaryIs(mac, 1);
    SummaryIs(mac, 2);
    SummaryIs(mac, 3);
  }

  lemma SummaryIs(mac: uint32, k: nat)
    requires k < 4
    ensures Summary(MacBits(mac))[k] == NibbleSet(mac, k)
  {
  }

  lemma NibbleMaskBits(k: nat, mask: nat, i: nat)
    requires k < 4 && mask == match k case 0 => 0x000f case 1 => 0x00f0 case 2 => 0x0f00 case _ => 0xf000
    ensures BitAt(mask, i) <==> 4 * k <= i < 4 * k + 4
  {
    assert 0x000f == Hex4(15, 0, 0, 0) && 0x00f0 == Hex4(0, 15, 0, 0);
    assert 0x0f00 == Hex4(0, 0, 15, 0) && 0xf000 == Hex4(0, 0, 0, 15);
    DigitBits(if i < 4 then i else if i < 8 then i - 4 else if i < 12 then i - 8 else i - 12);
    match k
    case 0 => Hex4Bits(15, 0, 0, 0, i);
    case 1 => Hex4Bits(0, 15, 0, 0, i);
    case 2 => Hex4Bits(0, 0, 15, 0, i);
    case _ => Hex4Bits(0, 0, 0, 15, i);
  }

  /** The masks of the STATUS register. */
  lemma StatusMaskBits(i: nat)
    ensures BitAt(0x0ff0, i) == (4 <= i < 12) && BitAt(0x0030, i) == (4 <= i < 6)
    ensures BitAt(0x0020, i) == (i == 5) && BitAt(0x0010, i) == (i == 4)
  {
    assert 0x0ff0 == Hex4(0, 15, 15, 0) && 0x0030 == Hex4(0, 3, 0, 0);
    assert 0x0020 == Hex4(0, 2, 0, 0) && 0x0010 == Hex4(0, 1, 0, 0);
    Hex4Bits(0, 15, 15, 0, i);
    Hex4Bits(0, 3, 0, 0, i);
    Hex4Bits(0, 2, 0, 0, i);
    Hex4Bits(0, 1, 0, 0, i);
    DigitBits(if i < 4 then i else if i < 8 then i - 4 else if i < 12 then i - 8 else i - 12);
  }

  lemma FlagWord(zero: bool, sign: bool, underflow: bool, overflow: bool)
    ensures var word := Or16(Or16(Or16(if zero then 0x1 else 0, if sign then 0x2 else 0),
                                  if underflow then 0x4 else 0), if overflow then 0x8 else 0);
            && word < 16
            && BitAt(word, 0) == zero && BitAt(word, 1) == sign
            && BitAt(word, 2) == underflow && BitAt(word, 3) == overflow
  {
    var z, s, u, o := if zero then 0x1 else 0, if sign then 0x2 else 0, if underflow then 0x4 else 0,
                      if overflow then 0x8 else 0;
    FlagWordBits(z, s, u, o, 0);
    FlagWordBits(z, s, u, o, 1);
    FlagWordBits(z, s, u, o, 2);
    FlagWordBits(z, s, u, o, 3);
    DigitBits(0);
    DigitBits(1);
    DigitBits(2);
    DigitBits(3);
    assert Pow2(4) == 16;
    BitwiseBelow(z, s, 4);
    BitwiseBelow(Or(z, s), u, 4);
    BitwiseBelow(Or(Or(z, s), u), o, 4);
  }

  lemma FlagWordBits(z: uint16, s: uint16, u: uint16, o: uint16, i: nat)
    ensures BitAt(Or16(Or16(Or16(z, s), u), o), i) == (BitAt(z, i) || BitAt(s, i) || BitAt(u, i) || BitAt(o, i))
  {
    OpBits(z, s, i);
    OpBits(Or(z, s), u, i);
    OpBits(Or(Or(z, s), u), o, i);
  }

  /** (status & 0x0ff0) | current | (current << 6), bit by bit. */
  lemma StatusWordBits(status: uint16, current: uint16, i: nat)
    requires current < 16
    ensures BitAt(Or16(Or16(And16(status, 0x0ff0), current), current * 64), i)
            <==> (4 <= i < 12 && BitAt(status, i)) || BitAt(current, i) || (i >= 6 && BitAt(current, i - 6))
  {
    StatusMaskBits(i);
    OpBits(status, 0x0ff0, i);
    OpBits(And16(status, 0x0ff0), current, i);
    OpBits(Or16(And16(status, 0x0ff0), current), current * 64, i);
    Pow64();
    assert Pow2(6) == 64;
    ShiftBits(current, 6, i);
  }

  // ---- The updates --------------------------------------------------------------------------

  class VuContext {
    var macFlags: uint32
    var status: uint16

    ghost function State(): Flags
      reads this
    {
      Flags(MacBits(macFlags), StatusBits(status))
    }

    static method ClearLane(mac: uint32, shift: nat) returns (cleared: uint32)
      requires shift < 4
      ensures forall i :: 0 <= i < 32 ==> BitAt(cleared, i) == (BitAt(mac, i) && !InLane(shift, i))
    {
      cleared := And32(mac, Not32(LaneMask(1, 1, 1, 1, shift)));
      forall i | 0 <= i < 32 ensures BitAt(cleared, i) == (BitAt(mac, i) && !InLane(shift, i)) {
        LaneCleared(mac, shift, i);
      }
    }

    static method SetFlags(mac: uint32, d0: nat, d1: nat, d2: nat, d3: nat, shift: nat) returns (mac': uint32)
      requires d0 <= 1 && d1 <= 1 && d2 <= 1 && d3 <= 1 && shift < 4
      ensures forall i :: 0 <= i < 32 ==>
        BitAt(mac', i) == (BitAt(mac, i) || (InLane(shift, i) && Chosen(d0, d1, d2, d3, i / 4)))
    {
      mac' := Or32(mac, LaneMask(d0, d1, d2, d3, shift));
      forall i | 0 <= i < 32
        ensures BitAt(mac', i) == (BitAt(mac, i) || (InLane(shift, i) && Chosen(d0, d1, d2, d3, i / 4)))
      {
        LaneSet(mac, d0, d1, d2, d3, shift, i);
      }
    }

    /** The flag bits of one selected lane: cleared, then set one after the other. */
    static method UpdateLane(mac: uint32, lane: nat, bits: uint32) returns (mac': uint32)
      requires lane < 4
      ensures forall i :: 0 <= i < 32 ==>
        BitAt(mac', i) == if i < 16 && LaneOfBit(i) == lane then Flag(i / 4, bits) else BitAt(mac, i)
    {
      var shift := 3 - lane;
      mac' := ClearLane(mac, shift);
      if bits >= 0x8000_0000 {
        mac' := SetFlags(mac', 0, 1, 0, 0, shift);
      }
      var exponent := bits / 0x80_0000 % 0x100;
      if bits % 0x8000_0000 == 0 {
        mac' := SetFlags(mac', 1, 0, 0, 0, shift);
      } else if exponent == 0 {
        mac' := SetFlags(mac', 1, 0, 1, 0, shift);
      } else if exponent == 0xff {
        mac' := SetFlags(mac', 0, 0, 0, 1, shift);
      }
      ZeroMagnitude(bits);
    }

    /** The four lanes in turn, on top of the old flags or of none. */
    static method UpdateMac(before: uint32, result: Vector, dest: Dest, preserveUnselected: bool)
      returns (mac: uint32)
      ensures MacBits(mac) == MacAfter(MacBits(before), result, dest, preserveUnselected)
    {
      mac := if preserveUnselected then before else 0;
      ghost var was := MacBits(before);
      forall i | 0 <= i < 32 ensures BitAt(mac, i) == (preserveUnselected && was[i]) {
        ZeroBits(i);
      }
      for lane := 0 to 4
        invariant forall i :: 0 <= i < 32 ==> BitAt(mac, i) == BitAfter(was, result, dest, preserveUnselected, lane, i)
      {
        var laneMask := [8, 4, 2, 1][lane];
        LaneSelected(dest, lane, laneMask);
        if And(dest, laneMask) != 0 {
          mac := UpdateLane(mac, lane, result[lane]);
        }
      }
    }

    /** The four current flags, one bit for each kind. */
    static method CurrentFlags(mac: uint32) returns (current: uint16)
      ensures current < 16 && forall i :: 0 <= i < 4 ==> BitAt(current, i) == Summary(MacBits(mac))[i]
    {
      NibblesSet(mac);
      current := Flags4(And32(mac, 0x000f) != 0, And32(mac, 0x00f0) != 0,
                        And32(mac, 0x0f00) != 0, And32(mac, 0xf000) != 0);
    }

    static method Flags4(zero: bool, sign: bool, underflow: bool, overflow: bool) returns (word: uint16)
      ensures word < 16 && BitAt(word, 0) == zero && BitAt(word, 1) == sign
      ensures BitAt(word, 2) == underflow && BitAt(word, 3) == overflow
    {
      word := if zero then 0x1 else 0;
      word := Or16(word, if sign then 0x2 else 0);
      word := Or16(word, if underflow then 0x4 else 0);
      word := Or16(word, if overflow then 0x8 else 0);
      FlagWord(zero, sign, underflow, overflow);
    }

    /** The status half: current flags replaced, sticky ones added to. */
    static method UpdateStatus(before: uint16, mac: uint32) returns (status: uint16)
      ensures StatusBits(status) == StatusAfter(StatusBits(before), Summary(MacBits(mac)))
    {
      var current := CurrentFlags(mac);
      status := Or16(Or16(And16(before, 0x0ff0), current), current * 64);
      forall i | 0 <= i < 16
        ensures BitAt(status, i) == StatusAfter(StatusBits(before), Summary(MacBits(mac)))[i]
      {
        StatusWordBits(before, current, i);
        assert Pow2(4) == 16;
        if i >= 4 { HighBits(current, 4, i); }
        if i >= 10 { HighBits(current, 4, i - 6); }
      }
    }

    method UpdateFmacFlags(result: Vector, dest: Dest, preserveUnselected: bool)
      modifies this
      ensures State() == Step(old(State()), Fmac(result, dest, preserveUnselected))
    {
      var mac := UpdateMac(macFlags, result, dest, preserveUnselected);
      var newStatus := UpdateStatus(status, mac);
      macFlags := mac;
      status := newStatus;
    }

    static method Canonicalize(bits: uint32) returns (r: uint32)
      ensures r == Canonical(bits)
    {
      r := bits;
      var exponent := bits / 0x80_0000 % 0x100;
      if exponent == 0 {
        r := bits / 0x8000_0000 * 0x8000_0000;
      } else if exponent == 0xff {
        r := bits / 0x8000_0000 * 0x8000_0000 + 0x7f7f_ffff;
      }
    }

    method Rsqrt(fsBits: uint32, ftBits: uint32) returns (result: RsqrtResult)
      modifies this`status
      ensures State() == Step(old(State()), Op.Rsqrt(fsBits, ftBits))
      ensures result == RsqrtOf(fsBits, ftBits)
    {
      var signBit := if (fsBits >= 0x8000_0000) != (ftBits >= 0x8000_0000) then 0x8000_0000 else 0;
      var fs := Canonicalize(fsBits);
      var ft := Canonicalize(ftBits);
      CanonicalKeeps(fsBits);
      CanonicalKeeps(ftBits);
      ghost var before := status;
      status := And16(status, Not16(0x0030));
      if Magnitude(ft) == 0 {
        status := Or16(status, 0x0020);
        if Magnitude(fs) == 0 {
          status := Or16(status, 0x0010);
          result := Fixed(signBit);
        } else {
          result := Fixed(signBit + 0x7f7f_ffff);
        }
      } else {
        if Sign(ft) {
          status := Or16(status, 0x0010);
        }
        result := Quotient(fs, Magnitude(ft));
      }
      forall i | 0 <= i < 16
        ensures BitAt(status, i) == RsqrtStatus(StatusBits(before), fsBits, ftBits)[i]
      {
        DivideFlags(before, i);
      }
      assert StatusBits(status) == RsqrtStatus(StatusBits(before), fsBits, ftBits);
    }
  }

  lemma ZeroMagnitude(bits: uint32)
    ensures Magnitude(bits) == 0 ==> Exponent(bits) == 0
  {
  }

  lemma LaneCleared(mac: uint32, shift: nat, i: nat)
    requires shift < 4 && i < 32
    ensures BitAt(And32(mac, Not32(LaneMask(1, 1, 1, 1, shift))), i) == (BitAt(mac, i) && !InLane(shift, i))
  {
    var mask := LaneMask(1, 1, 1, 1, shift);
    LaneMaskBits(1, 1, 1, 1, shift, i);
    NotBits32(mask, i);
    OpBits(mac, Not32(mask), i);
  }

  lemma LaneSet(mac: uint32, d0: nat, d1: nat, d2: nat, d3: nat, shift: nat, i: nat)
    requires d0 <= 1 && d1 <= 1 && d2 <= 1 && d3 <= 1 && shift < 4 && i < 32
    ensures BitAt(Or32(mac, LaneMask(d0, d1, d2, d3, shift)), i)
            == (BitAt(mac, i)
                || (InLane(shift, i) && Chosen(d0, d1, d2, d3, i / 4)))
  {
    LaneMaskBits(d0, d1, d2, d3, shift, i);
    OpBits(mac, LaneMask(d0, d1, d2, d3, shift), i);
  }

  /** A one-bit mask picks the lane's bit out of the destination field. */
  lemma LaneSelected(dest: Dest, lane: nat, mask: nat)
    requires lane < 4 && mask == [8, 4, 2, 1][lane]
    ensures And(dest, mask) != 0 <==> Selects(dest, lane)
  {
    var k := 3 - lane;
    forall i: nat ensures BitAt(And(dest, mask), i) <==> BitAt(dest, i) && i == k {
      DigitBits(i);
      OpBits(dest, mask, i);
    }
    DestBits(dest);
    if And(dest, mask) != 0 {
      var i := SomeBit(And(dest, mask));
    } else {
      ZeroBits(k);
    }
  }

  lemma DestBits(dest: Dest)
    ensures BitAt(dest, 0) == Selects(dest, 3) && BitAt(dest, 1) == Selects(dest, 2)
    ensures BitAt(dest, 2) == Selects(dest, 1) && BitAt(dest, 3) == Selects(dest, 0)
  {
    assert dest / 2 / 2 == dest / 4 && dest / 2 / 2 / 2 == dest / 8;
    assert BitAt(dest, 2) == BitAt(dest / 2, 1) == BitAt(dest / 4, 0);
    assert BitAt(dest, 3) == BitAt(dest / 2, 2) == BitAt(dest / 4, 1) == BitAt(dest / 8, 0);
  }

  lemma CanonicalKeeps(bits: uint32)
    ensures Sign(Canonical(bits)) == Sign(bits)
    ensures Magnitude(Canonical(bits)) == 0 <==> IsZero(bits)
  {
  }

  /** The divide and invalid flags, cleared and set again. */
  lemma DivideFlags(status: uint16, i: nat)
    requires i < 16
    ensures var cleared := And16(status, Not16(0x0030));
            && BitAt(cleared, i) == (BitAt(status, i) && i != 4 && i != 5)
            && BitAt(Or16(cleared, 0x0010), i) == (BitAt(cleared, i) || i == 4)
            && BitAt(Or16(cleared, 0x0020), i) == (BitAt(cleared, i) || i == 5)
            && BitAt(Or16(Or16(cleared, 0x0020), 0x0010), i) == (BitAt(cleared, i) || i == 4 || i == 5)
  {
    var cleared := And16(status, Not16(0x0030));
    StatusMaskBits(i);
    NotBits16(0x0030, i);
    OpBits(status, Not16(0x0030), i);
    OpBits(cleared, 0x0010, i);
    OpBits(cleared, 0x0020, i);
    OpBits(Or16(cleared, 0x0020), 0x0010, i);
  }

  // ---- Whole runs ---------------------------------------------------------------------------

  function Run(s: Flags, ops: seq<Op>): Flags
    decreases |ops|
  {
    if ops == [] then s else Step(Run(s, ops[..|ops| - 1]), ops[|ops| - 1])
  }

  /** Operation n is an FMAC whose summary has bit k. */
  predicate Raises(s: Flags, ops: seq<Op>, n: nat, k: nat)
    requires n < |ops| && k < 4
  {
    ops[n].Fmac? && Summary(Run(s, ops[..n + 1]).mac)[k]
  }

  lemma PrefixRaises(s: Flags, ops: seq<Op>, n: nat, k: nat)
    requires n + 1 < |ops| && k < 4
    ensures Raises(s, ops, n, k) <==> Raises(s, ops[..|ops| - 1], n, k)
  {
    assert ops[..|ops| - 1][..n + 1] == ops[..n + 1];
  }

  lemma StepSticky(s: Flags, op: Op, k: nat)
    requires k < 4
    ensures Step(s, op).status[6 + k] <==> s.status[6 + k] || (op.Fmac? && Summary(Step(s, op).mac)[k])
  {
  }

  /** Sticky bits remember: bit 6 + k is set exactly when it was set at the start or some FMAC on the
      way raised flag k. */
  lemma {:induction false} StickyIsHistory(s: Flags, ops: seq<Op>, k: nat)
    requires k < 4
    ensures Run(s, ops).status[6 + k] <==> s.status[6 + k] || exists n :: 0 <= n < |ops| && Raises(s, ops, n, k)
    decreases |ops|
  {
    if ops != [] {
      var last := |ops| - 1;
      StickyIsHistory(s, ops[..last], k);
      assert ops[..last + 1] == ops;
      forall n | 0 <= n < last ensures Raises(s, ops, n, k) <==> Raises(s, ops[..last], n, k) {
        PrefixRaises(s, ops, n, k);
      }
      StepSticky(Run(s, ops[..last]), ops[last], k);
      assert Run(s, ops) == Step(Run(s, ops[..last]), ops[last]);
      assert Raises(s, ops, last, k) <==> ops[last].Fmac? && Summary(Run(s, ops).mac)[k];
    }
  }

  /** How many operations of a run there are up to and including its last FMAC. */
  function LastFmac(ops: seq<Op>): nat
    decreases |ops|
  {
    if ops == [] || ops[|ops| - 1].Fmac? then |ops| else LastFmac(ops[..|ops| - 1])
  }

  /** Current bits are current: they are the summary of the MAC flags left by the latest FMAC, and
      untouched while there is none. */
  lemma {:induction false} CurrentIsLatest(s: Flags, ops: seq<Op>, k: nat)
    requires k < 4
    ensures LastFmac(ops) <= |ops|
    ensures Run(s, ops).mac == Run(s, ops[..LastFmac(ops)]).mac
    ensures Run(s, ops).status[k]
            == if LastFmac(ops) == 0 then s.status[k] else Summary(Run(s, ops).mac)[k]
    decreases |ops|
  {
    if ops == [] {
    } else if ops[|ops| - 1].Fmac? {
      assert ops[..|ops|] == ops;
    } else {
      var rest := ops[..|ops| - 1];
      CurrentIsLatest(s, rest, k);
      assert rest[..LastFmac(rest)] == ops[..LastFmac(rest)];
    }
  }

  /** VRSQRT replaces bits 4 and 5 and nothing else; FMAC updates leave those two alone. */
  lemma DivideBits(s: Flags, op: Op, i: nat)
    requires i < 16
    ensures op.Rsqrt? && i != 4 && i != 5 ==> Step(s, op).status[i] == s.status[i]
    ensures op.Rsqrt? ==> Step(s, op).mac == s.mac
    ensures op.Fmac? && (i == 4 || i == 5) ==> Step(s, op).status[i] == s.status[i]
    ensures op.Rsqrt? ==> Step(s, op).status[5] == IsZero(op.ft)
    ensures op.Rsqrt? ==> Step(s, op).status[4] == if IsZero(op.ft) then IsZero(op.fs) else Sign(op.ft)
  {
  }

  /** Unselected lanes keep their MAC bits when asked to, and lose them otherwise. */
  lemma UnselectedLanes(s: Flags, result: Vector, dest: Dest, preserve: bool, lane: nat, kind: nat)
    requires lane < 4 && kind < 4 && !Selects(dest, lane)
    ensures Step(s, Fmac(result, dest, preserve)).mac[4 * kind + 3 - lane]
            == (preserve && s.mac[4 * kind + 3 - lane])
  {
    assert LaneOfBit(4 * kind + 3 - lane) == lane;
  }

  /** The destination bits 8, 4, 2 and 1 stand for x, y, z and w, whose flags go to bits 3, 2, 1 and 0 of
      each nibble; the nibbles are zero, sign, underflow and overflow, from the lowest. */
  lemma OneLane(mac: Mac, result: Vector, preserve: bool, lane: nat, i: nat)
    requires lane < 4 && i < 32
    ensures var after := MacAfter(mac, result, [8, 4, 2, 1][lane], preserve);
            var bits := result[lane];
            after[i] ==
              if i == 3 - lane then bits / 0x80_0000 % 0x100 == 0
              else if i == 7 - lane then bits >= 0x8000_0000
              else if i == 11 - lane then bits / 0x80_0000 % 0x100 == 0 && bits % 0x8000_0000 != 0
              else if i == 15 - lane then bits / 0x80_0000 % 0x100 == 0xff
              else preserve && mac[i]
  {
    var dest: Dest := [8, 4, 2, 1][lane];
    assert forall l :: 0 <= l < 4 ==> (Selects(dest, l) <==> l == lane);
    assert i < 16 && LaneOfBit(i) == lane ==> i == 4 * (i / 4) + 3 - lane;
  }

  /** An update of one lane, if the destination has it. */
  function LaneAfter(mac: Mac, result: Vector, dest: Dest, lane: nat): Mac
    requires lane < 4
  {
    if dest / [8, 4, 2, 1][lane] % 2 == 1 then MacAfter(mac, result, [8, 4, 2, 1][lane], true) else mac
  }

  /** An update of several lanes is the single-lane updates one after another, on the old flags or on none. */
  lemma SeveralLanes(mac: Mac, result: Vector, dest: Dest, preserve: bool)
    ensures var start: Mac := if preserve then mac else seq(32, _ => false);
            MacAfter(mac, result, dest, preserve)
            == LaneAfter(LaneAfter(LaneAfter(LaneAfter(start, result, dest, 0), result, dest, 1), result, dest, 2),
                         result, dest, 3)
  {
    var start: Mac := if preserve then mac else seq(32, _ => false);
    var x := LaneAfter(start, result, dest, 0);
    var y := LaneAfter(x, result, dest, 1);
    var z := LaneAfter(y, result, dest, 2);
    var w := LaneAfter(z, result, dest, 3);
    forall i | 0 <= i < 32 ensures w[i] == MacAfter(mac, result, dest, preserve)[i] {
      OneMoreLane(start, result, dest, 0, i);
      OneMoreLane(x, result, dest, 1, i);
      OneMoreLane(y, result, dest, 2, i);
      OneMoreLane(z, result, dest, 3, i);
    }
    assert w == MacAfter(mac, result, dest, preserve);
  }

  lemma OneMoreLane(mac: Mac, result: Vector, dest: Dest, lane: nat, i: nat)
    requires lane < 4 && i < 32
    ensures LaneAfter(mac, result, dest, lane)[i]
            == if i < 16 && LaneOfBit(i) == lane && Selects(dest, lane) then Flag(i / 4, result[lane]) else mac[i]
  {
    var only: Dest := [8, 4, 2, 1][lane];
    assert forall l :: 0 <= l < 4 ==> (Selects(only, l) <==> l == lane);
  }
}
