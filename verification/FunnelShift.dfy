/** QFSRV: the low 128 bits of a 256-bit right shift. */
module FunnelShift {
  import opened Bits
  import opened Instructions
  import opened LittleEndian

  const TWO_128: int := TWO_64 * TWO_64

  type uint128 = x: int | 0 <= x < TWO_128

  /** The quadword rs above the quadword rt, shifted right. */
  function Funnel(rs: uint128, rt: uint128, sa: nat): uint128 {
    Quot(rs * TWO_128 + rt, Pow2(sa)) % TWO_128
  }

  /** A 64-bit lane filled from a neighbour above: (lo >> s) | (hi << (64 - s)). */
  function ShiftLane(lo: uint64, hi: uint64, s: nat): nat
    requires 0 < s < 64
  {
    Or(Quot(lo, Pow2(s)), hi * Pow2(64 - s) % TWO_64)
  }

  /** Two lanes divided: the low one divided, and the high one moved down. */
  lemma PairQuotient(lo: nat, hi: nat, a: nat, b: nat)
    requires a > 0
    ensures a * b >= 0 && a * b * hi >= 0 && Quot(lo + a * b * hi, a) == Quot(lo, a) + hi * b
  {
    NonNegative(a, b);
    NonNegative(a * b, hi);
    NonNegative(hi, b);
    var q, r := Quot(lo, a), lo % a;
    assert (q + hi * b) * a + r == q * a + r + a * b * hi;
    QuotientIs(lo + a * b * hi, a, q + hi * b, r);
  }

  lemma LaneOfPair(lo: nat, hi: nat, a: nat, b: nat, n: nat, lane: nat)
    requires a > 0 && lane == a * b && b == Pow2(n) && lo < lane
    ensures hi * b >= 0 && lane * hi >= 0
    ensures Or(Quot(lo, a), hi * b % lane) == Quot(lo + lane * hi, a) % lane
  {
    NonNegative(hi, b);
    NonNegative(lane, hi);
    QuotBelow(lo, a, b);
    HighKept(0, hi, a, b);
    HighKept(Quot(lo, a), hi, a, b);
    PairQuotient(lo, hi, a, b);
    OrDisjoint(Quot(lo, a), hi % a, n);
  }

  /** That is what the shift of both lanes together leaves in the lower one. */
  lemma LaneIsShift(lo: uint64, hi: uint64, s: nat)
    requires 0 < s < 64
    ensures ShiftLane(lo, hi, s) == Quot(lo + TWO_64 * hi, Pow2(s)) % TWO_64
  {
    Pow64();
    PowAdd(s, 64 - s);
    LaneOfPair(lo, hi, Pow2(s), Pow2(64 - s), 64 - s, TWO_64);
  }

  // ---- The 256 bits as bytes and as lanes ---------------------------------------------------

  /** rt's bytes, then rs's. */
  function Combined(rs: uint128, rt: uint128): (bytes: seq<byte>)
    ensures |bytes| == 32
  {
    ToBytes(rt, 16) + ToBytes(rs, 16)
  }

  lemma Limits()
    ensures Limit(8) == TWO_64 && Limit(16) == TWO_128
  {
    LimitIsPow(8);
    LimitIsPow(16);
    Pow64();
    PowAdd(64, 64);
  }

  lemma CombinedValue(rs: uint128, rt: uint128)
    ensures FromBytes(Combined(rs, rt)) == rs * TWO_128 + rt
  {
    Limits();
    FromToBytes(rs, 16);
    FromToBytes(rt, 16);
    FromBytesConcat(ToBytes(rt, 16), ToBytes(rs, 16));
  }

  /** Shifting by whole bytes selects sixteen of them. */
  lemma ByteSelect(bytes: seq<byte>, rs: uint128, rt: uint128, byteShift: nat)
    requires |bytes| == 32 && FromBytes(bytes) == rs * TWO_128 + rt && byteShift <= 16
    ensures FromBytes(bytes[byteShift..byteShift + 16]) == Funnel(rs, rt, 8 * byteShift)
  {
    SliceValue(bytes, byteShift, 16);
    LimitIsPow(byteShift);
    Limits();
  }

  /** Lane i of the four 64-bit lanes, lowest first. */
  function Lane(bytes: seq<byte>, i: nat): (lane: uint64)
    requires 8 * i + 8 <= |bytes|
  {
    FromBytesBelow(bytes[8 * i..8 * i + 8]);
    Limits();
    FromBytes(bytes[8 * i..8 * i + 8])
  }

  lemma LanePair(bytes: seq<byte>, i: nat)
    requires 8 * i + 16 <= |bytes|
    ensures Lane(bytes, i) + TWO_64 * Lane(bytes, i + 1)
            == Quot(FromBytes(bytes), Pow2(64 * i)) % TWO_128
  {
    Limits();
    SliceValue(bytes, 8 * i, 16);
    LimitIsPow(8 * i);
    var low, high := bytes[8 * i..8 * i + 8], bytes[8 * (i + 1)..8 * (i + 1) + 8];
    assert bytes[8 * i..8 * i + 16] == low + high;
    FromBytesConcat(low, high);
  }

  /** Two neighbouring lanes shifted by s give 64 bits of the whole shifted by 64 * i + s. */
  lemma LaneShiftIs(bytes: seq<byte>, i: nat, s: nat)
    requires 8 * i + 16 <= |bytes| && 0 < s < 64
    ensures ShiftLane(Lane(bytes, i), Lane(bytes, i + 1), s)
            == Quot(FromBytes(bytes), Pow2(64 * i + s)) % TWO_64
  {
    var v := FromBytes(bytes);
    LaneIsShift(Lane(bytes, i), Lane(bytes, i + 1), s);
    LanePair(bytes, i);
    ShiftWindow(Quot(v, Pow2(64 * i)), s);
    PowAdd(64 * i, s);
    DivDiv(v, Pow2(64 * i), Pow2(s));
  }

  lemma ShiftWindow(x: nat, s: nat)
    requires 0 < s < 64
    ensures Quot(x % TWO_128, Pow2(s)) % TWO_64 == Quot(x, Pow2(s)) % TWO_64
  {
    Pow64();
    PowAdd(64, 64 - s);
    PowAdd(s, 64 + (64 - s));
    PowAdd(64, 64);
    ModDivMod(x, Pow2(s), TWO_64, Pow2(64 - s));
  }

  /** Both result lanes together are the funnel shift of the number the lanes hold. */
  lemma LanesShifted(bytes: seq<byte>, rs: uint128, rt: uint128, i: nat, s: nat)
    requires |bytes| == 32 && FromBytes(bytes) == rs * TWO_128 + rt
    requires i <= 1 && 0 < s < 64
    ensures ShiftLane(Lane(bytes, i), Lane(bytes, i + 1), s)
            + TWO_64 * ShiftLane(Lane(bytes, i + 1), Lane(bytes, i + 2), s)
            == Funnel(rs, rt, 64 * i + s)
  {
    LaneShiftIs(bytes, i, s);
    LaneShiftIs(bytes, i + 1, s);
    LanesJoin(rs, rt, 64 * i + s, ShiftLane(Lane(bytes, i), Lane(bytes, i + 1), s),
              ShiftLane(Lane(bytes, i + 1), Lane(bytes, i + 2), s));
  }

  /** The funnel shift by e, from 64 bits of the shift by e and 64 bits of the shift by e + 64. */
  lemma LanesJoin(rs: uint128, rt: uint128, e: nat, r0: nat, r1: nat)
    requires r0 == Quot(rs * TWO_128 + rt, Pow2(e)) % TWO_64
    requires r1 == Quot(rs * TWO_128 + rt, Pow2(e + 64)) % TWO_64
    ensures r0 + TWO_64 * r1 == Funnel(rs, rt, e)
  {
    Pow64();
    PowAdd(e, 64);
    JoinLanes(rs * TWO_128 + rt, Pow2(e), TWO_64);
  }

  lemma JoinLanes(v: nat, p: nat, w: nat)
    requires p > 0 && w > 0
    ensures p * w > 0 && w * w > 0 && Quot(v, p) % (w * w) == Quot(v, p) % w + w * (Quot(v, p * w) % w)
  {
    AtLeastOnce(w, w);
    DivDiv(v, p, w);
    TwoDigits(Quot(v, p), w);
  }

  // ---- Shifts of 128 and more ---------------------------------------------------------------

  lemma FunnelBeyondLow(rs: uint128, rt: uint128, shift: nat)
    ensures Funnel(rs, rt, 128 + shift) == Funnel(0, rs, shift)
  {
    var v := rs * TWO_128 + rt;
    Pow64();
    PowAdd(64, 64);
    PowAdd(128, shift);
    DivDiv(v, Pow2(128), Pow2(shift));
    QuotientIs(v, TWO_128, rs, rt);
  }

  /** A funnel shift with nothing above is a plain shift, and plain shifts add up. */
  lemma PlainShifts(x: uint128, m: nat, n: nat)
    ensures Funnel(0, x, m) == Quot(x, Pow2(m))
    ensures Funnel(0, Funnel(0, x, m), n) == Funnel(0, x, m + n)
  {
    PlainShift(x, m);
    PlainShift(x, m + n);
    PlainShift(Funnel(0, x, m), n);
    PowAdd(m, n);
    DivDiv(x, Pow2(m), Pow2(n));
  }

  lemma PlainShift(x: uint128, m: nat)
    ensures Funnel(0, x, m) == Quot(x, Pow2(m)) <= x
  {
    var q := Quot(x, Pow2(m));
    assert q * Pow2(m) <= x && q * Pow2(m) >= q by {
      if q > 0 { AtLeastOnce(Pow2(m), q); }
    }
    SmallMod(q, TWO_128);
  }

  lemma FunnelLarge(rs: uint128, rt: uint128, sa: nat)
    requires sa >= 256
    ensures Funnel(rs, rt, sa) == 0
  {
    FunnelBeyondLow(rs, rt, sa - 128);
    FunnelBeyondLow(0, rs, sa - 256);
    PlainShift(0, sa - 256);
  }

  // ---- The implementation -------------------------------------------------------------------

  /** The sixteen bytes from byteShift on, zero where there are none. */
  function Selected(src: seq<byte>, byteShift: nat): (bytes: seq<byte>)
    ensures |bytes| == 16
  {
    seq(16, i requires 0 <= i < 16 => if i + byteShift < |src| then src[i + byteShift] else 0)
  }

  lemma SelectedIs(bytes: seq<byte>, rs: uint128, rt: uint128, byteShift: nat)
    requires |bytes| == 32 && FromBytes(bytes) == rs * TWO_128 + rt && byteShift <= 16
    ensures FromBytes(Selected(bytes, byteShift)) == Funnel(rs, rt, 8 * byteShift)
  {
    ByteSelect(bytes, rs, rt, byteShift);
    assert bytes[byteShift..byteShift + 16] == Selected(bytes, byteShift);
  }

  predicate AllZero(bytes: seq<byte>) {
    forall j :: 0 <= j < |bytes| ==> bytes[j] == 0
  }

  lemma {:induction false} ZeroBytes(n: nat)
    ensures AllZero(ToBytes(0, n))
    decreases n
  {
    if n > 0 {
      ZeroBytes(n - 1);
      assert ToBytes(0, n) == [0] + ToBytes(0, n - 1);
    }
  }

  /** Sixteen bytes are as good as thirty-two whose upper half is zero. */
  lemma SelectedShort(bytes: seq<byte>, zeros: seq<byte>, byteShift: nat)
    requires AllZero(zeros)
    ensures Selected(bytes, byteShift) == Selected(bytes + zeros, byteShift)
  {
  }

  method SelectBytes(src: seq<byte>, byteShift: nat) returns (buf: seq<byte>)
    ensures buf == Selected(src, byteShift)
  {
    var shifted := new byte[16](_ => 0);
    for i := 0 to 16
      invariant forall k :: 0 <= k < i ==> shifted[k] == if k + byteShift < |src| then src[k + byteShift] else 0
    {
      shifted[i] := if i + byteShift < |src| then src[i + byteShift] else 0;
    }
    buf := shifted[..];
  }

  /** Both lanes of a quadword shifted by less than a byte: each takes the low bits of the one above it. */
  method ShiftQuadword(bytes: seq<byte>, bitShift: nat) returns (r: uint128)
    requires |bytes| == 16 && 0 < bitShift < 8
    ensures FromBytes(bytes) < TWO_128 && r == Funnel(0, FromBytes(bytes), bitShift)
  {
    QuadwordBelow(bytes);
    PlainLanes(bytes, FromBytes(bytes), bitShift);
    r := ShiftLane(Lane(bytes, 0), Lane(bytes, 1), bitShift) + TWO_64 * Quot(Lane(bytes, 1), Pow2(bitShift));
  }

  lemma QuadwordBelow(bytes: seq<byte>)
    requires |bytes| == 16
    ensures FromBytes(bytes) < TWO_128
  {
    Limits();
    FromBytesBelow(bytes);
  }

  lemma PlainLanes(bytes: seq<byte>, x: uint128, s: nat)
    requires |bytes| == 16 && FromBytes(bytes) == x && 0 < s < 64
    ensures ShiftLane(Lane(bytes, 0), Lane(bytes, 1), s) + TWO_64 * Quot(Lane(bytes, 1), Pow2(s)) == Funnel(0, x, s)
  {
    var zeros := ToBytes(0, 16);
    ZeroBytes(16);
    ExtendedValue(bytes, zeros);
    LanesShifted(bytes + zeros, 0, x, 0, s);
    LanesOfExtended(bytes, zeros);
    LastLane(Lane(bytes, 1), s);
  }

  /** Zero bytes on top do not change a number, and add zero lanes. */
  lemma ExtendedValue(bytes: seq<byte>, zeros: seq<byte>)
    requires AllZero(zeros)
    ensures FromBytes(bytes + zeros) == FromBytes(bytes)
  {
    ZerosAreZero(zeros);
    FromBytesConcat(bytes, zeros);
  }

  lemma LanesOfExtended(bytes: seq<byte>, zeros: seq<byte>)
    requires |bytes| == 16 == |zeros| && AllZero(zeros)
    ensures Lane(bytes + zeros, 0) == Lane(bytes, 0) && Lane(bytes + zeros, 1) == Lane(bytes, 1)
    ensures Lane(bytes + zeros, 2) == 0
  {
    var c := bytes + zeros;
    assert c[0..8] == bytes[0..8] && c[8..16] == bytes[8..16];
    ZerosAreZero(c[16..24]);
  }

  /** Nothing moves into the top lane. */
  lemma LastLane(hi: uint64, s: nat)
    requires 0 < s < 64
    ensures ShiftLane(hi, 0, s) == Quot(hi, Pow2(s))
  {
    OrZeroRight(Quot(hi, Pow2(s)));
  }

  lemma {:induction false} ZerosAreZero(bs: seq<byte>)
    requires AllZero(bs)
    ensures FromBytes(bs) == 0
    decreases |bs|
  {
    if bs != [] {
      ZerosAreZero(bs[1..]);
    }
  }

  lemma FunnelByZero(rs: uint128, rt: uint128)
    ensures Funnel(rs, rt, 0) == rt
  {
    RemainderIs(rs * TWO_128 + rt, TWO_128, rs, rt);
  }

  lemma SelectedDown(rs: uint128, byteShift: nat)
    requires byteShift <= 16
    ensures FromBytes(Selected(ToBytes(rs, 16), byteShift)) == Funnel(0, rs, 8 * byteShift)
  {
    var bytes, zeros := ToBytes(rs, 16), ToBytes(0, 16);
    Limits();
    FromToBytes(rs, 16);
    ZeroBytes(16);
    ExtendedValue(bytes, zeros);
    SelectedShort(bytes, zeros, byteShift);
    SelectedIs(bytes + zeros, 0, rs, byteShift);
  }

  lemma ByBytesThenBits(x: uint128, shift: nat)
    ensures Funnel(0, Funnel(0, x, 8 * (shift / 8)), shift % 8) == Funnel(0, x, shift)
  {
    PlainShifts(x, 8 * (shift / 8), shift % 8);
  }

  /** The path for shifts above 128: rs alone, by bytes and then by bits. */
  method ShiftDown(rs: uint128, shift: nat) returns (r: uint128)
    requires 0 < shift < 128
    ensures r == Funnel(0, rs, shift)
  {
    var byteShift := shift / 8;
    var bitShift := shift % 8;
    var buf := SelectBytes(ToBytes(rs, 16), byteShift);
    SelectedDown(rs, byteShift);
    r := ShiftRest(buf, bitShift);
    ByBytesThenBits(rs, shift);
  }

  /** The bits that remain after the bytes. */
  method ShiftRest(buf: seq<byte>, bitShift: nat) returns (r: uint128)
    requires |buf| == 16 && bitShift < 8
    ensures FromBytes(buf) < TWO_128 && r == Funnel(0, FromBytes(buf), bitShift)
  {
    QuadwordBelow(buf);
    if bitShift > 0 {
      r := ShiftQuadword(buf, bitShift);
    } else {
      FunnelByZero(0, FromBytes(buf));
      r := FromBytes(buf);
    }
  }

  /** The lane path for shifts below 128. */
  method ShiftLanes(bytes: seq<byte>, sa: nat, ghost rs: uint128, ghost rt: uint128) returns (r: uint128)
    requires |bytes| == 32 && FromBytes(bytes) == rs * TWO_128 + rt
    requires 0 < sa < 128
    ensures r == Funnel(rs, rt, sa)
  {
    var lo0, lo1, hi0, hi1 := Lane(bytes, 0), Lane(bytes, 1), Lane(bytes, 2), Lane(bytes, 3);
    if sa < 64 {
      LanesShifted(bytes, rs, rt, 0, sa);
      r := ShiftLane(lo0, lo1, sa) + TWO_64 * ShiftLane(lo1, hi0, sa);
    } else {
      var s := sa - 64;
      if s == 0 {
        LanePair(bytes, 1);
        r := lo1 + TWO_64 * hi0;
      } else {
        LanesShifted(bytes, rs, rt, 1, s);
        r := ShiftLane(lo1, hi0, s) + TWO_64 * ShiftLane(hi0, hi1, s);
      }
    }
  }

  /** The path for shifts below 128: whole bytes are selected, anything else goes through the lanes. */
  method ShiftAcross(combined: seq<byte>, sa: nat, ghost rs: uint128, ghost rt: uint128) returns (r: uint128)
    requires |combined| == 32 && FromBytes(combined) == rs * TWO_128 + rt
    requires 0 < sa < 128
    ensures r == Funnel(rs, rt, sa)
  {
    var byteShift := sa / 8;
    var bitShift := sa % 8;
    var shifted := SelectBytes(combined, byteShift);
    if bitShift > 0 {
      r := ShiftLanes(combined, sa, rs, rt);
    } else {
      SelectedIs(combined, rs, rt, byteShift);
      QuadwordBelow(shifted);
      r := FromBytes(shifted);
    }
  }

  /** Main result: on every path, for every shift amount, QFSRV is the funnel shift. */
  method Qfsrv(rs: uint128, rt: uint128, sa: uint32) returns (r: uint128)
    ensures r == Funnel(rs, rt, sa)
  {
    if sa == 0 {
      FunnelByZero(rs, rt);
      return rt;
    }
    if sa >= 128 {
      if sa >= 256 {
        FunnelLarge(rs, rt, sa);
        return 0;
      }
      var shift := sa - 128;
      FunnelBeyondLow(rs, rt, shift);
      if shift == 0 {
        FunnelByZero(0, rs);
        return rs;
      }
      r := ShiftDown(rs, shift);
      return;
    }
    CombinedValue(rs, rt);
    r := ShiftAcross(Combined(rs, rt), sa, rs, rt);
  }
}
