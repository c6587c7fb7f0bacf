/** Comparing code with database symbols, whatever the linker put into its relocations. */
module SymbolMatching {
  import opened Bits
  import opened Instructions
  import opened LittleEndian
  import opened Words

  datatype RelocationType = None | Mips26 | MipsLo16 | MipsHi16 | Mips32 | MipsGpRel16 | MipsLiteral

  /** How many low bits of a word the relocation may change. */
  function RelocatedBits(t: RelocationType): (bits: nat)
    ensures bits in {0, 16, 26, 32}
  {
    match t
    case None => 0
    case Mips26 => 26
    case Mips32 => 32
    case _ => 16
  }

  /** The word without its relocatable bits. */
  function Masked(t: RelocationType, value: uint32): (r: uint32)
    ensures r <= value
  {
    match RelocatedBits(t)
    case 0 => value
    case 16 => value / 0x1_0000 * 0x1_0000
    case 26 => value / 0x400_0000 * 0x400_0000
    case _ => 0
  }

  /** What a relocation of each kind leaves of a word: all of it, the six bits of the opcode, the upper
      half, or nothing. */
  lemma MaskedByKind(v: uint32, w: uint32)
    ensures Masked(None, v) == v
    ensures Masked(Mips26, v) == v / 0x400_0000 * 0x400_0000
    ensures Masked(MipsLo16, v) == Masked(MipsHi16, v) == v / 0x1_0000 * 0x1_0000
    ensures Masked(MipsGpRel16, v) == Masked(MipsLiteral, v) == v / 0x1_0000 * 0x1_0000
    ensures Masked(Mips32, v) == 0
    ensures Masked(Mips26, v) == Masked(Mips26, w) <==> v / 0x400_0000 == w / 0x400_0000
    ensures Masked(MipsLo16, v) == Masked(MipsLo16, w) <==> v / 0x1_0000 == w / 0x1_0000
  {
  }

  /** The mask of a trie edge. */
  function RelocationMask(t: RelocationType): uint32 {
    match t
    case None => 0xFFFF_FFFF
    case Mips26 => 0xFC00_0000
    case MipsLo16 => 0xFFFF_0000
    case MipsHi16 => 0xFFFF_0000
    case MipsGpRel16 => 0xFFFF_0000
    case MipsLiteral => 0xFFFF_0000
    case Mips32 => 0
  }

  /** And-ing with the mask is dropping the relocatable bits. */
  lemma RelocationMaskIs(t: RelocationType, value: uint32)
    ensures And32(value, RelocationMask(t)) == Masked(t, value)
  {
    Pow32();
    match t
    case None =>
      AndOnes(value, 32);
      SmallMod(value, TWO_32);
    case Mips26 =>
      PowersOf26();
      HighMask(value, 6, 26);
    case Mips32 => AndZero(value);
    case _ => HighMask(value, 16, 16);
  }

  lemma PowersOf26()
    ensures Pow2(6) == 64 && Pow2(26) == 0x400_0000
  {
    Pow32();
    Pow8();
    PowAdd(3, 3);
    PowAdd(16, 8);
    PowAdd(24, 2);
    assert Pow2(2) == 4;
  }

  lemma HighMask(value: nat, high: nat, low: nat)
    requires value < Pow2(low) * Pow2(high)
    ensures (Pow2(high) - 1) * Pow2(low) >= 0
    ensures And(value, (Pow2(high) - 1) * Pow2(low)) == Quot(value, Pow2(low)) * Pow2(low)
  {
    AndAbove(value, Pow2(high) - 1, low);
    AndOnes(Quot(value, Pow2(low)), high);
    QuotBelow(value, Pow2(low), Pow2(high));
    SmallMod(Quot(value, Pow2(low)), Pow2(high));
  }

  method DisabledRelocationValue(t: RelocationType, value: uint32) returns (r: uint32)
    ensures r == Masked(t, value)
  {
    RelocationMaskIs(t, value);
    match t {
      case None => r := value;
      case Mips26 => r := And32(value, 0xFC00_0000);
      case Mips32 => r := 0;
      case _ => r := And32(value, 0xFFFF_0000);
    }
  }

  function Word(data: seq<byte>, at: nat): (w: uint32)
    requires at + 4 <= |data|
  {
    FromBytesBelow(data[at..at + 4]);
    assert Limit(4) == TWO_32;
    FromBytes(data[at..at + 4])
  }

  // ---- What masking does to single bytes ----------------------------------------------------

  /** The byte masks 0xFF, 0xFC and 0x00. */
  datatype Keep = All | TopSix | Nothing

  /** The mask that and-ing two of them gives. */
  function Meet(a: Keep, b: Keep): Keep {
    if a == Nothing || b == Nothing then Nothing else if a == TopSix || b == TopSix then TopSix else All
  }

  function Mask(keep: Keep, b: byte): byte {
    match keep
    case All => b
    case TopSix => b / 4 * 4
    case Nothing => 0
  }

  lemma MaskMeet(a: Keep, c: Keep, b: byte)
    ensures Mask(a, Mask(c, b)) == Mask(Meet(a, c), b)
  {
  }

  /** The mask of byte j of a relocated word. */
  function KeepAt(t: RelocationType, j: nat): Keep
    requires j < 4
  {
    match RelocatedBits(t)
    case 0 => All
    case 16 => if j >= 2 then All else Nothing
    case 26 => if j == 3 then TopSix else Nothing
    case _ => Nothing
  }

  lemma MaskedBytes(t: RelocationType, value: uint32, j: nat)
    requires j < 4
    ensures ByteOf(Masked(t, value), j) == Mask(KeepAt(t, j), ByteOf(value, j))
  {
    var bs := ToBytes(value, 4);
    assert Limit(4) == TWO_32;
    FromToBytes(value, 4);
    FourBytes(bs);
    ToBytesAt(value, 4, j);
    var kept := match RelocatedBits(t)
      case 0 => bs
      case 16 => [0, 0, bs[2], bs[3]]
      case 26 => [0, 0, 0, bs[3] / 4 * 4]
      case _ => [0, 0, 0, 0];
    FourBytes(kept);
    var b0: int, b1: int, b2: int, b3: int := bs[0], bs[1], bs[2], bs[3];
    HighPart(b0 + 0x100 * b1, b2 + 0x100 * b3, b0 + 0x100 * b1 + 0x1_0000 * b2, b3);
    assert FromBytes(kept) == Masked(t, value);
    FromBytesAt(kept, j);
  }

  /** A little-endian word, byte by byte. */
  lemma WordIs(data: seq<byte>, at: nat)
    requires at + 4 <= |data|
    ensures var b0: int, b1: int, b2: int, b3: int := data[at], data[at + 1], data[at + 2], data[at + 3];
            Word(data, at) == b0 + 0x100 * b1 + 0x1_0000 * b2 + 0x100_0000 * b3
  {
    FourBytes(data[at..at + 4]);
  }

  lemma HighPart(low16: nat, high16: nat, low24: nat, high8: byte)
    requires low16 < 0x1_0000 && low24 < 0x100_0000
    ensures (low16 + 0x1_0000 * high16) / 0x1_0000 == high16
    ensures (low24 + 0x100_0000 * high8) / 0x400_0000 == high8 / 4
  {
  }

  // ---- A whole window -----------------------------------------------------------------------

  datatype Relocation = Relocation(offset: uint32, kind: RelocationType)

  /** Relocations that do not fit in the symbol are skipped. */
  predicate Fits(r: Relocation, size: nat) {
    r.offset <= size && size - r.offset >= 4
  }

  /** What relocation r lets through at byte k of a window. */
  function KeepOf(r: Relocation, size: nat, k: nat): Keep {
    if Fits(r, size) && r.offset <= k < r.offset + 4 then KeepAt(r.kind, k - r.offset) else All
  }

  /** What all the relocations together let through there. */
  function WindowKeep(rs: seq<Relocation>, size: nat, k: nat): Keep
    decreases |rs|
  {
    if rs == [] then All else Meet(KeepOf(rs[|rs| - 1], size, k), WindowKeep(rs[..|rs| - 1], size, k))
  }

  /** The window and-ed with one mask, byte by byte. */
  function MaskedWindow(rs: seq<Relocation>, window: seq<byte>): (masked: seq<byte>)
    ensures |masked| == |window|
  {
    seq(|window|, k requires 0 <= k < |window| => Mask(WindowKeep(rs, |window|, k), window[k]))
  }

  /** One relocation, cleared in place. */
  method ClearRelocation(bytes: array<byte>, r: Relocation)
    modifies bytes
    ensures forall k :: 0 <= k < bytes.Length ==> bytes[k] == Mask(KeepOf(r, bytes.Length, k), old(bytes[k]))
  {
    if r.offset > bytes.Length || bytes.Length - r.offset < 4 {
      return;
    }
    ghost var before := bytes[..];
    var value := DisabledRelocationValue(r.kind, Word(bytes[..], r.offset));
    forall j | 0 <= j < 4
      ensures ByteOf(value, j) == Mask(KeepAt(r.kind, j), before[r.offset + j])
    {
      MaskedBytes(r.kind, Word(before, r.offset), j);
      FromBytesAt(before[r.offset..r.offset + 4], j);
    }
    for j := 0 to 4
      invariant forall k :: 0 <= k < bytes.Length ==>
        bytes[k] == if r.offset <= k < r.offset + j then Mask(KeepAt(r.kind, k - r.offset), before[k]) else before[k]
    {
      bytes[r.offset + j] := ByteOf(value, j);
    }
  }

  /** The relocation loop over a copy of the window. */
  method ClearRelocations(window: seq<byte>, rs: seq<Relocation>) returns (cleared: seq<byte>)
    ensures cleared == MaskedWindow(rs, window)
  {
    var bytes := new byte[|window|](k requires 0 <= k < |window| => window[k]);
    for i := 0 to |rs|
      invariant forall k :: 0 <= k < |window| ==> bytes[k] == Mask(WindowKeep(rs[..i], |window|, k), window[k])
    {
      ghost var before := bytes[..];
      ClearRelocation(bytes, rs[i]);
      assert rs[..i + 1][..i] == rs[..i];
      forall k | 0 <= k < |window|
        ensures bytes[k] == Mask(WindowKeep(rs[..i + 1], |window|, k), window[k])
      {
        MaskMeet(KeepOf(rs[i], |window|, k), WindowKeep(rs[..i], |window|, k), window[k]);
      }
    }
    assert rs[..|rs|] == rs;
    cleared := bytes[..];
  }

  /** A bit of a byte survives exactly when every relocation keeps it. */
  lemma {:induction false} WindowKeepIs(rs: seq<Relocation>, size: nat, k: nat)
    ensures WindowKeep(rs, size, k) == Nothing <==> exists r :: r in rs && KeepOf(r, size, k) == Nothing
    ensures WindowKeep(rs, size, k) == All <==> forall r :: r in rs ==> KeepOf(r, size, k) == All
    decreases |rs|
  {
    if rs != [] {
      var last, rest := rs[|rs| - 1], rs[..|rs| - 1];
      WindowKeepIs(rest, size, k);
      assert forall r :: r in rs <==> r in rest || r == last;
    }
  }

  /** So the order of the relocations, repetitions and overlaps do not matter. */
  lemma OrderImmaterial(rs: seq<Relocation>, rs': seq<Relocation>, window: seq<byte>)
    requires forall r :: r in rs <==> r in rs'
    ensures MaskedWindow(rs, window) == MaskedWindow(rs', window)
  {
    forall k | 0 <= k < |window| ensures WindowKeep(rs, |window|, k) == WindowKeep(rs', |window|, k) {
      WindowKeepIs(rs, |window|, k);
      WindowKeepIs(rs', |window|, k);
    }
  }

  /** One relocation on its own: its word is masked by its kind, the other bytes stay. */
  lemma OneRelocation(w: seq<byte>, r: Relocation)
    requires r.offset + 4 <= |w|
    ensures Word(MaskedWindow([r], w), r.offset) == Masked(r.kind, Word(w, r.offset))
    ensures forall k :: 0 <= k < |w| && !(r.offset <= k < r.offset + 4) ==> MaskedWindow([r], w)[k] == w[k]
  {
    var masked, value := MaskedWindow([r], w), Masked(r.kind, Word(w, r.offset));
    assert [r][..0] == [];
    forall k | 0 <= k < |w| ensures WindowKeep([r], |w|, k) == KeepOf(r, |w|, k) {
      assert WindowKeep([], |w|, k) == All;
    }
    forall j | 0 <= j < 4 ensures masked[r.offset..r.offset + 4][j] == ToBytes(value, 4)[j] {
      MaskedBytes(r.kind, Word(w, r.offset), j);
      FromBytesAt(w[r.offset..r.offset + 4], j);
      ToBytesAt(value, 4, j);
    }
    assert masked[r.offset..r.offset + 4] == ToBytes(value, 4);
    assert Limit(4) == TWO_32;
    FromToBytes(value, 4);
  }

  /** So under a jump relocation two windows are masked alike exactly when the jump's opcodes agree, and
      all bytes elsewhere. */
  lemma JumpsMaskedAlike(w: seq<byte>, w': seq<byte>, offset: uint32)
    requires |w| == |w'| && offset + 4 <= |w|
    ensures MaskedWindow([Relocation(offset, Mips26)], w) == MaskedWindow([Relocation(offset, Mips26)], w')
            <==> && Word(w, offset) / 0x400_0000 == Word(w', offset) / 0x400_0000
                 && forall k :: 0 <= k < |w| && !(offset <= k < offset + 4) ==> w[k] == w'[k]
  {
    var r := Relocation(offset, Mips26);
    OneRelocation(w, r);
    OneRelocation(w', r);
    MaskedByKind(Word(w, offset), Word(w', offset));
    var m, m' := MaskedWindow([r], w), MaskedWindow([r], w');
    if Word(m, offset) == Word(m', offset) {
      SameWord(m, m', offset);
    }
  }

  lemma SameWord(m: seq<byte>, m': seq<byte>, at: nat)
    requires |m| == |m'| && at + 4 <= |m| && Word(m, at) == Word(m', at)
    ensures forall k :: at <= k < at + 4 ==> m[k] == m'[k]
  {
    forall k | at <= k < at + 4 ensures m[k] == m'[k] {
      FromBytesAt(m[at..at + 4], k - at);
      FromBytesAt(m'[at..at + 4], k - at);
    }
  }

  // ---- Matching -----------------------------------------------------------------------------

  datatype Symbol = Symbol(
    library: string,
    name: string,
    hashText: string,
    variantHash: uint32,
    hash: seq<byte>,
    size: uint32,
    isFunction: bool,
    relocations: seq<Relocation>)

  /** The digest function is a parameter: nothing here depends on which one it is. */
  method MatchesSymbol(data: seq<byte>, offset: nat, symbol: Symbol, digest: seq<byte> -> seq<byte>) returns (r: bool)
    requires offset + symbol.size <= |data|
    ensures r <==> digest(MaskedWindow(symbol.relocations, data[offset..offset + symbol.size])) == symbol.hash
  {
    var bytes := ClearRelocations(data[offset..offset + symbol.size], symbol.relocations);
    r := digest(bytes) == symbol.hash;
  }

  /** Relocation r may change bit b of byte k: it is one of the low bits of the relocated word. */
  predicate RelocatedBy(r: Relocation, size: nat, k: nat, b: nat) {
    Fits(r, size) && r.offset <= k < r.offset + 4 && 8 * (k - r.offset) + b < RelocatedBits(r.kind)
  }

  ghost predicate Relocated(rs: seq<Relocation>, size: nat, k: nat, b: nat) {
    exists r :: r in rs && RelocatedBy(r, size, k, b)
  }

  /** The windows agree in every bit that no relocation may change. */
  ghost predicate DifferOnlyInRelocations(rs: seq<Relocation>, w: seq<byte>, w': seq<byte>) {
    && |w| == |w'|
    && forall k, b :: 0 <= k < |w| && 0 <= b < 8 && !Relocated(rs, |w|, k, b) ==> BitAt(w[k], b) == BitAt(w'[k], b)
  }

  predicate KeepsBit(keep: Keep, b: nat) {
    keep == All || (keep == TopSix && b >= 2)
  }

  lemma {:induction false} WindowKeepsBit(rs: seq<Relocation>, size: nat, k: nat, b: nat)
    requires b < 8
    ensures KeepsBit(WindowKeep(rs, size, k), b) <==> !Relocated(rs, size, k, b)
    decreases |rs|
  {
    if rs != [] {
      var last, rest := rs[|rs| - 1], rs[..|rs| - 1];
      WindowKeepsBit(rest, size, k, b);
      assert KeepsBit(KeepOf(last, size, k), b) <==> !RelocatedBy(last, size, k, b);
      assert forall r :: r in rs <==> r in rest || r == last;
    }
  }

  ghost predicate KeptBitsAgree(keep: Keep, x: byte, y: byte) {
    forall b :: 0 <= b < 8 && KeepsBit(keep, b) ==> BitAt(x, b) == BitAt(y, b)
  }

  /** Masked bytes are equal when the kept bits are. */
  lemma MaskedEqualIff(keep: Keep, x: byte, y: byte)
    ensures Mask(keep, x) == Mask(keep, y) <==> KeptBitsAgree(keep, x, y)
  {
    match keep
    case All => WholeByte(x, y);
    case TopSix => UpperSix(x, y);
    case Nothing =>
  }

  lemma WholeByte(x: byte, y: byte)
    ensures KeptBitsAgree(All, x, y) <==> x == y
  {
    if KeptBitsAgree(All, x, y) {
      forall b | 0 <= b < 8 ensures BitAt(x, b) == BitAt(y, b) {
        assert KeepsBit(All, b);
      }
      Pow8();
      SameBits(x, y, 8);
    }
  }

  lemma UpperSix(x: byte, y: byte)
    ensures KeptBitsAgree(TopSix, x, y) <==> x / 4 == y / 4
  {
    if KeptBitsAgree(TopSix, x, y) {
      forall b | 0 <= b < 6 ensures BitAt(x / 4, b) == BitAt(y / 4, b) {
        assert KeepsBit(TopSix, b + 2);
        TwoUp(x, b);
        TwoUp(y, b);
      }
      assert Pow2(6) == 64;
      SameBits(x / 4, y / 4, 6);
    }
    if x / 4 == y / 4 {
      forall b | 2 <= b < 8 ensures BitAt(x, b) == BitAt(y, b) {
        TwoUp(x, b - 2);
        TwoUp(y, b - 2);
      }
    }
  }

  lemma TwoUp(x: byte, b: nat)
    ensures BitAt(x, b + 2) == BitAt(x / 4, b)
  {
    assert x / 2 / 2 == x / 4;
  }

  /** The masked window is what the relocations leave of the window, bit for bit. */
  lemma SameMaskedWindowIff(rs: seq<Relocation>, w: seq<byte>, w': seq<byte>)
    ensures DifferOnlyInRelocations(rs, w, w') <==> MaskedWindow(rs, w) == MaskedWindow(rs, w')
  {
    if |w| == |w'| {
      forall k, b | 0 <= k < |w| && 0 <= b < 8
        ensures KeepsBit(WindowKeep(rs, |w|, k), b) <==> !Relocated(rs, |w|, k, b)
      {
        WindowKeepsBit(rs, |w|, k, b);
      }
      forall k | 0 <= k < |w|
        ensures MaskedWindow(rs, w)[k] == MaskedWindow(rs, w')[k]
                <==> KeptBitsAgree(WindowKeep(rs, |w|, k), w[k], w'[k])
      {
        MaskedEqualIff(WindowKeep(rs, |w|, k), w[k], w'[k]);
      }
    }
  }

  ghost predicate Verdict(rs: seq<Relocation>, w: seq<byte>, digest: seq<byte> -> seq<byte>, hash: seq<byte>) {
    digest(MaskedWindow(rs, w)) == hash
  }

  /** Main result: windows that differ in relocated bits only get the same verdict from every digest,
      and no other windows do. */
  lemma SameVerdictIff(rs: seq<Relocation>, w: seq<byte>, w': seq<byte>)
    ensures DifferOnlyInRelocations(rs, w, w')
            <==> forall digest: seq<byte> -> seq<byte>, hash: seq<byte> ::
                   Verdict(rs, w, digest, hash) <==> Verdict(rs, w', digest, hash)
  {
    SameMaskedWindowIff(rs, w, w');
    if MaskedWindow(rs, w) != MaskedWindow(rs, w') {
      var identity: seq<byte> -> seq<byte> := x => x;
      assert Verdict(rs, w, identity, MaskedWindow(rs, w)) && !Verdict(rs, w', identity, MaskedWindow(rs, w));
    }
  }
}
