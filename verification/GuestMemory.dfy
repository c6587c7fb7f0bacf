/** Direct guest RAM access: any width, wrapping at the end of RAM. */
module GuestMemory {
  import opened Bits
  import opened Instructions
  import opened LittleEndian

  /** A power of two, no larger than the address space; the mask is one less. */
  ghost predicate RamSize(size: nat) {
    exists n: nat :: 4 <= n <= 32 && size == Pow2(n)
  }

  /** The runtime's 32 MB, and its address mask. */
  lemma RuntimeRam(addr: uint32)
    ensures RamSize(32 * 1024 * 1024) && Offset(addr, 32 * 1024 * 1024) == And(addr, 32 * 1024 * 1024 - 1)
  {
    Pow32();
    Pow8();
    PowAdd(16, 8);
    assert Pow2(25) == 2 * Pow2(24) == 32 * 1024 * 1024;
    AndOnes(addr, 25);
  }

  function Offset(addr: uint32, size: nat): (offset: nat)
    requires size > 0
    ensures offset < size
  {
    addr % size
  }

  /** Where byte i of an access at offset lies: past the end it goes on at the beginning. */
  function Position(offset: nat, i: nat, size: nat): (k: nat)
    requires offset < size && i <= size
    ensures k < size
  {
    if offset + i < size then offset + i else offset + i - size
  }

  lemma PositionIsMasked(offset: nat, i: nat, size: nat)
    requires offset < size && i <= size
    ensures Position(offset, i, size) == (offset + i) % size
  {
    if offset + i < size {
      SmallMod(offset + i, size);
    } else {
      ModShift(offset + i - size, size);
      SmallMod(offset + i - size, size);
    }
  }

  // ---- What accesses mean -------------------------------------------------------------------

  /** n bytes from addr on. */
  function Load(ram: seq<byte>, addr: uint32, n: nat): (bytes: seq<byte>)
    requires 0 < |ram| && n <= |ram|
    ensures |bytes| == n
  {
    seq(n, i requires 0 <= i < n => ram[Position(Offset(addr, |ram|), i, |ram|)])
  }

  /** How far position k lies behind offset, going around. */
  function Distance(offset: nat, k: nat, size: nat): (d: nat)
    requires offset < size && k < size
    ensures d < size && Position(offset, d, size) == k
  {
    if k >= offset then k - offset else k + size - offset
  }

  /** The bytes laid down from addr on; every other byte keeps its value. */
  function Store(ram: seq<byte>, addr: uint32, bytes: seq<byte>): (ram': seq<byte>)
    requires 0 < |ram| && |bytes| <= |ram|
    ensures |ram'| == |ram|
  {
    seq(|ram|, k requires 0 <= k < |ram| =>
      var d := Distance(Offset(addr, |ram|), k, |ram|);
      if d < |bytes| then bytes[d] else ram[k])
  }

  lemma DistanceOfPosition(offset: nat, i: nat, size: nat)
    requires offset < size && i < size
    ensures Distance(offset, Position(offset, i, size), size) == i
  {
  }

  // ---- The accesses -------------------------------------------------------------------------

  /** The five read helpers differ only in their width n: 1, 2, 4, 8 or 16 bytes. */
  method FastRead(rdram: array<byte>, addr: uint32, n: nat) returns (value: nat)
    requires RamSize(rdram.Length) && 0 < n <= 16 <= rdram.Length
    ensures value == FromBytes(Load(rdram[..], addr, n))
  {
    var offset := addr % rdram.Length;
    if offset > rdram.Length - n {
      var wrapped := new byte[n](_ => 0);
      for i := 0 to n
        invariant forall j :: 0 <= j < i ==> wrapped[j] == Load(rdram[..], addr, n)[j]
      {
        PositionIsMasked(offset, i, rdram.Length);
        wrapped[i] := rdram[(offset + i) % rdram.Length];
      }
      assert wrapped[..] == Load(rdram[..], addr, n);
      return FromBytes(wrapped[..]);
    }
    assert rdram[offset..offset + n] == Load(rdram[..], addr, n);
    return FromBytes(rdram[offset..offset + n]);
  }

  /** One more byte of a store. */
  lemma StoreNext(ram: seq<byte>, addr: uint32, bytes: seq<byte>, i: nat)
    requires 0 < |ram| && |bytes| <= |ram| && i < |bytes|
    ensures Store(ram, addr, bytes[..i + 1])
            == Store(ram, addr, bytes[..i])[Position(Offset(addr, |ram|), i, |ram|) := bytes[i]]
  {
    var offset := Offset(addr, |ram|);
    forall k | 0 <= k < |ram|
      ensures Distance(offset, k, |ram|) == i <==> k == Position(offset, i, |ram|)
    {
    }
  }

  lemma StoreNothing(ram: seq<byte>, addr: uint32)
    requires 0 < |ram|
    ensures Store(ram, addr, []) == ram
  {
  }

  /** The five write helpers. */
  method FastWrite(rdram: array<byte>, addr: uint32, value: nat, n: nat)
    requires RamSize(rdram.Length) && 0 < n <= 16 <= rdram.Length && value < Limit(n)
    modifies rdram
    ensures rdram[..] == Store(old(rdram[..]), addr, ToBytes(value, n))
  {
    var offset := addr % rdram.Length;
    var bytes := ToBytes(value, n);
    ghost var was := rdram[..];
    StoreNothing(was, addr);
    if offset > rdram.Length - n {
      for i := 0 to n
        invariant rdram[..] == Store(was, addr, bytes[..i])
      {
        PositionIsMasked(offset, i, rdram.Length);
        StoreNext(was, addr, bytes, i);
        rdram[(offset + i) % rdram.Length] := bytes[i];
      }
    } else {
      for i := 0 to n
        invariant rdram[..] == Store(was, addr, bytes[..i])
      {
        StoreNext(was, addr, bytes, i);
        rdram[offset + i] := bytes[i];
      }
    }
    assert bytes[..n] == bytes;
  }

  // ---- Reading back, and writing in parts ---------------------------------------------------

  /** At every address, wrapping ones included, a read after a write of the same width returns the value. */
  lemma ReadAfterWrite(ram: seq<byte>, addr: uint32, value: nat, n: nat)
    requires 0 < |ram| && n <= |ram| && value < Limit(n)
    ensures FromBytes(Load(Store(ram, addr, ToBytes(value, n)), addr, n)) == value
  {
    var bytes := ToBytes(value, n);
    forall i | 0 <= i < n ensures Load(Store(ram, addr, bytes), addr, n)[i] == bytes[i] {
      DistanceOfPosition(Offset(addr, |ram|), i, |ram|);
    }
    assert Load(Store(ram, addr, bytes), addr, n) == bytes;
    FromToBytes(value, n);
  }

  /** A write changes the bytes it covers and no others. */
  lemma OthersUnchanged(ram: seq<byte>, addr: uint32, bytes: seq<byte>, k: nat)
    requires 0 < |ram| && |bytes| <= |ram| && k < |ram|
    requires forall i :: 0 <= i < |bytes| ==> Position(Offset(addr, |ram|), i, |ram|) != k
    ensures Store(ram, addr, bytes)[k] == ram[k]
  {
    var d := Distance(Offset(addr, |ram|), k, |ram|);
    assert Position(Offset(addr, |ram|), d, |ram|) == k;
  }

  lemma WrapCompatible(x: nat, size: nat)
    requires RamSize(size)
    ensures Wrap32(x) % size == x % size
  {
    var e: nat :| 4 <= e <= 32 && size == Pow2(e);
    Pow32();
    PowAdd(e, 32 - e);
    ModMod(x, size, Pow2(32 - e));
  }

  lemma AddToOffset(x: nat, q: nat, offset: nat, n: nat, size: nat)
    requires x == q * size + offset && offset < size && n <= size
    ensures (x + n) % size == Position(offset, n, size)
  {
    if offset + n < size {
      RemainderIs(x + n, size, q, offset + n);
    } else {
      assert (q + 1) * size == q * size + size;
      RemainderIs(x + n, size, q + 1, offset + n - size);
    }
  }

  lemma DivisionOf(x: nat, d: nat) returns (q: nat, r: nat)
    requires d > 0
    ensures x == q * d + r && r < d && r == x % d
  {
    q, r := Quot(x, d), x % d;
  }

  /** 32-bit addresses and RAM offsets wrap compatibly. */
  lemma OffsetAdds(addr: uint32, n: nat, size: nat)
    requires RamSize(size) && n <= size
    ensures Offset(Wrap32(addr + n), size) == Position(Offset(addr, size), n, size)
  {
    WrapCompatible(addr + n, size);
    var q, offset := DivisionOf(addr, size);
    AddToOffset(addr, q, offset, n, size);
  }

  /** A wide write is two half-width writes, the high half behind the low one, wherever it wraps. */
  lemma WideWriteIsTwoHalves(ram: seq<byte>, addr: uint32, value: nat, n: nat)
    requires RamSize(|ram|) && 0 < 2 * n <= 16 <= |ram| && value < Limit(2 * n)
    ensures Store(ram, addr, ToBytes(value, 2 * n))
            == Store(Store(ram, addr, ToBytes(value % Limit(n), n)), Wrap32(addr + n),
                     ToBytes(Quot(value, Limit(n)), n))
  {
    ToBytesSplit(value, n, n);
    HalvesStored(ram, addr, ToBytes(value, n + n), ToBytes(value % Limit(n), n), ToBytes(Quot(value, Limit(n)), n));
  }

  lemma HalvesStored(ram: seq<byte>, addr: uint32, whole: seq<byte>, low: seq<byte>, high: seq<byte>)
    requires RamSize(|ram|) && |whole| <= |ram| && whole == low + high
    ensures Store(ram, addr, whole) == Store(Store(ram, addr, low), Wrap32(addr + |low|), high)
  {
    StoreConcat(ram, addr, low, high);
  }

  lemma StoreConcat(ram: seq<byte>, addr: uint32, low: seq<byte>, high: seq<byte>)
    requires RamSize(|ram|) && |low| + |high| <= |ram|
    ensures Store(ram, addr, low + high) == Store(Store(ram, addr, low), Wrap32(addr + |low|), high)
  {
    OffsetAdds(addr, |low|, |ram|);
    var offset := Offset(addr, |ram|);
    forall k | 0 <= k < |ram|
      ensures Store(ram, addr, low + high)[k] == Store(Store(ram, addr, low), Wrap32(addr + |low|), high)[k]
    {
      var d, d' := Distance(offset, k, |ram|), Distance(Position(offset, |low|, |ram|), k, |ram|);
      assert d' == if d >= |low| then d - |low| else d + |ram| - |low|;
    }
  }

  // ---- Byte-enable writes -------------------------------------------------------------------

  type uint8 = x: int | 0 <= x < 256

  /** Bit i of a byte-enable mask. */
  predicate Enabled(byteEnable: uint8, i: nat)
    requires i < 8
  {
    BitAt(byteEnable, i)
  }

  /** The enabled bytes laid down from offset on. */
  function MaskedStore(ram: seq<byte>, offset: nat, bytes: seq<byte>, byteEnable: uint8): (ram': seq<byte>)
    requires |bytes| <= 8
    ensures |ram'| == |ram|
  {
    seq(|ram|, k requires 0 <= k < |ram| =>
      if offset <= k < offset + |bytes| && Enabled(byteEnable, k - offset) then bytes[k - offset] else ram[k])
  }

  /** The masked write helpers, of 4 or 8 bytes. They do not wrap, so their callers only enable bytes
      that lie inside RAM. */
  method FastWriteMasked(rdram: array<byte>, addr: uint32, value: nat, n: nat, byteEnable: uint8)
    requires RamSize(rdram.Length) && n in {4, 8} && value < Limit(n)
    requires forall i :: 0 <= i < n && Enabled(byteEnable, i) ==> Offset(addr, rdram.Length) + i < rdram.Length
    modifies rdram
    ensures rdram[..] == MaskedStore(old(rdram[..]), Offset(addr, rdram.Length), ToBytes(value, n), byteEnable)
  {
    var offset := addr % rdram.Length;
    ghost var bytes, was := ToBytes(value, n), rdram[..];
    for index := 0 to n
      invariant rdram[..] == MaskedStore(was, offset, bytes[..index], byteEnable)
    {
      MaskedStoreNext(was, offset, bytes, byteEnable, index);
      MaskTestsBit(byteEnable, index);
      if And(byteEnable, Pow2(index)) != 0 {
        ToBytesAt(value, n, index);
        rdram[offset + index] := ByteOf(value, index);
      }
    }
    assert bytes[..n] == bytes;
  }

  /** One more byte of a masked store. */
  lemma MaskedStoreNext(ram: seq<byte>, offset: nat, bytes: seq<byte>, byteEnable: uint8, i: nat)
    requires i < |bytes| <= 8 && (Enabled(byteEnable, i) ==> offset + i < |ram|)
    ensures MaskedStore(ram, offset, bytes[..i + 1], byteEnable)
            == if Enabled(byteEnable, i) then MaskedStore(ram, offset, bytes[..i], byteEnable)[offset + i := bytes[i]]
               else MaskedStore(ram, offset, bytes[..i], byteEnable)
  {
  }

  /** The masks 1, 2, 4 and so on write the first, second, third byte and no other. */
  lemma OneByteEnabled(ram: seq<byte>, offset: nat, bytes: seq<byte>, i: nat)
    requires i < |bytes| <= 8 && offset + i < |ram|
    ensures var mask := [1, 2, 4, 8, 16, 32, 64, 128][i];
            MaskedStore(ram, offset, bytes, mask) == ram[offset + i := bytes[i]]
  {
    var mask: uint8 := [1, 2, 4, 8, 16, 32, 64, 128][i];
    PowersOfTwo(i);
    forall j | 0 <= j < 8 ensures Enabled(mask, j) <==> j == i {
      ShiftBits(1, i, j);
      if j > i {
        HighBits(1, 1, j - i);
      }
    }
  }

  lemma PowersOfTwo(i: nat)
    requires i < 8
    ensures [1, 2, 4, 8, 16, 32, 64, 128][i] == Pow2(i) == 1 * Pow2(i)
  {
    Pow8();
    assert Pow2(0) == 1 && Pow2(1) == 2 && Pow2(2) == 4;
    assert Pow2(5) == 2 * Pow2(4) && Pow2(6) == 2 * Pow2(5) && Pow2(7) == 2 * Pow2(6);
  }

  /** The complementary mask enables exactly the other bytes. */
  lemma ComplementEnables(byteEnable: uint8, i: nat)
    requires i < 8
    ensures Enabled(255 - byteEnable, i) <==> !Enabled(byteEnable, i)
  {
    Pow8();
    NotBits(byteEnable, 8, i);
  }

  /** Where the word does not wrap, complementary masked writes compose to one full write. */
  lemma ComplementaryWrites(ram: seq<byte>, addr: uint32, bytes: seq<byte>, byteEnable: uint8)
    requires 0 < |ram| && |bytes| <= 8 && Offset(addr, |ram|) + |bytes| <= |ram|
    ensures var offset := Offset(addr, |ram|);
            MaskedStore(MaskedStore(ram, offset, bytes, byteEnable), offset, bytes, 255 - byteEnable)
            == Store(ram, addr, bytes)
  {
    var offset := Offset(addr, |ram|);
    var once := MaskedStore(ram, offset, bytes, byteEnable);
    var twice := MaskedStore(once, offset, bytes, 255 - byteEnable);
    forall k | 0 <= k < |ram| ensures twice[k] == Store(ram, addr, bytes)[k] {
      if offset <= k < offset + |bytes| {
        ComplementEnables(byteEnable, k - offset);
      }
    }
  }

  /** Masked writes with disjoint masks do not disturb each other. */
  lemma DisjointMasksCommute(ram: seq<byte>, offset: nat, a: seq<byte>, b: seq<byte>, ma: uint8, mb: uint8)
    requires |a| == |b| <= 8 && forall i :: 0 <= i < |a| ==> !(Enabled(ma, i) && Enabled(mb, i))
    ensures MaskedStore(MaskedStore(ram, offset, a, ma), offset, b, mb)
            == MaskedStore(MaskedStore(ram, offset, b, mb), offset, a, ma)
  {
    forall k | 0 <= k < |ram|
      ensures MaskedStore(MaskedStore(ram, offset, a, ma), offset, b, mb)[k]
              == MaskedStore(MaskedStore(ram, offset, b, mb), offset, a, ma)[k]
    {
    }
  }
}
