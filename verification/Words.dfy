/** Bitwise operations on 32- and 16-bit words. */
module Words {
  import opened Bits
  import opened Instructions

  type uint16 = x: int | 0 <= x < 0x1_0000

  function Or32(x: uint32, y: uint32): uint32 {
    Pow32();
    BitwiseBelow(x, y, 32);
    Or(x, y)
  }

  function And32(x: uint32, y: uint32): uint32 {
    Pow32();
    BitwiseBelow(x, y, 32);
    And(x, y)
  }

  function Xor32(x: uint32, y: uint32): uint32 {
    Pow32();
    BitwiseBelow(x, y, 32);
    Xor(x, y)
  }

  function Not32(x: uint32): uint32 {
    TWO_32 - 1 - x
  }

  function Or16(x: uint16, y: uint16): uint16 {
    Pow32();
    BitwiseBelow(x, y, 16);
    Or(x, y)
  }

  function And16(x: uint16, y: uint16): uint16 {
    Pow32();
    BitwiseBelow(x, y, 16);
    And(x, y)
  }

  function Not16(x: uint16): uint16 {
    0xFFFF - x
  }

  lemma NotBits32(x: uint32, i: nat)
    requires i < 32
    ensures BitAt(Not32(x), i) == !BitAt(x, i)
  {
    Pow32();
    NotBits(x, 32, i);
  }

  lemma NotBits16(x: uint16, i: nat)
    requires i < 16
    ensures BitAt(Not16(x), i) == !BitAt(x, i)
  {
    Pow32();
    NotBits(x, 16, i);
  }

  // ---- Constants ----------------------------------------------------------------------------

  /** Four hexadecimal digits, lowest first. */
  function Hex4(d0: nat, d1: nat, d2: nat, d3: nat): (x: nat)
  {
    d0 + 0x10 * d1 + 0x100 * d2 + 0x1000 * d3
  }

  lemma Hex4Bits(d0: nat, d1: nat, d2: nat, d3: nat, i: nat)
    requires d0 < 16 && d1 < 16 && d2 < 16
    ensures BitAt(Hex4(d0, d1, d2, d3), i)
            == if i < 4 then BitAt(d0, i) else if i < 8 then BitAt(d1, i - 4)
               else if i < 12 then BitAt(d2, i - 8) else BitAt(d3, i - 12)
  {
    LowDigit(d0, d1 + 0x10 * (d2 + 0x10 * d3), i);
    if i >= 4 {
      LowDigit(d1, d2 + 0x10 * d3, i - 4);
    }
    if i >= 8 {
      LowDigit(d2, d3, i - 8);
    }
  }

  lemma LowDigit(low: nat, high: nat, i: nat)
    requires low < 16
    ensures BitAt(low + 0x10 * high, i) == if i < 4 then BitAt(low, i) else BitAt(high, i - 4)
  {
    LowBits(low, high, 4, i);
  }

  /** The low n bits of a number, and the rest. */
  lemma {:induction false} LowBits(low: nat, high: nat, n: nat, i: nat)
    requires low < Pow2(n)
    ensures Pow2(n) * high >= 0
    ensures BitAt(low + Pow2(n) * high, i) == if i < n then BitAt(low, i) else BitAt(high, i - n)
    decreases n
  {
    if n > 0 {
      var rest := Pow2(n - 1) * high;
      LowBits(low / 2, high, n - 1, if i == 0 then 0 else i - 1);
      DoubleFirst(Pow2(n - 1), high);
      HalfOf(low, rest);
      BitHalf(low + 2 * rest, i);
      BitHalf(low, i);
    }
  }

  lemma DoubleFirst(p: nat, high: nat)
    ensures 2 * p * high == 2 * (p * high)
  {
  }

  lemma HalfOf(low: nat, rest: nat)
    ensures (low + 2 * rest) / 2 == low / 2 + rest && (low + 2 * rest) % 2 == low % 2
  {
  }

  lemma BitHalf(x: nat, i: nat)
    ensures BitAt(x, i) == if i == 0 then x % 2 == 1 else BitAt(x / 2, i - 1)
  {
  }

  /** The digits that occur in masks. */
  lemma DigitBits(i: nat)
    ensures !BitAt(0, i) && BitAt(1, i) == (i == 0) && BitAt(2, i) == (i == 1) && BitAt(3, i) == (i < 2)
    ensures BitAt(4, i) == (i == 2) && BitAt(8, i) == (i == 3) && BitAt(15, i) == (i < 4)
  {
    ZeroBits(i);
    assert Pow2(4) == 16;
    if i >= 4 {
      HighBits(15, 4, i);
    } else {
      assert i == 0 || BitAt(15, i) == BitAt(7, i - 1);
      assert i <= 1 || BitAt(7, i - 1) == BitAt(3, i - 2);
    }
  }
}
