/** Powers of two, and bitwise operations on non-negative numbers. */
module Bits {

  function Pow2(n: nat): (p: nat)
    ensures p > 0
  {
    if n == 0 then 1 else 2 * Pow2(n - 1)
  }

  /** Bit by bit, from the lowest. */
  function Or(a: nat, b: nat): (r: nat)
    decreases a + b
  {
    if a == 0 && b == 0 then 0
    else (if a % 2 == 1 || b % 2 == 1 then 1 else 0) + 2 * Or(a / 2, b / 2)
  }

  function And(a: nat, b: nat): nat
    decreases a + b
  {
    if a == 0 || b == 0 then 0 else (if a % 2 == 1 && b % 2 == 1 then 1 else 0) + 2 * And(a / 2, b / 2)
  }

  function Xor(a: nat, b: nat): nat
    decreases a + b
  {
    if a == 0 && b == 0 then 0 else (if a % 2 != b % 2 then 1 else 0) + 2 * Xor(a / 2, b / 2)
  }

  /** Bit i of a number. */
  predicate BitAt(a: nat, i: nat)
    decreases i
  {
    if i == 0 then a % 2 == 1 else BitAt(a / 2, i - 1)
  }

  /** A number of n bits is its bits. */
  lemma {:induction false} SameBits(a: nat, b: nat, n: nat)
    requires a < Pow2(n) && b < Pow2(n)
    ensures (forall i :: 0 <= i < n ==> BitAt(a, i) == BitAt(b, i)) ==> a == b
    decreases n
  {
    if n > 0 && (forall i :: 0 <= i < n ==> BitAt(a, i) == BitAt(b, i)) {
      forall i | 0 <= i < n - 1 ensures BitAt(a / 2, i) == BitAt(b / 2, i) {
        assert BitAt(a, i + 1) == BitAt(b, i + 1);
      }
      SameBits(a / 2, b / 2, n - 1);
      assert BitAt(a, 0) == BitAt(b, 0);
      assert a == 2 * (a / 2) + a % 2 && b == 2 * (b / 2) + b % 2;
    }
  }

  /** Bitwise operations do not make numbers longer. */
  lemma {:induction false} BitwiseBelow(a: nat, b: nat, n: nat)
    requires a < Pow2(n) && b < Pow2(n)
    ensures Or(a, b) < Pow2(n) && And(a, b) < Pow2(n) && Xor(a, b) < Pow2(n)
    decreases n
  {
    if n > 0 {
      BitwiseBelow(a / 2, b / 2, n - 1);
    }
  }

  lemma Pow8()
    ensures Pow2(3) == 8 && Pow2(4) == 16 && Pow2(8) == 0x100
  {
    assert Pow2(4) == 16;
    PowAdd(4, 4);
  }

  lemma Pow32()
    ensures Pow2(16) == 0x1_0000 && Pow2(32) == 0x1_0000_0000
  {
    Pow8();
    PowAdd(8, 8);
    PowAdd(16, 16);
  }

  lemma Pow64()
    ensures Pow2(64) == 0x1_0000_0000_0000_0000
  {
    Pow32();
    PowAdd(32, 32);
  }

  lemma {:induction false} PowAdd(m: nat, n: nat)
    ensures Pow2(m + n) == Pow2(m) * Pow2(n)
  {
    if m > 0 {
      PowAdd(m - 1, n);
    }
  }

  /** Halving commutes with dropping high bits. */
  lemma ModHalf(a: nat, p: nat)
    requires p > 0
    ensures a % (2 * p) == a % 2 + 2 * (a / 2 % p)
    ensures a % (2 * p) % 2 == a % 2 && a % (2 * p) / 2 == a / 2 % p
  {
    var q, r := a / 2 / p, a / 2 % p;
    assert a == 2 * (q * p + r) + a % 2;
    assert a == q * (2 * p) + (2 * r + a % 2);
    DivModIs(a, 2 * p, q, 2 * r + a % 2);
  }

  lemma AtLeastOnce(k: nat, d: nat)
    requires k > 0
    ensures k * d >= d
  {
  }

  /** Quotient and remainder are determined by a == q * d + r. */
  lemma DivModIs(a: int, d: nat, q: int, r: nat)
    requires r < d && a == q * d + r
    ensures a / d == q && a % d == r
  {
    var q', r' := a / d, a % d;
    var k := q - q';
    assert k * d == q * d - q' * d;
    if k > 0 {
      AtLeastOnce(k, d);
    } else if k < 0 {
      AtLeastOnce(-k, d);
    }
  }

  function Quot(a: nat, d: nat): (q: nat)
    requires d > 0
    ensures q == a / d
  {
    a / d
  }

  lemma SmallMod(a: nat, d: nat)
    requires a < d
    ensures a % d == a && a / d == 0
  {
    DivModIs(a, d, 0, a);
  }

  lemma ModShift(a: nat, d: nat)
    requires d > 0
    ensures (a + d) % d == a % d
  {
    var q := a / d;
    assert (q + 1) * d == q * d + d;
    DivModIs(a + d, d, q + 1, a % d);
  }

  /** Reducing to fewer bits after more is reducing to fewer. */
  lemma ModMod(y: int, d: nat, m: nat)
    requires d > 0 && m > 0
    ensures d * m > 0 && y % (d * m) % d == y % d
  {
    AtLeastOnce(m, d);
    var q, b := y / (d * m), y % (d * m);
    var c, r := b / d, b % d;
    assert y == q * (d * m) + b && b == c * d + r;
    assert q * (d * m) == (q * m) * d;
    assert (q * m + c) * d == (q * m) * d + c * d;
    DivModIs(y, d, q * m + c, r);
  }

  /** Dividing twice is dividing by the product. */
  lemma DivDiv(x: nat, d: nat, m: nat)
    requires d > 0 && m > 0
    ensures d * m > 0 && x / (d * m) == x / d / m
  {
    AtLeastOnce(m, d);
    var y := x / d;
    var q, r := y / m, y % m;
    assert x == y * d + x % d && y == q * m + r;
    assert (q * m + r) * d == q * (d * m) + r * d;
    AtMost(r, m, d);
    DivModIs(x, d * m, q, r * d + x % d);
  }

  lemma AtMost(r: nat, m: nat, d: nat)
    requires r < m
    ensures r * d + d <= d * m
  {
    var k := m - r - 1;
    Distributes(r, 1, d);
    Distributes(r + 1, k, d);
    NonNegative(k, d);
  }

  lemma Distributes(a: nat, b: nat, d: nat)
    ensures (a + b) * d == a * d + b * d
  {
  }

  lemma NonNegative(x: nat, y: nat)
    ensures x * y >= 0
  {
  }

  /** The low n bits of an or are the or of the low n bits. */
  lemma {:induction false} OrMod(a: nat, b: nat, n: nat)
    ensures Or(a, b) % Pow2(n) == Or(a % Pow2(n), b % Pow2(n))
    decreases n
  {
    if n > 0 {
      var p := Pow2(n - 1);
      ModHalf(a, p);
      ModHalf(b, p);
      OrMod(a / 2, b / 2, n - 1);
      ModHalf(Or(a, b), p);
      OrBits(a, b);
      OrBits(a % (2 * p), b % (2 * p));
    }
  }

  lemma OrReduced(a: nat, b: nat, n: nat)
    requires b < Pow2(n)
    ensures Or(a, b) % Pow2(n) == Or(a % Pow2(n), b) == Or(a % Pow2(n), b) % Pow2(n)
  {
    var p := Pow2(n);
    SmallMod(b, p);
    SmallMod(a % p, p);
    OrMod(a, b, n);
    OrMod(a % p, b, n);
  }

  lemma OrBits(a: nat, b: nat)
    ensures Or(a, b) % 2 == (if a % 2 == 1 || b % 2 == 1 then 1 else 0) && Or(a, b) / 2 == Or(a / 2, b / 2)
  {
  }

  /** An or of numbers without common bits is their sum. */
  lemma {:induction false} OrDisjoint(low: nat, high: nat, n: nat)
    requires low < Pow2(n)
    ensures Or(low, high * Pow2(n)) == low + high * Pow2(n)
    decreases n
  {
    if n == 0 {
      OrZero(high);
    } else {
      var p := Pow2(n - 1);
      var shifted := high * p;
      assert high * Pow2(n) == 2 * shifted;
      OrDisjoint(low / 2, high, n - 1);
      OrBits(low, 2 * shifted);
    }
  }

  lemma {:induction false} OrZero(a: nat)
    ensures Or(0, a) == a
    decreases a
  {
    if a > 0 {
      OrZero(a / 2);
    }
  }

  lemma {:induction false} OrZeroRight(a: nat)
    ensures Or(a, 0) == a
    decreases a
  {
    if a > 0 {
      OrZeroRight(a / 2);
    }
  }

  /** The high bits of an or are the or of the high bits. */
  lemma {:induction false} OrDiv(a: nat, b: nat, n: nat)
    ensures Quot(Or(a, b), Pow2(n)) == Or(Quot(a, Pow2(n)), Quot(b, Pow2(n)))
    decreases n
  {
    if n > 0 {
      var p := Pow2(n - 1);
      OrBits(a, b);
      OrDiv(a / 2, b / 2, n - 1);
      DivDiv(a, 2, p);
      DivDiv(b, 2, p);
      DivDiv(Or(a, b), 2, p);
    }
  }

  /** Or-ing with a number of n bits touches the low n bits only. */
  lemma OrSplit(a: nat, b: nat, n: nat)
    requires b < Pow2(n)
    ensures Or(a, b) == Quot(a, Pow2(n)) * Pow2(n) + Or(a % Pow2(n), b)
    ensures Or(a % Pow2(n), b) < Pow2(n)
  {
    var p := Pow2(n);
    BitwiseBelow(a % p, b, n);
    OrReduced(a, b, n);
    OrDiv(a, b, n);
    SmallMod(b, p);
    OrZeroRight(Quot(a, p));
    Recombined(Or(a, b), p);
  }

  lemma Recombined(x: nat, d: nat)
    requires d > 0
    ensures x == Quot(x, d) * d + x % d
  {
  }

  /** Of hi, shifted up by b, a lane of a * b keeps the remainder modulo a. */
  lemma HighKept(q: nat, hi: nat, a: nat, b: nat)
    requires a > 0 && q < b
    ensures a * b > 0 && (q + hi * b) % (a * b) == q + hi % a * b
  {
    AtLeastOnce(b, a);
    var kept, gone := hi % a, Quot(hi, a);
    NonNegative(kept, b);
    NonNegative(hi, b);
    Regroup(gone, a, kept, b, q);
    AtMost(kept, a, b);
    RemainderIs(q + hi * b, a * b, gone, q + kept * b);
  }

  lemma QuotBelow(x: nat, a: nat, b: nat)
    requires a > 0 && x < a * b
    ensures Quot(x, a) < b
  {
    var q := Quot(x, a);
    assert q * a <= x;
    assert q >= b ==> (q - b) * a >= 0;
  }

  lemma QuotAtMost(x: nat, d: nat)
    requires d > 0
    ensures Quot(x, d) <= x
  {
    if Quot(x, d) > 0 {
      AtLeastOnce(d, Quot(x, d));
    }
  }

  lemma {:induction false} OrCommutes(a: nat, b: nat)
    ensures Or(a, b) == Or(b, a)
    decreases a + b
  {
    if a + b > 0 {
      OrCommutes(a / 2, b / 2);
    }
  }

  /** And-ing with n ones keeps the low n bits. */
  lemma {:induction false} AndOnes(a: nat, n: nat)
    ensures And(a, Pow2(n) - 1) == a % Pow2(n)
    decreases n
  {
    if n > 0 {
      var p := Pow2(n - 1);
      assert (2 * p - 1) / 2 == p - 1 && (2 * p - 1) % 2 == 1;
      AndBits(a, 2 * p - 1);
      AndOnes(a / 2, n - 1);
      ModHalf(a, p);
    } else {
      AndZero(a);
    }
  }

  lemma AndZero(a: nat)
    ensures And(a, 0) == 0
  {
  }

  /** And-ing with a number whose low n bits are zero clears them. */
  lemma {:induction false} AndAbove(a: nat, b: nat, n: nat)
    ensures b * Pow2(n) >= 0
    ensures And(a, b * Pow2(n)) == And(Quot(a, Pow2(n)), b) * Pow2(n)
    decreases n
  {
    if n > 0 {
      var p := Pow2(n - 1);
      NonNegative(b, p);
      DoubleLast(b, p);
      AndEven(a, b * p);
      AndAbove(a / 2, b, n - 1);
      DivDiv(a, 2, p);
      DoubleLast(And(Quot(a / 2, p), b), p);
    }
  }

  lemma AndEven(a: nat, s: nat)
    ensures And(a, 2 * s) == 2 * And(a / 2, s)
  {
    var b := 2 * s;
    assert b % 2 == 0 && b / 2 == s;
    AndBits(a, b);
    Recombined(And(a, b), 2);
  }

  lemma DoubleLast(x: nat, p: nat)
    ensures x * (2 * p) == 2 * (x * p)
  {
  }

  // ---- Bit by bit ---------------------------------------------------------------------------

  lemma OpBits(a: nat, b: nat, i: nat)
    ensures BitAt(Or(a, b), i) == (BitAt(a, i) || BitAt(b, i))
    ensures BitAt(And(a, b), i) == (BitAt(a, i) && BitAt(b, i))
    ensures BitAt(Xor(a, b), i) == (BitAt(a, i) != BitAt(b, i))
  {
    OrBitAt(a, b, i);
    AndBitAt(a, b, i);
    XorBitAt(a, b, i);
  }

  lemma {:induction false} OrBitAt(a: nat, b: nat, i: nat)
    ensures BitAt(Or(a, b), i) == (BitAt(a, i) || BitAt(b, i))
    decreases i
  {
    OrBits(a, b);
    if i > 0 {
      OrBitAt(a / 2, b / 2, i - 1);
    }
  }

  lemma {:induction false} AndBitAt(a: nat, b: nat, i: nat)
    ensures BitAt(And(a, b), i) == (BitAt(a, i) && BitAt(b, i))
    decreases i
  {
    AndBits(a, b);
    if i > 0 {
      AndBitAt(a / 2, b / 2, i - 1);
    }
  }

  lemma AndBits(a: nat, b: nat)
    ensures And(a, b) % 2 == (if a % 2 == 1 && b % 2 == 1 then 1 else 0) && And(a, b) / 2 == And(a / 2, b / 2)
  {
  }

  lemma {:induction false} XorBitAt(a: nat, b: nat, i: nat)
    ensures BitAt(Xor(a, b), i) == (BitAt(a, i) != BitAt(b, i))
    decreases i
  {
    XorBits(a, b);
    if i > 0 {
      XorBitAt(a / 2, b / 2, i - 1);
    }
  }

  lemma XorBits(a: nat, b: nat)
    ensures Xor(a, b) % 2 == (if a % 2 != b % 2 then 1 else 0) && Xor(a, b) / 2 == Xor(a / 2, b / 2)
  {
  }

  lemma {:induction false} ZeroBits(i: nat)
    ensures !BitAt(0, i)
    decreases i
  {
    if i > 0 {
      ZeroBits(i - 1);
    }
  }

  lemma {:induction false} NotBits(a: nat, n: nat, i: nat)
    requires a < Pow2(n) && i < n
    ensures BitAt(Pow2(n) - 1 - a, i) == !BitAt(a, i)
    decreases i
  {
    if i > 0 {
      NotBits(a / 2, n - 1, i - 1);
      assert (Pow2(n) - 1 - a) / 2 == Pow2(n - 1) - 1 - a / 2;
    }
  }

  lemma {:induction false} HighBits(a: nat, n: nat, i: nat)
    requires a < Pow2(n) && n <= i
    ensures !BitAt(a, i)
    decreases n
  {
    if n == 0 {
      ZeroBits(i);
    } else {
      HighBits(a / 2, n - 1, i - 1);
    }
  }

  lemma {:induction false} ShiftBits(a: nat, k: nat, i: nat)
    ensures a * Pow2(k) >= 0
    ensures BitAt(a * Pow2(k), i) == (i >= k && BitAt(a, i - k))
    decreases k
  {
    if k > 0 {
      var half := a * Pow2(k - 1);
      ShiftBits(a, k - 1, if i == 0 then 0 else i - 1);
      assert a * Pow2(k) == 2 * half;
      assert 2 * half / 2 == half && 2 * half % 2 == 0;
    }
  }

  /** A one-bit mask tests that bit. */
  lemma MaskTestsBit(a: nat, i: nat)
    ensures And(a, Pow2(i)) != 0 <==> BitAt(a, i)
  {
    forall j: nat ensures BitAt(And(a, Pow2(i)), j) <==> BitAt(a, j) && j == i {
      ShiftBits(1, i, j);
      if j > i {
        HighBits(1, 1, j - i);
      }
      OpBits(a, Pow2(i), j);
    }
    if And(a, Pow2(i)) != 0 {
      var j := SomeBit(And(a, Pow2(i)));
    } else {
      ZeroBits(i);
    }
  }

  lemma {:induction false} SomeBit(a: nat) returns (i: nat)
    requires a != 0
    ensures BitAt(a, i)
    decreases a
  {
    if a % 2 == 1 {
      i := 0;
    } else {
      i := SomeBit(a / 2);
      i := i + 1;
    }
  }

  /** Dividing a remainder, when the divisor and what is kept fit in the modulus. */
  lemma ModDivMod(x: nat, a: nat, m: nat, b: nat)
    requires a > 0 && m > 0 && b > 0
    ensures a * (m * b) > 0 && Quot(x % (a * (m * b)), a) % m == Quot(x, a) % m
  {
    AtLeastOnce(b, m);
    AtLeastOnce(m * b, a);
    DivOfMod(x, a, m * b);
    ModMod(Quot(x, a), m, b);
  }

  lemma Regroup(q: nat, n: nat, r: nat, a: nat, low: nat)
    ensures (q * n + r) * a + low == q * (a * n) + (r * a + low)
  {
  }

  lemma DivOfMod(x: nat, a: nat, n: nat)
    requires a > 0 && n > 0
    ensures a * n > 0 && Quot(x % (a * n), a) == Quot(x, a) % n
  {
    AtLeastOnce(n, a);
    var y := Quot(x, a);
    var q, r, low := Quot(y, n), y % n, x % a;
    Regroup(q, n, r, a, low);
    AtMost(r, n, a);
    RemainderIs(x, a * n, q, r * a + low);
    QuotientIs(r * a + low, a, r, low);
  }

  lemma RemainderIs(x: nat, d: nat, q: nat, r: nat)
    requires r < d && x == q * d + r
    ensures x % d == r
  {
    DivModIs(x, d, q, r);
  }

  lemma QuotientIs(x: nat, d: nat, q: nat, r: nat)
    requires r < d && x == q * d + r
    ensures Quot(x, d) == q
  {
    DivModIs(x, d, q, r);
  }

  lemma Commutes(a: nat, b: nat)
    ensures a * b == b * a
  {
  }

  /** A remainder modulo a square, from its two digits. */
  lemma TwoDigits(y: nat, m: nat)
    requires m > 0
    ensures m * m > 0 && y % (m * m) == y % m + m * (Quot(y, m) % m)
  {
    AtLeastOnce(m, m);
    var q, r := Quot(Quot(y, m), m), Quot(y, m) % m;
    Recombined(y, m);
    Recombined(Quot(y, m), m);
    Regroup(q, m, r, m, y % m);
    AtMost(r, m, m);
    DivModIs(y, m * m, q, r * m + y % m);
    Commutes(r, m);
  }
}
