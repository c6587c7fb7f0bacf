/** Little-endian numbers of any width, byte by byte. */
module LittleEndian {
  import opened Bits

  type byte = x: int | 0 <= x < 256

  function FromBytes(bs: seq<byte>): nat
    decreases |bs|
  {
    if bs == [] then 0 else bs[0] + 256 * FromBytes(bs[1..])
  }

  lemma FourBytes(bs: seq<byte>)
    requires |bs| == 4
    ensures var b0: int, b1: int, b2: int, b3: int := bs[0], bs[1], bs[2], bs[3];
            FromBytes(bs) == b0 + 0x100 * b1 + 0x1_0000 * b2 + 0x100_0000 * b3
  {
    assert bs[1..][1..] == bs[2..] && bs[2..][1..] == bs[3..] && bs[3..][1..] == [];
    assert FromBytes(bs[3..]) == bs[3];
    assert FromBytes(bs[2..]) == bs[2] + 256 * FromBytes(bs[3..]);
  }

  /** Byte j of a number, lowest first. */
  function ByteOf(value: nat, j: nat): byte
    decreases j
  {
    if j == 0 then value % 256 else ByteOf(value / 256, j - 1)
  }

  /** The numbers of n bytes. */
  function Limit(n: nat): (p: nat)
    ensures p > 0
  {
    if n == 0 then 1 else 256 * Limit(n - 1)
  }

  function ToBytes(value: nat, n: nat): (bs: seq<byte>)
    ensures |bs| == n
    decreases n
  {
    if n == 0 then [] else [value % 256] + ToBytes(value / 256, n - 1)
  }

  lemma {:induction false} ToBytesAt(value: nat, n: nat, j: nat)
    requires j < n
    ensures ToBytes(value, n)[j] == ByteOf(value, j)
    decreases n
  {
    if j > 0 {
      ToBytesAt(value / 256, n - 1, j - 1);
    }
  }

  lemma {:induction false} FromBytesAt(bs: seq<byte>, j: nat)
    requires j < |bs|
    ensures ByteOf(FromBytes(bs), j) == bs[j]
    decreases |bs|
  {
    assert FromBytes(bs) / 256 == FromBytes(bs[1..]);
    if j > 0 {
      FromBytesAt(bs[1..], j - 1);
    }
  }

  lemma {:induction false} FromBytesBelow(bs: seq<byte>)
    ensures FromBytes(bs) < Limit(|bs|)
    decreases |bs|
  {
    if bs != [] {
      FromBytesBelow(bs[1..]);
    }
  }

  /** Storing a number and reading it back reduces it to the width. */
  lemma {:induction false} FromToBytes(value: nat, n: nat)
    requires value < Limit(n)
    ensures FromBytes(ToBytes(value, n)) == value
    decreases n
  {
    if n > 0 {
      FromToBytes(value / 256, n - 1);
      assert ToBytes(value, n)[1..] == ToBytes(value / 256, n - 1);
    }
  }

  /** A wide number is its low half followed by its high half. */
  lemma {:induction false} ToBytesSplit(value: nat, m: nat, n: nat)
    ensures ToBytes(value, m + n) == ToBytes(value % Limit(m), m) + ToBytes(Quot(value, Limit(m)), n)
    decreases m
  {
    if m > 0 {
      ToBytesSplit(value / 256, m - 1, n);
      LowByteOf(value, m);
      assert ToBytes(value, m + n) == [value % 256] + ToBytes(value / 256, m - 1 + n);
    }
  }

  lemma LowByteOf(value: nat, m: nat)
    requires m > 0
    ensures value % Limit(m) % 256 == value % 256
    ensures value % Limit(m) / 256 == value / 256 % Limit(m - 1)
    ensures value / 256 / Limit(m - 1) == value / Limit(m)
  {
    var p := Limit(m - 1);
    var q, r := value / 256 / p, value / 256 % p;
    var low := value % 256;
    assert value == 256 * (q * p + r) + low;
    assert value == q * (256 * p) + (256 * r + low);
    DivModIs(value, 256 * p, q, 256 * r + low);
  }

  lemma {:induction false} LimitIsPow(n: nat)
    ensures Limit(n) == Pow2(8 * n)
  {
    if n > 0 {
      LimitIsPow(n - 1);
      Pow8();
      PowAdd(8, 8 * (n - 1));
    }
  }

  lemma {:induction false} FromBytesConcat(a: seq<byte>, b: seq<byte>)
    ensures FromBytes(a + b) == FromBytes(a) + Limit(|a|) * FromBytes(b)
    decreases |a|
  {
    if a == [] {
      assert a + b == b;
    } else {
      assert (a + b)[1..] == a[1..] + b;
      FromBytesConcat(a[1..], b);
      assert 256 * (Limit(|a| - 1) * FromBytes(b)) == Limit(|a|) * FromBytes(b);
    }
  }

  /** The middle one of three digits of mixed base. */
  lemma MiddleDigit(x: nat, low: nat, p: nat, rest: nat, mid: nat, q: nat, high: nat)
    requires low < p && mid < q && x == low + p * rest && rest == mid + q * high
    ensures Quot(x, p) % q == mid
  {
    QuotientIs(x, p, rest, low);
    RemainderIs(rest, q, high, mid);
  }

  lemma MiddleBytes(a: seq<byte>, b: seq<byte>, c: seq<byte>)
    ensures Quot(FromBytes(a + (b + c)), Limit(|a|)) % Limit(|b|) == FromBytes(b)
  {
    var x, rest, high := FromBytes(a + (b + c)), FromBytes(b + c), FromBytes(c);
    FromBytesConcat(a, b + c);
    FromBytesConcat(b, c);
    FromBytesBelow(a);
    FromBytesBelow(b);
    MiddleDigit(x, FromBytes(a), Limit(|a|), rest, FromBytes(b), Limit(|b|), high);
  }

  /** The bytes from i on are the number divided, n of them a remainder. */
  lemma SliceValue(bs: seq<byte>, i: nat, n: nat)
    requires i + n <= |bs|
    ensures FromBytes(bs[i..i + n]) == Quot(FromBytes(bs), Limit(i)) % Limit(n)
  {
    var a, b, c := bs[..i], bs[i..i + n], bs[i + n..];
    assert bs == a + (b + c);
    MiddleBytes(a, b, c);
  }
}
