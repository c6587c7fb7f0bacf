/** SHA-1, as section 6.1 of RFC 3174 defines it, with the padding of its section 4. */
module Sha1 {
  import opened Bits
  import opened Instructions
  import opened LittleEndian
  import opened Words

  type word = uint32

  // ---- The standard -------------------------------------------------------------------------

  function Zeros(n: nat): (z: seq<byte>)
    ensures |z| == n
  {
    seq(n, _ => 0)
  }

  /** The fewest zeros that make room for the length field at the end of a 64-byte block. */
  function ZeroCount(length: nat): (k: nat)
    ensures k < 64 && (length + 1 + k) % 64 == 56
  {
    (119 - length % 64) % 64
  }

  function Reversed(bs: seq<byte>): (r: seq<byte>)
    ensures |r| == |bs| && forall i :: 0 <= i < |bs| ==> r[i] == bs[|bs| - 1 - i]
  {
    seq(|bs|, i requires 0 <= i < |bs| => bs[|bs| - 1 - i])
  }

  /** The message, a one bit, zeros, and the 64-bit big-endian message length in bits. */
  function Padded(message: seq<byte>): seq<byte> {
    message + [0x80] + Zeros(ZeroCount(|message|)) + Reversed(ToBytes(Wrap64(8 * |message|), 8))
  }

  /** Rotation: shifted up by a power of two, and what falls out shifted down. */
  function RotateLeft(x: word, up: nat, down: nat): word
    requires 0 < down && up * down == TWO_32
  {
    Or32(Wrap32(x * up), Below(x, down))
  }

  function Below(x: word, down: nat): (q: word)
    requires 0 < down
    ensures q == Quot(x, down)
  {
    QuotAtMost(x, down);
    Quot(x, down)
  }

  function Mix(a: word, b: word, c: word, d: word): word {
    RotateLeft(Xor32(Xor32(Xor32(a, b), c), d), 2, 0x8000_0000)
  }

  /** Word t of the message schedule: the block itself, then each word mixed from four earlier ones. */
  function Schedule(block: seq<word>, t: nat): word
    requires |block| == 16
  {
    if t < 16 then block[t]
    else Mix(Schedule(block, t - 3), Schedule(block, t - 8), Schedule(block, t - 14), Schedule(block, t - 16))
  }

  function F(t: nat, b: word, c: word, d: word): word {
    if t < 20 then Or32(And32(b, c), And32(Not32(b), d))
    else if t < 40 then Xor32(Xor32(b, c), d)
    else if t < 60 then Or32(Or32(And32(b, c), And32(b, d)), And32(c, d))
    else Xor32(Xor32(b, c), d)
  }

  function K(t: nat): word {
    if t < 20 then 0x5A827999 else if t < 40 then 0x6ED9EBA1 else if t < 60 then 0x8F1BBCDC else 0xCA62C1D6
  }

  const ROUNDS: nat := 80

  datatype Hash = Hash(a: word, b: word, c: word, d: word, e: word)

  const INITIAL: Hash := Hash(0x67452301, 0xEFCDAB89, 0x98BADCFE, 0x10325476, 0xC3D2E1F0)

  function Round(h: Hash, t: nat, w: word): Hash {
    Hash(Wrap32(RotateLeft(h.a, 0x20, 0x800_0000) + F(t, h.b, h.c, h.d) + h.e + w + K(t)),
         h.a, RotateLeft(h.b, 0x4000_0000, 4), h.c, h.d)
  }

  /** The 80 words of the schedule. */
  function ScheduleWords(block: seq<word>): (words: seq<word>)
    requires |block| == 16
    ensures |words| == ROUNDS
  {
    seq(ROUNDS, t requires 0 <= t < ROUNDS => Schedule(block, t))
  }

  /** One round for each word. */
  function Rounds(h: Hash, words: seq<word>): Hash
    decreases |words|
  {
    if words == [] then h
    else Round(Rounds(h, words[..|words| - 1]), |words| - 1, words[|words| - 1])
  }

  function AddHash(h: Hash, g: Hash): Hash {
    Hash(Wrap32(h.a + g.a), Wrap32(h.b + g.b), Wrap32(h.c + g.c), Wrap32(h.d + g.d), Wrap32(h.e + g.e))
  }

  /** A big-endian word. */
  function WordAt(data: seq<byte>, at: nat): word
    requires at + 4 <= |data|
  {
    var b0: int, b1: int, b2: int, b3: int := data[at], data[at + 1], data[at + 2], data[at + 3];
    0x100_0000 * b0 + 0x1_0000 * b1 + 0x100 * b2 + b3
  }

  type Block = b: seq<word> | |b| == 16 witness seq(16, _ => 0)

  function BlockAt(data: seq<byte>, at: nat): Block
    requires at + 64 <= |data|
  {
    seq(16, i requires 0 <= i < 16 => WordAt(data, at + 4 * i))
  }

  /** The hash after one more block. */
  function Compressed(h: Hash, block: Block): Hash {
    AddHash(h, Rounds(h, ScheduleWords(block)))
  }

  type Compression = (Hash, Block) -> Hash

  /** Chaining blocks does not depend on what compressing one does: the hash after n blocks. */
  function Chain(compress: Compression, start: Hash, data: seq<byte>, n: nat): Hash
    requires 64 * n <= |data|
  {
    if n == 0 then start else compress(Chain(compress, start, data, n - 1), BlockAt(data, 64 * (n - 1)))
  }

  function WordBytes(w: word): (bs: seq<byte>)
    ensures |bs| == 4
  {
    [ByteOf(w, 3), ByteOf(w, 2), ByteOf(w, 1), ByteOf(w, 0)]
  }

  function HashBytes(h: Hash): (bs: seq<byte>)
    ensures |bs| == 20
  {
    WordBytes(h.a) + WordBytes(h.b) + WordBytes(h.c) + WordBytes(h.d) + WordBytes(h.e)
  }

  function Digest(message: seq<byte>): seq<byte> {
    PaddedLength(message);
    HashBytes(Chain(Compressed, INITIAL, Padded(message), |Padded(message)| / 64))
  }

  lemma PaddedLength(message: seq<byte>)
    ensures |Padded(message)| == |message| + 9 + ZeroCount(|message|)
    ensures |Padded(message)| % 64 == 0
  {
    var n, k := |message|, ZeroCount(|message|);
    assert (n + 1 + k + 8) % 64 == 0;
  }

  // ---- The implementation -------------------------------------------------------------------

  lemma SameResidue(a: nat, k: nat, k': nat)
    requires k < 64 && k' < 64 && (a + k) % 64 == (a + k') % 64
    ensures k == k'
  {
  }

  lemma OneMoreZero(data: seq<byte>, k: nat)
    ensures data + [0x80] + Zeros(k) + [0] == data + [0x80] + Zeros(k + 1)
  {
    assert Zeros(k) + [0] == Zeros(k + 1);
    assert data + [0x80] + Zeros(k) + [0] == data + [0x80] + (Zeros(k) + [0]);
  }

  /** The one bit, then zeros one by one until the length field fits. */
  method AppendZeros(data: seq<byte>) returns (message: seq<byte>)
    ensures message == data + [0x80] + Zeros(ZeroCount(|data|))
  {
    message := data + [0x80];
    ghost var k := 0;
    while |message| % 64 != 56
      invariant k <= ZeroCount(|data|)
      invariant message == data + [0x80] + Zeros(k)
      decreases ZeroCount(|data|) - k
    {
      OneMoreZero(data, k);
      message := message + [0];
      k := k + 1;
    }
    SameResidue(|data| + 1, k, ZeroCount(|data|));
  }

  /** Appends a 64-bit number, highest byte first. */
  method AppendBigEndian(data: seq<byte>, value: uint64) returns (message: seq<byte>)
    ensures message == data + Reversed(ToBytes(value, 8))
  {
    message := data;
    ghost var field := Reversed(ToBytes(value, 8));
    var j := 8;
    while j > 0
      invariant 0 <= j <= 8
      invariant message == data + field[..8 - j]
    {
      j := j - 1;
      ToBytesAt(value, 8, j);
      message := message + [ByteOf(value, j)];
    }
  }

  method Pad(data: seq<byte>) returns (message: seq<byte>)
    ensures message == Padded(data)
  {
    message := AppendZeros(data);
    message := AppendBigEndian(message, Wrap64(8 * |data|));
  }

  method ExpandSchedule(message: seq<byte>, chunk: nat) returns (w: array<word>)
    requires chunk + 64 <= |message|
    ensures fresh(w) && w.Length == 80
    ensures forall t :: 0 <= t < 80 ==> w[t] == Schedule(BlockAt(message, chunk), t)
  {
    w := new word[80](_ => 0);
    for i := 0 to 16
      invariant forall t :: 0 <= t < i ==> w[t] == Schedule(BlockAt(message, chunk), t)
    {
      var base := chunk + i * 4;
      var b0: int, b1: int, b2: int, b3: int := message[base], message[base + 1], message[base + 2], message[base + 3];
      w[i] := 0x100_0000 * b0 + 0x1_0000 * b1 + 0x100 * b2 + b3;
    }
    for i := 16 to 80
      invariant forall t :: 0 <= t < i ==> w[t] == Schedule(BlockAt(message, chunk), t)
    {
      w[i] := RotateLeft(Xor32(Xor32(Xor32(w[i - 3], w[i - 8]), w[i - 14]), w[i - 16]), 2, 0x8000_0000);
    }
  }

  /** One round: the five working variables move up. */
  method RoundStep(h: Hash, i: nat, w: word) returns (h': Hash)
    ensures h' == Round(h, i, w)
  {
    var a, b, c, d, e := h.a, h.b, h.c, h.d, h.e;
    var f, k := Xor32(Xor32(b, c), d), 0xCA62C1D6;
    if i < 20 {
      f, k := Or32(And32(b, c), And32(Not32(b), d)), 0x5A827999;
    } else if i < 40 {
      f, k := Xor32(Xor32(b, c), d), 0x6ED9EBA1;
    } else if i < 60 {
      f, k := Or32(Or32(And32(b, c), And32(b, d)), And32(c, d)), 0x8F1BBCDC;
    }
    var temp := Wrap32(RotateLeft(a, 0x20, 0x800_0000) + f + e + k + w);
    e := d;
    d := c;
    c := RotateLeft(b, 0x4000_0000, 4);
    b := a;
    a := temp;
    h' := Hash(a, b, c, d, e);
  }

  lemma NextRound(h: Hash, words: seq<word>, t: nat)
    requires t < |words|
    ensures Rounds(h, words[..t + 1]) == Round(Rounds(h, words[..t]), t, words[t])
  {
    assert words[..t + 1][..t] == words[..t];
  }

  /** All rounds of one block. */
  method RunRounds(h: Hash, w: array<word>) returns (r: Hash)
    requires w.Length == 80
    ensures r == Rounds(h, w[..])
  {
    r := h;
    for i := 0 to 80
      invariant r == Rounds(h, w[..i])
    {
      r := RoundStep(r, i, w[i]);
      NextRound(h, w[..], i);
      assert w[..][..i] == w[..i] && w[..][..i + 1] == w[..i + 1];
    }
    assert w[..80] == w[..];
  }

  /** compress is the compression of the standard, under another name. */
  ghost predicate IsCompressed(compress: Compression) {
    forall h, block {:trigger Compressed(h, block)} :: compress(h, block) == Compressed(h, block)
  }

  method Compress(h: Hash, message: seq<byte>, chunk: nat, ghost compress: Compression) returns (h': Hash)
    requires chunk + 64 <= |message| && IsCompressed(compress)
    ensures h' == compress(h, BlockAt(message, chunk))
  {
    var w := ExpandSchedule(message, chunk);
    assert w[..] == ScheduleWords(BlockAt(message, chunk));
    var r := RunRounds(h, w);
    h' := Accumulate(h, r);
    assert h' == Compressed(h, BlockAt(message, chunk));
  }

  method Accumulate(h: Hash, r: Hash) returns (h': Hash)
    ensures h' == AddHash(h, r)
  {
    h' := Hash(Wrap32(h.a + r.a), Wrap32(h.b + r.b), Wrap32(h.c + r.c), Wrap32(h.d + r.d), Wrap32(h.e + r.e));
  }

  method InitialHash() returns (h: Hash)
    ensures h == INITIAL
  {
    h := Hash(0x67452301, 0xEFCDAB89, 0x98BADCFE, 0x10325476, 0xC3D2E1F0);
  }

  /** The block loop. */
  method HashMessage(message: seq<byte>, ghost compress: Compression) returns (h: Hash)
    requires |message| % 64 == 0 && IsCompressed(compress)
    ensures h == Chain(compress, INITIAL, message, |message| / 64)
  {
    h := InitialHash();
    var chunk := 0;
    ghost var n := 0;
    while chunk < |message|
      invariant chunk == 64 * n && 64 * n <= |message|
      invariant h == Chain(compress, INITIAL, message, n)
    {
      h := Compress(h, message, chunk, compress);
      chunk := chunk + 64;
      n := n + 1;
    }
    assert n == |message| / 64;
  }

  method ComputeSha1(data: seq<byte>) returns (digest: seq<byte>)
    ensures digest == Digest(data)
  {
    var message := Pad(data);
    PaddedLength(data);
    var h := HashMessage(message, Compressed);
    digest := StoreWord([], h.a);
    digest := StoreWord(digest, h.b);
    digest := StoreWord(digest, h.c);
    digest := StoreWord(digest, h.d);
    digest := StoreWord(digest, h.e);
  }

  /** The four bytes of a word, highest first. */
  method StoreWord(digest: seq<byte>, w: word) returns (digest': seq<byte>)
    ensures digest' == digest + WordBytes(w)
  {
    Quarters(w);
    digest' := digest + [w / 0x100_0000 % 0x100, w / 0x1_0000 % 0x100, w / 0x100 % 0x100, w % 0x100];
  }

  lemma Quarters(w: word)
    ensures WordBytes(w) == [w / 0x100_0000 % 0x100, w / 0x1_0000 % 0x100, w / 0x100 % 0x100, w % 0x100]
  {
    assert w / 256 / 256 == w / 0x1_0000 && w / 256 / 256 / 256 == w / 0x100_0000;
    assert ByteOf(w, 1) == ByteOf(w / 256, 0) && ByteOf(w, 2) == ByteOf(w / 256 / 256, 0);
    assert ByteOf(w, 3) == ByteOf(w / 256 / 256, 1) == ByteOf(w / 256 / 256 / 256, 0);
  }

  // ---- What the operations do to bits -------------------------------------------------------

  /** Rotation by k is a sum, and moves bit i from k places below, around the word. */
  lemma RotatedBits(x: word, k: nat, i: nat)
    requires 0 < k < 32 && i < 32
    ensures Pow2(k) * Pow2(32 - k) == TWO_32
    ensures var r := RotateLeft(x, Pow2(k), Pow2(32 - k));
            r == Wrap32(x * Pow2(k)) + Quot(x, Pow2(32 - k)) && BitAt(r, i) == BitAt(x, (i + 32 - k) % 32)
  {
    Pow32();
    PowAdd(k, 32 - k);
    var up, down := Pow2(k), Pow2(32 - k);
    var low, high := x % down, Quot(x, down);
    RotationParts(x, up, down);
    RotationOr(low, high, k, up);
    RotateIs(x, up, down, low * up, high, high + up * low);
    RotationSumBits(low, high, k, i);
  }

  lemma RotateIs(x: word, up: nat, down: nat, shifted: nat, high: nat, sum: nat)
    requires 0 < down && up * down == TWO_32
    requires x * up >= 0 && Wrap32(x * up) == shifted && Quot(x, down) == high
    requires Or(shifted, high) == sum == shifted + high
    ensures RotateLeft(x, up, down) == sum == Wrap32(x * up) + Quot(x, down)
  {
  }

  lemma RotationParts(x: nat, up: nat, down: nat)
    requires 0 < up && 0 < down && up * down == TWO_32 && x < TWO_32
    ensures Quot(x, down) < up && x == x % down + down * Quot(x, down)
    ensures x * up >= 0 && (x * up) % TWO_32 == (x % down) * up
  {
    NonNegative(x, up);
    HighKept(0, x, down, up);
    QuotBelow(x, down, up);
    Recombined(x, down);
  }

  lemma RotationOr(low: nat, high: nat, k: nat, up: nat)
    requires up == Pow2(k) && high < up
    ensures low * up >= 0 && Or(low * up, high) == high + up * low == low * up + high
  {
    NonNegative(low, up);
    OrCommutes(low * up, high);
    OrDisjoint(high, low, k);
  }

  lemma RotationSumBits(low: nat, high: nat, k: nat, i: nat)
    requires 0 < k < 32 && i < 32 && low < Pow2(32 - k) && high < Pow2(k)
    ensures Pow2(k) * low >= 0 && Pow2(32 - k) * high >= 0
    ensures BitAt(high + Pow2(k) * low, i) == BitAt(low + Pow2(32 - k) * high, (i + 32 - k) % 32)
  {
    LowBits(high, low, k, i);
    LowBits(low, high, 32 - k, (i + 32 - k) % 32);
  }

  /** The round functions choose, compare by parity, and take the majority, bit by bit. */
  lemma FBits(t: nat, b: word, c: word, d: word, i: nat)
    requires i < 32
    ensures var x, y, z := BitAt(b, i), BitAt(c, i), BitAt(d, i);
            BitAt(F(t, b, c, d), i)
            == if t < 20 then (if x then y else z)
               else if 40 <= t < 60 then (x && y) || (x && z) || (y && z)
               else (x != y) != z
  {
    NotBits32(b, i);
    OpBits(b, c, i);
    OpBits(b, d, i);
    OpBits(c, d, i);
    OpBits(Not32(b), d, i);
    OpBits(And32(b, c), And32(Not32(b), d), i);
    OpBits(Xor32(b, c), d, i);
    OpBits(And32(b, c), And32(b, d), i);
    OpBits(Or32(And32(b, c), And32(b, d)), And32(c, d), i);
  }

  /** A schedule word is the parity of four earlier ones, moved up by one place. */
  lemma MixBits(a: word, b: word, c: word, d: word, i: nat)
    requires i < 32
    ensures var j := (i + 31) % 32;
            BitAt(Mix(a, b, c, d), i) == (((BitAt(a, j) != BitAt(b, j)) != BitAt(c, j)) != BitAt(d, j))
  {
    var j := (i + 31) % 32;
    Pow32();
    PowAdd(1, 31);
    assert Pow2(1) == 2 && Pow2(31) == 0x8000_0000;
    RotatedBits(Xor32(Xor32(Xor32(a, b), c), d), 1, i);
    OpBits(a, b, j);
    OpBits(Xor32(a, b), c, j);
    OpBits(Xor32(Xor32(a, b), c), d, j);
  }

  // ---- What the standard says of its parts --------------------------------------------------

  /** The round constants are the integer parts of 2^30 times the square roots of 2, 3, 5 and 10. */
  lemma RoundConstants(t: nat)
    ensures var n := if t < 20 then 2 else if t < 40 then 3 else if t < 60 then 5 else 10;
            var k: int := K(t);
            k * k <= n * 0x1000_0000_0000_0000 < (k + 1) * (k + 1)
  {
  }

  /** The initial hash counts its bytes up in hexadecimal and down again. */
  lemma InitialBytes()
    ensures HashBytes(INITIAL) == [0x67, 0x45, 0x23, 0x01, 0xEF, 0xCD, 0xAB, 0x89, 0x98, 0xBA, 0xDC, 0xFE,
                                   0x10, 0x32, 0x54, 0x76, 0xC3, 0xD2, 0xE1, 0xF0]
  {
    WordOf(0x67452301, 0x67, 0x45, 0x23, 0x01);
    WordOf(0xEFCDAB89, 0xEF, 0xCD, 0xAB, 0x89);
    WordOf(0x98BADCFE, 0x98, 0xBA, 0xDC, 0xFE);
    WordOf(0x10325476, 0x10, 0x32, 0x54, 0x76);
    WordOf(0xC3D2E1F0, 0xC3, 0xD2, 0xE1, 0xF0);
  }

  lemma WordOf(w: word, b3: byte, b2: byte, b1: byte, b0: byte)
    requires w == 256 * (256 * (256 * b3 + b2) + b1) + b0
    ensures WordBytes(w) == [b3, b2, b1, b0]
  {
    UpperBytes(256 * (256 * b3 + b2) + b1, 256 * b3 + b2, b3, b2, b1);
    Pushed(256 * (256 * b3 + b2) + b1, b0, 0);
    Pushed(256 * (256 * b3 + b2) + b1, b0, 1);
    Pushed(256 * (256 * b3 + b2) + b1, b0, 2);
  }

  lemma UpperBytes(q1: nat, q2: nat, b3: byte, b2: byte, b1: byte)
    requires q1 == 256 * q2 + b1 && q2 == 256 * b3 + b2
    ensures ByteOf(q1, 0) == b1 && ByteOf(q1, 1) == b2 && ByteOf(q1, 2) == b3
  {
    Pushed(q2, b1, 0);
    Pushed(q2, b1, 1);
    Pushed(b3, b2, 0);
    Pushed(0, b3, 0);
  }

  /** A byte more at the low end. */
  lemma Pushed(q: nat, b: byte, j: nat)
    ensures ByteOf(256 * q + b, 0) == b && ByteOf(256 * q + b, j + 1) == ByteOf(q, j)
  {
    assert (256 * q + b) / 256 == q && (256 * q + b) % 256 == b;
  }

  /** Words are read and written with their highest byte first. */
  lemma BigEndianWords(data: seq<byte>, at: nat, w: word)
    requires at + 4 <= |data|
    ensures WordAt(data, at) == FromBytes(Reversed(data[at..at + 4]))
    ensures FromBytes(Reversed(WordBytes(w))) == w
  {
    var bs := data[at..at + 4];
    FourBytes(Reversed(bs));
    Quarters(w);
    FourBytes(Reversed(WordBytes(w)));
    FourDigits(w);
  }

  lemma FourDigits(w: word)
    ensures w == w % 0x100 + 0x100 * (w / 0x100 % 0x100) + 0x1_0000 * (w / 0x1_0000 % 0x100)
                 + 0x100_0000 * (w / 0x100_0000 % 0x100)
  {
  }

  /** From the seventeenth on, a schedule word's bits are the parity of those 3, 8, 14 and 16 words before,
      one place down. */
  lemma ScheduleBits(block: seq<word>, t: nat, i: nat)
    requires |block| == 16 && t >= 16 && i < 32
    ensures var j := (i + 31) % 32;
            BitAt(Schedule(block, t), i)
            == (((BitAt(Schedule(block, t - 3), j) != BitAt(Schedule(block, t - 8), j))
                 != BitAt(Schedule(block, t - 14), j)) != BitAt(Schedule(block, t - 16), j))
  {
    MixBits(Schedule(block, t - 3), Schedule(block, t - 8), Schedule(block, t - 14), Schedule(block, t - 16), i);
  }

  /** A round moves a to b, b turned down by two places to c, c to d and d to e; the new a is the sum of
      the old one turned up by five places, the round function, e, the constant and the schedule word. */
  lemma RoundMoves(h: Hash, t: nat, w: word) returns (turned: word)
    ensures var r := Round(h, t, w);
            && r.b == h.a && r.d == h.c && r.e == h.d
            && (forall i :: 0 <= i < 32 ==> BitAt(r.c, i) == BitAt(h.b, (i + 2) % 32))
            && (forall i :: 0 <= i < 32 ==> BitAt(turned, i) == BitAt(h.a, (i + 27) % 32))
            && r.a == (turned + F(t, h.b, h.c, h.d) + h.e + w + K(t)) % 0x1_0000_0000
  {
    turned := RotateLeft(h.a, 0x20, 0x800_0000);
    TurnedBits(h.a, h.b);
  }

  lemma TurnedBits(a: word, b: word)
    ensures forall i :: 0 <= i < 32 ==> BitAt(RotateLeft(b, 0x4000_0000, 4), i) == BitAt(b, (i + 2) % 32)
    ensures forall i :: 0 <= i < 32 ==> BitAt(RotateLeft(a, 0x20, 0x800_0000), i) == BitAt(a, (i + 27) % 32)
  {
    RotationFactors();
    forall i | 0 <= i < 32 ensures BitAt(RotateLeft(b, 0x4000_0000, 4), i) == BitAt(b, (i + 2) % 32) {
      RotatedBits(b, 30, i);
    }
    forall i | 0 <= i < 32 ensures BitAt(RotateLeft(a, 0x20, 0x800_0000), i) == BitAt(a, (i + 27) % 32) {
      RotatedBits(a, 5, i);
    }
  }

  lemma RotationFactors()
    ensures Pow2(30) == 0x4000_0000 && Pow2(2) == 4 && Pow2(5) == 0x20 && Pow2(27) == 0x800_0000
  {
    Pow32();
    assert Pow2(2) == 4 && Pow2(5) == 32;
    PowAdd(2, 30);
    PowAdd(5, 27);
  }

  // ---- Padding loses nothing ----------------------------------------------------------------

  /** The length field, even wrapped, and the padded length tell the message length. */
  lemma LengthFromField(a: nat, b: nat, k: nat, k': nat)
    requires Wrap64(8 * a) == Wrap64(8 * b) && a + k == b + k' && k < 64 && k' < 64
    ensures a == b
  {
    var q, q' := 8 * a / TWO_64, 8 * b / TWO_64;
    assert 8 * (a - b) == TWO_64 * (q - q');
  }

  lemma FieldOf(message: seq<byte>)
    ensures |Padded(message)| >= 8
    ensures Padded(message)[|Padded(message)| - 8..] == Reversed(ToBytes(Wrap64(8 * |message|), 8))
  {
  }

  lemma ReversedInjective(s: seq<byte>, t: seq<byte>)
    requires Reversed(s) == Reversed(t)
    ensures s == t
  {
    assert |s| == |Reversed(s)| == |Reversed(t)| == |t|;
    forall i | 0 <= i < |s| ensures s[i] == t[i] {
      assert Reversed(s)[|s| - 1 - i] == s[i] && Reversed(t)[|s| - 1 - i] == t[i];
    }
  }

  /** Different messages have different paddings, whatever their lengths, even where the length field
      wraps around. */
  lemma PaddingInjective(m: seq<byte>, m': seq<byte>)
    requires Padded(m) == Padded(m')
    ensures m == m'
  {
    var p := Padded(m);
    var x, x' := Wrap64(8 * |m|), Wrap64(8 * |m'|);
    FieldOf(m);
    FieldOf(m');
    ReversedInjective(ToBytes(x, 8), ToBytes(x', 8));
    assert Limit(8) == TWO_64;
    FromToBytes(x, 8);
    FromToBytes(x', 8);
    PaddedLength(m);
    PaddedLength(m');
    LengthFromField(|m|, |m'|, ZeroCount(|m|), ZeroCount(|m'|));
    assert m == p[..|m|] && m' == p[..|m'|];
  }
}
