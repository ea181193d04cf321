/** Packed 32-bit words read as bytes, and bit reversal, as the compressor uses them. */
module Packing {
  import opened Words
  import opened Deflate

  // ----- Packed words -------------------------------------------------------

  /** The four bytes of a `uint32`, most significant first. */
  function Bytes4(x: nat): (r: seq<byte>)
    ensures |r| == 4
  {
    [(x / 0x100_0000) % 256, (x / 0x1_0000) % 256, (x / 0x100) % 256, x % 256]
  }

  /** The last `k` of them: the valid part of a packed word. */
  function Tail(x: nat, k: nat): (r: seq<byte>)
    requires k <= 4
    ensures |r| == k
  {
    Bytes4(x)[4 - k..]
  }

  /** `x << 8 | b` */
  function PushByte(x: nat, b: byte): (r: nat)
  {
    BitOr(Shl32(x, 8), b)
  }

  /** `x << 24 | y >> 8` */
  function PushThree(x: nat, y: nat): (r: nat)
  {
    BitOr(Shl32(x, 24), Shr(y, 8))
  }

  lemma PowersUsed()
    ensures Pow2(8) == 0x100 && Pow2(16) == 0x1_0000 && Pow2(24) == 0x100_0000
  {
    Pow2Add(8, 8);
    Pow2Add(8, 16);
    assert Pow2(8) == 0x100;
  }

  /** The word with the given bytes. */
  function Word(a: byte, b: byte, c: byte, d: byte): (x: nat)
    ensures x < U32
  {
    (a as int) * 0x100_0000 + (b as int) * 0x1_0000 + (c as int) * 0x100 + d as int
  }

  lemma BytesOfWord(a: byte, b: byte, c: byte, d: byte)
    ensures Bytes4(Word(a, b, c, d)) == [a, b, c, d]
  {
    WordParts(a, b, c, d);
    LowByte(a, b);
    LowByte((a as int) * 0x100 + b as int, c);
  }

  lemma LowByte(hi: nat, lo: byte)
    ensures (hi * 0x100 + lo as int) % 256 == lo
  {
  }

  lemma WordOfBytes(x: nat)
    requires x < U32
    ensures var b := Bytes4(x); x == Word(b[0], b[1], b[2], b[3])
  {
    var p, q := x / 0x100, x / 0x1_0000;
    DivTwice(x);
    LowPart(x);
    LowPart(p);
    LowPart(q);
  }

  lemma DivTwice(x: nat)
    ensures x / 0x100 / 0x100 == x / 0x1_0000
    ensures x / 0x1_0000 / 0x100 == x / 0x100_0000
  {
  }

  lemma LowPart(x: nat)
    ensures x == x / 0x100 * 0x100 + x % 0x100
  {
  }

  lemma WordParts(a: byte, b: byte, c: byte, d: byte)
    ensures var x := Word(a, b, c, d);
      && x % 0x100 == d
      && x / 0x100 == (a as int) * 0x1_0000 + (b as int) * 0x100 + c as int
      && x % 0x1_0000 == (c as int) * 0x100 + d as int
      && x / 0x1_0000 == (a as int) * 0x100 + b as int
      && x % 0x100_0000 == (b as int) * 0x1_0000 + (c as int) * 0x100 + d as int
      && x / 0x100_0000 == a
  {
    SplitOneByte((a as int) * 0x1_0000 + (b as int) * 0x100 + c as int, d);
    SplitTwoBytes((a as int) * 0x100 + b as int, (c as int) * 0x100 + d as int);
    SplitThreeBytes(a, (b as int) * 0x1_0000 + (c as int) * 0x100 + d as int);
  }

  lemma SplitOneByte(hi: nat, lo: nat)
    requires lo < 0x100
    ensures (hi * 0x100 + lo) / 0x100 == hi && (hi * 0x100 + lo) % 0x100 == lo
  {
  }

  lemma SplitTwoBytes(hi: nat, lo: nat)
    requires lo < 0x1_0000
    ensures (hi * 0x1_0000 + lo) / 0x1_0000 == hi && (hi * 0x1_0000 + lo) % 0x1_0000 == lo
  {
  }

  lemma SplitThreeBytes(hi: nat, lo: nat)
    requires lo < 0x100_0000
    ensures (hi * 0x100_0000 + lo) / 0x100_0000 == hi && (hi * 0x100_0000 + lo) % 0x100_0000 == lo
  {
  }

  lemma ModU32(q: nat, r: nat)
    requires r < U32
    ensures (q * U32 + r) % U32 == r
  {
  }

  lemma Shl32Drops(x: nat)
    requires x < U32
    ensures Shl32(x, 8) == (x % 0x100_0000) * 0x100
    ensures Shl32(x, 24) == (x % 0x100) * 0x100_0000
  {
    hide Pow2;
    PowersUsed();
    var q, r := x / 0x100_0000, x % 0x100_0000;
    assert x == q * 0x100_0000 + r;
    ModU32(q, r * 0x100);
    q, r := x / 0x100, x % 0x100;
    assert x == q * 0x100 + r;
    ModU32(q, r * 0x100_0000);
  }

  lemma PushByteBytes(x: nat, b: byte)
    requires x < U32
    ensures PushByte(x, b) < U32
    ensures Bytes4(PushByte(x, b)) == Bytes4(x)[1..] + [b]
  {
    var s := Bytes4(x);
    WordOfBytes(x);
    WordParts(s[0], s[1], s[2], s[3]);
    Shl32Drops(x);
    PowersUsed();
    BitOrDisjoint(b, x % 0x100_0000, 8);
    assert PushByte(x, b) == Word(s[1], s[2], s[3], b);
    BytesOfWord(s[1], s[2], s[3], b);
  }

  /** Shifting a byte in extends the valid part, or slides it when it is full. */
  lemma PushByteTail(x: nat, k: nat, b: byte)
    requires x < U32 && k <= 4
    ensures PushByte(x, b) < U32
    ensures k < 4 ==> Tail(PushByte(x, b), k + 1) == Tail(x, k) + [b]
    ensures k == 4 ==> Tail(PushByte(x, b), 4) == Tail(x, 4)[1..] + [b]
  {
    hide Bytes4, PushByte;
    PushByteBytes(x, b);
  }

  lemma PushThreeTail(x: nat, k: nat, y: nat, n: nat)
    requires x < U32 && y < U32 && 1 <= k <= 4 && n <= 4 && n <= k + 3
    ensures PushThree(x, y) < U32
    ensures Tail(PushThree(x, y), n) == (Tail(x, k) + Bytes4(y)[..3])[k + 3 - n..]
  {
    hide Bytes4, PushThree;
    PushThreeBytes(x, y);
    LastOf(Bytes4(x), Bytes4(y)[..3], k, n);
  }

  /** The last `n` bytes of a window that moved on by three. */
  lemma LastOf(s: seq<byte>, t: seq<byte>, k: nat, n: nat)
    requires |s| == 4 && |t| == 3 && 1 <= k <= 4 && n <= 4 && n <= k + 3
    ensures ([s[3]] + t)[4 - n..] == (s[4 - k..] + t)[k + 3 - n..]
  {
    var p, q := s[4 - k..3], [s[3]] + t;
    assert s[4 - k..] + t == p + q;
    DropPrefix(p, q, 4 - n);
  }

  lemma DropPrefix(p: seq<byte>, q: seq<byte>, m: nat)
    requires m <= |q|
    ensures (p + q)[|p| + m..] == q[m..]
  {
  }

  lemma LowByteTail(x: nat)
    ensures Tail(x % 256, 1) == Bytes4(x)[3..]
  {
  }

  lemma PushThreeBytes(x: nat, y: nat)
    requires x < U32 && y < U32
    ensures PushThree(x, y) < U32
    ensures Bytes4(PushThree(x, y)) == [Bytes4(x)[3]] + Bytes4(y)[..3]
  {
    var s, t := Bytes4(x), Bytes4(y);
    WordOfBytes(x);
    WordOfBytes(y);
    WordParts(s[0], s[1], s[2], s[3]);
    WordParts(t[0], t[1], t[2], t[3]);
    Shl32Drops(x);
    PowersUsed();
    BitOrDisjoint(y / 0x100, x % 0x100, 24);
    assert PushThree(x, y) == Word(s[3], t[0], t[1], t[2]);
    BytesOfWord(s[3], t[0], t[1], t[2]);
  }

  /** What the comparisons of packed words in `add` say about the bytes. */
  lemma PackedComparisons(l: nat, u: nat)
    requires l < U32 && u < U32
    ensures var h, w := Bytes4(l), Bytes4(u);
      && (u / 0x1_0000 == u % 0x1_0000 <==> w[0] == w[2] && w[1] == w[3])
      && (l % 0x1_0000 == u % 0x1_0000 <==> h[2] == w[2] && h[3] == w[3])
      && (l == u <==> h == w)
      && (l % 0x100_0000 == u / 0x100 <==> h[1] == w[0] && h[2] == w[1] && h[3] == w[2])
  {
    var h, w := Bytes4(l), Bytes4(u);
    WordOfBytes(l);
    WordOfBytes(u);
    WordParts(h[0], h[1], h[2], h[3]);
    WordParts(w[0], w[1], w[2], w[3]);
    TwoBytes(w[0], w[1], w[2], w[3]);
    TwoBytes(h[2], h[3], w[2], w[3]);
    ThreeBytes(h[1], h[2], h[3], w[0], w[1], w[2]);
    assert h == w ==> l == u;
  }

  lemma TwoBytes(a: byte, b: byte, c: byte, d: byte)
    ensures (a as int) * 0x100 + b as int == (c as int) * 0x100 + d as int <==> a == c && b == d
  {
  }

  lemma ThreeBytes(a: byte, b: byte, c: byte, d: byte, e: byte, f: byte)
    ensures (a as int) * 0x1_0000 + (b as int) * 0x100 + c as int == (d as int) * 0x1_0000 + (e as int) * 0x100 + f as int
       <==> a == d && b == e && c == f
  {
  }

  /** Byte `k` of a packed word, counted from the least significant end. */
  lemma ByteAt(x: nat, k: nat)
    requires k < 4
    ensures Shr(x, 8 * k) % 256 == Bytes4(x)[3 - k]
  {
    PowersUsed();
    assert Pow2(0) == 1;
  }

  // ----- Bit reversal -------------------------------------------------------

  function ReverseNibble(n: nat): (r: nat)
    requires n < 16
    ensures r < 16
  {
    match n
    case 0 => 0  case 1 => 8   case 2 => 4   case 3 => 12
    case 4 => 2  case 5 => 10  case 6 => 6   case 7 => 14
    case 8 => 1  case 9 => 9   case 10 => 5  case 11 => 13
    case 12 => 3 case 13 => 11 case 14 => 7  case _ => 15
  }

  function Reverse8(b: byte): (r: nat)
  {
    BitOr(ReverseNibble(b % 16) * 16, ReverseNibble(b / 16))
  }

  lemma Reverse8Nibbles(hi: nat, lo: nat)
    requires hi < 16 && lo < 16
    ensures Reverse8(hi * 16 + lo) == ReverseNibble(lo) * 16 + ReverseNibble(hi)
  {
    assert (hi * 16 + lo) % 16 == lo && (hi * 16 + lo) / 16 == hi;
    SmallPowers();
    BitOrDisjoint(ReverseNibble(hi), ReverseNibble(lo), 4);
  }

  function Reverse7(b: nat): (r: nat)
    requires b < 128
  {
    Reverse8(b * 2)
  }

  lemma ReverseNibbleBits(n: nat)
    requires n < 16
    ensures LsbBits(ReverseNibble(n), 4) == MsbBits(n, 4)
  {
    hide LsbBits, MsbBits, ReverseNibble;
    var r := ReverseNibble(n);
    LsbFour(r);
    MsbFour(n);
    ReversedBits(n);
  }

  /** The table reverses the four bits. */
  lemma ReversedBits(n: nat)
    requires n < 16
    ensures var r := ReverseNibble(n);
      && (r % 2 == 1 <==> n / 8 == 1) && (r / 2 % 2 == 1 <==> n / 4 % 2 == 1)
      && (r / 4 % 2 == 1 <==> n / 2 % 2 == 1) && (r / 8 == 1 <==> n % 2 == 1)
  {
  }

  lemma LsbFour(n: nat)
    requires n < 16
    ensures LsbBits(n, 4) == [n % 2 == 1, n / 2 % 2 == 1, n / 4 % 2 == 1, n / 8 == 1]
  {
    hide LsbBits;
    LsbCons(n, 3);
    LsbCons(n / 2, 2);
    LsbCons(n / 4, 1);
    LsbCons(n / 8, 0);
    Halves(n);
  }

  lemma Halves(n: nat)
    requires n < 16
    ensures n / 2 / 2 == n / 4 && n / 4 / 2 == n / 8 && (n / 8 % 2 == 1 <==> n / 8 == 1)
  {
  }

  lemma LsbCons(n: nat, k: nat)
    ensures LsbBits(n, k + 1) == [n % 2 == 1] + LsbBits(n / 2, k)
    ensures k == 0 ==> LsbBits(n, k + 1) == [n % 2 == 1]
  {
  }

  lemma MsbFour(n: nat)
    requires n < 16
    ensures MsbBits(n, 4) == [n / 8 == 1, n / 4 % 2 == 1, n / 2 % 2 == 1, n % 2 == 1]
  {
    hide MsbBits;
    MsbSnoc(n, 3);
    MsbSnoc(n / 2, 2);
    MsbSnoc(n / 4, 1);
    MsbSnoc(n / 8, 0);
    Halves(n);
  }

  lemma SwapNibbles(hi: nat, lo: nat, first: nat, second: nat)
    requires hi < 16 && lo < 16 && first < 16 && second < 16
    requires LsbBits(first, 4) == MsbBits(hi, 4)
    requires LsbBits(second, 4) == MsbBits(lo, 4)
    ensures LsbBits(second * 16 + first, 8) == MsbBits(hi * 16 + lo, 8)
  {
    hide LsbBits, MsbBits, Pow2;
    SmallPowers();
    LsbConcat(first, second, 4, 4);
    MsbConcat(hi, lo, 4, 4);
  }

  /** A Huffman code is written most significant bit first by reversing it. */
  lemma Reverse8Bits(b: byte)
    ensures Reverse8(b) < 256
    ensures LsbBits(Reverse8(b), 8) == MsbBits(b, 8)
  {
    var hi, lo := b / 16, b % 16;
    ReverseNibbleBits(hi);
    ReverseNibbleBits(lo);
    SwapNibbles(hi, lo, ReverseNibble(hi), ReverseNibble(lo));
    Reverse8Nibbles(hi, lo);
    assert b == hi * 16 + lo;
  }

  /** A number written on one bit more than it needs ends in a zero bit. */
  lemma TopBitClear(v: nat, n: nat)
    requires v < 2 * Pow2(n) && !LsbBits(v, n + 1)[n]
    ensures v < Pow2(n)
    ensures LsbBits(v, n + 1) == LsbBits(v, n) + [false]
  {
    var hi := if v < Pow2(n) then 0 else 1;
    LsbConcat(v - hi * Pow2(n), hi, n, 1);
    assert LsbBits(hi, 1) == [hi == 1];
  }

  lemma Reverse7Bits(b: nat)
    requires b < 128
    ensures Reverse7(b) < 128
    ensures LsbBits(Reverse7(b), 7) == MsbBits(b, 7)
  {
    Reverse8Bits(b * 2);
    DropLastBit(Reverse8(b * 2), b);
  }

  lemma LastBit(b: nat)
    ensures MsbBits(b * 2, 8) == MsbBits(b, 7) + [false]
  {
  }

  lemma DropLastBit(v: nat, b: nat)
    requires v < 256 && LsbBits(v, 8) == MsbBits(b * 2, 8)
    ensures v < 128 && LsbBits(v, 7) == MsbBits(b, 7)
  {
    hide MsbBits, LsbBits, Pow2;
    SmallPowers();
    LastBit(b);
    assert LsbBits(v, 8)[7] == (MsbBits(b, 7) + [false])[7];
    TopBitClear(v, 7);
    assert LsbBits(v, 7) == (LsbBits(v, 7) + [false])[..7];
    assert MsbBits(b, 7) == (MsbBits(b, 7) + [false])[..7];
  }
}
