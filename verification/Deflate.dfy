/** A decompressor for one fixed-Huffman block, written from RFC 1951 sections
    3.1.1 (bit order), 3.2.3 (block header), 3.2.5 (length and distance tables)
    and 3.2.6 (the fixed codes).  It is the specification of the compressor: it
    knows nothing about how the bits were produced. */
module Deflate {
  import opened Options
  import opened Words

  type Bits = seq<bool>

  function BitOf(b: bool): nat { if b then 1 else 0 }

  // ----- Section 3.1.1: bit order -----------------------------------------

  /** A data element of `n` bits, least significant bit first. */
  function LsbBits(v: nat, n: nat): (r: Bits)
    ensures |r| == n
  {
    if n == 0 then [] else [v % 2 == 1] + LsbBits(v / 2, n - 1)
  }

  function LsbValue(bits: Bits): nat
  {
    if bits == [] then 0 else BitOf(bits[0]) + 2 * LsbValue(bits[1..])
  }

  /** A Huffman code of `n` bits, most significant bit first. */
  function MsbBits(v: nat, n: nat): (r: Bits)
    ensures |r| == n
  {
    if n == 0 then [] else MsbBits(v / 2, n - 1) + [v % 2 == 1]
  }

  function MsbValue(bits: Bits): nat
  {
    if bits == [] then 0
    else 2 * MsbValue(bits[..|bits| - 1]) + BitOf(bits[|bits| - 1])
  }

  /** Bytes are filled starting with their least significant bit. */
  function BytesToBits(bytes: seq<byte>): (r: Bits)
    ensures |r| == 8 * |bytes|
  {
    if bytes == [] then [] else BytesToBits(bytes[..|bytes| - 1]) + LsbBits(bytes[|bytes| - 1], 8)
  }

  // ----- Section 3.2.6: fixed Huffman codes -------------------------------

  /** Reads one literal/length symbol (0 to 287) and gives back the bits after it. */
  function ReadSymbol(bits: Bits): (r: Option<(nat, Bits)>)
    ensures r.Some? ==> r.value.0 < 288 && |r.value.1| < |bits|
  {
    if |bits| < 7 then None
    else if MsbValue(bits[..7]) <= 23 then
      Some((256 + MsbValue(bits[..7]), bits[7..]))
    else if |bits| < 8 then None
    else
      var v8 := MsbValue(bits[..8]);
      if 0x30 <= v8 <= 0xBF then Some((v8 - 0x30, bits[8..]))
      else if 0xC0 <= v8 <= 0xC7 then Some((280 + v8 - 0xC0, bits[8..]))
      else if |bits| < 9 then None
      else
        var v9 := MsbValue(bits[..9]);
        if 0x190 <= v9 <= 0x1FF then Some((144 + v9 - 0x190, bits[9..]))
        else None
  }

  // ----- Section 3.2.5: length and distance alphabets ---------------------

  const DISTANCE_EXTRA: seq<nat> :=
    [0, 0, 0, 0, 1, 1, 2, 2, 3, 3, 4, 4, 5, 5, 6, 6, 7, 7, 8, 8, 9, 9, 10, 10, 11, 11, 12, 12, 13, 13]

  const DISTANCE_BASE: seq<nat> :=
    [1, 2, 3, 4, 5, 7, 9, 13, 17, 25, 33, 49, 65, 97, 129, 193, 257, 385, 513, 769, 1025, 1537,
     2049, 3073, 4097, 6145, 8193, 12289, 16385, 24577]

  function LengthExtraBits(symbol: nat): nat
    requires 257 <= symbol <= 285
  {
    if symbol < 265 || symbol == 285 then 0
    else if symbol < 269 then 1
    else if symbol < 273 then 2
    else if symbol < 277 then 3
    else if symbol < 281 then 4
    else 5
  }

  function LengthBase(symbol: nat): nat
    requires 257 <= symbol <= 285
  {
    match symbol
    case 257 => 3 case 258 => 4 case 259 => 5 case 260 => 6
    case 261 => 7 case 262 => 8 case 263 => 9 case 264 => 10
    case 265 => 11 case 266 => 13 case 267 => 15 case 268 => 17
    case 269 => 19 case 270 => 23 case 271 => 27 case 272 => 31
    case 273 => 35 case 274 => 43 case 275 => 51 case 276 => 59
    case 277 => 67 case 278 => 83 case 279 => 99 case 280 => 115
    case 281 => 131 case 282 => 163 case 283 => 195 case 284 => 227
    case _ => 258
  }

  /** A length symbol 257 to 285 followed by its extra bits. */
  function ReadLength(symbol: nat, bits: Bits): (r: Option<(nat, Bits)>)
    ensures r.Some? ==> |r.value.1| <= |bits|
  {
    if !(257 <= symbol <= 285) then None
    else
      var extra := LengthExtraBits(symbol);
      if |bits| < extra then None
      else Some((LengthBase(symbol) + LsbValue(bits[..extra]), bits[extra..]))
  }

  /** A five-bit distance code followed by its extra bits. */
  function ReadDistance(bits: Bits): (r: Option<(nat, Bits)>)
    ensures r.Some? ==> |r.value.1| <= |bits|
  {
    if |bits| < 5 then None
    else
      var code := MsbValue(bits[..5]);
      if code >= 30 then None
      else
        var rest := bits[5..];
        var extra := DISTANCE_EXTRA[code];
        if |rest| < extra then None
        else Some((DISTANCE_BASE[code] + LsbValue(rest[..extra]), rest[extra..]))
  }

  /** Copies `length` bytes from `distance` back, one at a time, so that a copy
      may overlap the bytes it is producing. */
  function Copy(out: seq<byte>, length: nat, distance: nat): (r: seq<byte>)
    requires 1 <= distance <= |out|
    ensures |r| == |out| + length
    ensures out <= r
    decreases length
  {
    if length == 0 then out
    else Copy(out + [out[|out| - distance]], length - 1, distance)
  }

  /** The symbols of a block up to and including end-of-block.  The result is the
      output so far extended, and the bits that follow the block. */
  function InflateSymbols(bits: Bits, out: seq<byte>): (r: Option<(seq<byte>, Bits)>)
    decreases |bits|
  {
    match ReadSymbol(bits)
    case None => None
    case Some((symbol, rest)) =>
      if symbol < 256 then InflateSymbols(rest, out + [symbol])
      else if symbol == 256 then Some((out, rest))
      else
        match ReadLength(symbol, rest)
        case None => None
        case Some((length, rest2)) =>
          match ReadDistance(rest2)
          case None => None
          case Some((distance, rest3)) =>
            if 1 <= distance <= |out| then InflateSymbols(rest3, Copy(out, length, distance))
            else None
  }

  /** A stream holding one final block with fixed codes.  The bits left in the
      last byte are ignored; a whole unused byte is an error. */
  function Inflate(bytes: seq<byte>): (r: Option<seq<byte>>)
  {
    var bits := BytesToBits(bytes);
    if |bits| < 3 || !bits[0] || LsbValue(bits[1..3]) != 1 then None
    else
      match InflateSymbols(bits[3..], [])
      case None => None
      case Some((out, rest)) => if |rest| < 8 then Some(out) else None
  }

  // ----- Reading back what was written ------------------------------------

  lemma MsbValueSnoc(bits: Bits, b: bool)
    ensures MsbValue(bits + [b]) == 2 * MsbValue(bits) + BitOf(b)
  {
    assert (bits + [b])[..|bits|] == bits;
  }

  lemma {:induction false} MsbRoundTrip(v: nat, n: nat)
    requires v < Pow2(n)
    ensures MsbValue(MsbBits(v, n)) == v
  {
    hide MsbValue;
    if n == 0 {
      assert MsbValue([]) == 0 by { MsbValueEmpty(); }
    } else {
      MsbRoundTrip(v / 2, n - 1);
      MsbValueSnoc(MsbBits(v / 2, n - 1), v % 2 == 1);
    }
  }

  lemma MsbValueEmpty()
    ensures MsbValue([]) == 0
  {
  }

  lemma LsbValueCons(b: bool, bits: Bits)
    ensures LsbValue([b] + bits) == BitOf(b) + 2 * LsbValue(bits)
  {
    assert ([b] + bits)[1..] == bits;
  }

  lemma {:induction false} LsbRoundTrip(v: nat, n: nat)
    requires v < Pow2(n)
    ensures LsbValue(LsbBits(v, n)) == v
  {
    if n == 0 {
    } else {
      LsbRoundTrip(v / 2, n - 1);
      LsbValueCons(v % 2 == 1, LsbBits(v / 2, n - 1));
    }
  }

  lemma {:induction false} LsbConcat(lo: nat, hi: nat, k: nat, n: nat)
    requires lo < Pow2(k)
    ensures LsbBits(lo + hi * Pow2(k), k + n) == LsbBits(lo, k) + LsbBits(hi, n)
  {
    if k == 0 {
      assert LsbBits(lo, 0) + LsbBits(hi, n) == LsbBits(hi, n);
    } else {
      var h := hi * Pow2(k - 1);
      assert hi * Pow2(k) == 2 * h;
      LsbConcat(lo / 2, hi, k - 1, n);
      assert (lo + 2 * h) / 2 == lo / 2 + h;
    }
  }

  lemma {:induction false} MsbConcat(hi: nat, lo: nat, n: nat, k: nat)
    requires lo < Pow2(k)
    ensures MsbBits(hi * Pow2(k) + lo, n + k) == MsbBits(hi, n) + MsbBits(lo, k)
  {
    if k == 0 {
      assert MsbBits(hi, n) + MsbBits(lo, 0) == MsbBits(hi, n);
    } else {
      var h := hi * Pow2(k - 1);
      assert hi * Pow2(k) == 2 * h;
      MsbConcat(hi, lo / 2, n, k - 1);
      assert (2 * h + lo) / 2 == h + lo / 2;
      assert MsbBits(hi, n) + (MsbBits(lo / 2, k - 1) + [lo % 2 == 1])
          == (MsbBits(hi, n) + MsbBits(lo / 2, k - 1)) + [lo % 2 == 1];
    }
  }

  lemma BytesToBitsSnoc(s: seq<byte>, b: byte)
    ensures BytesToBits(s + [b]) == BytesToBits(s) + LsbBits(b, 8)
  {
    assert (s + [b])[..|s|] == s;
  }

  lemma {:induction false} BytesToBitsConcat(a: seq<byte>, b: seq<byte>)
    ensures BytesToBits(a + b) == BytesToBits(a) + BytesToBits(b)
  {
    if b == [] {
      assert a + b == a;
      assert BytesToBits(a) + BytesToBits(b) == BytesToBits(a);
    } else {
      var b0, x := b[..|b| - 1], b[|b| - 1];
      BytesToBitsConcat(a, b0);
      assert (a + b)[..|a + b| - 1] == a + b0;
      ConcatAssociates(BytesToBits(a), BytesToBits(b0), LsbBits(x, 8));
    }
  }

  /** The fixed code of RFC 1951 section 3.2.6: code and code length of a symbol. */
  function FixedCode(symbol: nat): (r: (nat, nat))
    requires symbol < 288
    ensures 7 <= r.1 <= 9
  {
    if symbol < 144 then (0x30 + symbol, 8)
    else if symbol < 256 then (0x190 + symbol - 144, 9)
    else if symbol < 280 then (symbol - 256, 7)
    else (0xC0 + symbol - 280, 8)
  }

  function SymbolBits(symbol: nat): (r: Bits)
    requires symbol < 288
    ensures |r| == FixedCode(symbol).1
  {
    MsbBits(FixedCode(symbol).0, FixedCode(symbol).1)
  }

  lemma MsbSnoc(v: nat, n: nat)
    ensures MsbBits(v, n + 1) == MsbBits(v / 2, n) + [v % 2 == 1]
    ensures n == 0 ==> MsbBits(v, n + 1) == [v % 2 == 1]
  {
  }

  lemma Pow2Double(n: nat)
    ensures Pow2(n + 1) == 2 * Pow2(n)
  {
  }

  /** The first bits of a code are the code of a shorter number. */
  lemma {:induction false} MsbPrefix(v: nat, n: nat, k: nat, rest: Bits)
    requires k <= n && v < Pow2(n)
    ensures (MsbBits(v, n) + rest)[..k] == MsbBits(v / Pow2(n - k), k)
    ensures MsbValue((MsbBits(v, n) + rest)[..k]) == v / Pow2(n - k)
    decreases n
  {
    hide MsbBits, MsbValue, Pow2;
    if k == n {
      MsbRoundTrip(v, n);
      SmallPowers();
      assert (MsbBits(v, n) + rest)[..n] == MsbBits(v, n);
    } else {
      var tail := [v % 2 == 1] + rest;
      MsbSnoc(v, n - 1);
      Pow2Double(n - 1);
      Pow2Double(n - 1 - k);
      assert MsbBits(v, n) + rest == MsbBits(v / 2, n - 1) + tail;
      MsbPrefix(v / 2, n - 1, k, tail);
      HalfThenDivide(v, Pow2(n - 1 - k));
    }
  }

  /** The fixed code is a prefix code and the reader undoes it. */
  lemma ReadSymbolBits(symbol: nat, rest: Bits)
    requires symbol < 288
    ensures ReadSymbol(SymbolBits(symbol) + rest) == Some((symbol, rest))
  {
    hide MsbBits, MsbValue, Pow2;
    var (v, n) := FixedCode(symbol);
    SmallPowers();
    MsbPrefix(v, n, 7, rest);
    if n >= 8 {
      MsbPrefix(v, n, 8, rest);
    }
    if n == 9 {
      MsbPrefix(v, n, 9, rest);
    }
    assert (SymbolBits(symbol) + rest)[n..] == rest;
  }

  lemma SmallPowers()
    ensures Pow2(0) == 1 && Pow2(1) == 2 && Pow2(2) == 4 && Pow2(4) == 16
    ensures Pow2(7) == 128 && Pow2(8) == 256 && Pow2(9) == 512
  {
    assert Pow2(3) == 8 && Pow2(5) == 32 && Pow2(6) == 64;
  }

  // ----- A known stream ---------------------------------------------------

  /** The letter `a`, as every deflate compressor with fixed codes writes it. */
  lemma KnownStream()
    ensures Inflate([0x4b, 0x04, 0x00]) == Some([0x61])
  {
    hide LsbBits, MsbValue, LsbValue;
    KnownBytes();
    KnownBits();
    var bits := BytesToBits([0x4b, 0x04, 0x00]);
    assert bits == [true, true, false, true, false, false, true, false] + [false, false, true, false, false, false, false, false]
      + [false, false, false, false, false, false, false, false];
    assert bits[1..3] == [true, false] && bits[3..][..8] == [true, false, false, true, false, false, false, true];
    var rest := bits[3..][8..];
    assert rest[..7] == [false, false, false, false, false, false, false] && |rest[7..]| == 6;
    KnownValues();
    assert MsbValue(bits[3..][..7]) == 0x48 by { assert bits[3..][..7] == [true, false, false, true, false, false, false]; }
    assert ReadSymbol(bits[3..]) == Some((0x61, rest));
    assert ReadSymbol(rest) == Some((256, rest[7..]));
    assert InflateSymbols(rest, [0x61]) == Some(([0x61], rest[7..]));
    assert [] + [0x61] == [0x61];
  }

  lemma KnownBytes()
    ensures BytesToBits([0x4b, 0x04, 0x00]) == LsbBits(0x4b, 8) + LsbBits(0x04, 8) + LsbBits(0x00, 8)
  {
    hide LsbBits;
    assert [0x4b, 0x04, 0x00][..2] == [0x4b, 0x04] && [0x4b, 0x04][..1] == [0x4b];
    assert BytesToBits([0x4b]) == [] + LsbBits(0x4b, 8);
  }

  lemma KnownBits()
    ensures LsbBits(0x4b, 8) == [true, true, false, true, false, false, true, false]
    ensures LsbBits(0x04, 8) == [false, false, true, false, false, false, false, false]
    ensures LsbBits(0x00, 8) == [false, false, false, false, false, false, false, false]
  {
    hide LsbBits;
    FourBits(0x4b, 4);
    FourBits(0x4, 0);
    FourBits(0x04, 4);
    FourBits(0x0, 4);
    FourBits(0x0, 0);
    NoBits();
  }

  lemma FourBits(v: nat, n: nat)
    ensures LsbBits(v, n + 4) == [v % 2 == 1, v / 2 % 2 == 1, v / 4 % 2 == 1, v / 8 % 2 == 1] + LsbBits(v / 16, n)
  {
    assert LsbBits(v, n + 4) == [v % 2 == 1] + LsbBits(v / 2, n + 3);
    assert LsbBits(v / 2, n + 3) == [v / 2 % 2 == 1] + LsbBits(v / 2 / 2, n + 2);
    assert v / 2 / 2 == v / 4 && v / 4 / 2 == v / 8 && v / 8 / 2 == v / 16;
    assert LsbBits(v / 4, n + 2) == [v / 4 % 2 == 1] + LsbBits(v / 8, n + 1);
    assert LsbBits(v / 8, n + 1) == [v / 8 % 2 == 1] + LsbBits(v / 16, n);
  }

  lemma NoBits()
    ensures LsbBits(0, 0) == []
  {
  }

  lemma KnownValues()
    ensures LsbValue([true, false]) == 1
    ensures MsbValue([true, false, false, true, false, false, false]) == 0x48
    ensures MsbValue([true, false, false, true, false, false, false, true]) == 0x91
    ensures MsbValue([false, false, false, false, false, false, false]) == 0
  {
    assert Pow2(7) == 128 && Pow2(8) == 256;
    assert MsbBits(0x48, 7) == [true, false, false, true, false, false, false];
    assert MsbBits(0x91, 8) == [true, false, false, true, false, false, false, true];
    assert MsbBits(0, 7) == [false, false, false, false, false, false, false];
    MsbRoundTrip(0x48, 7);
    MsbRoundTrip(0x91, 8);
    MsbRoundTrip(0, 7);
  }
}
