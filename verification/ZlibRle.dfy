/** The streaming compressor itself: packed 32-bit words, a bit packer, and an
    output buffer that the caller replaces between calls. */
module ZlibRle {
  import opened Options
  import opened Words
  import opened Deflate
  import opened Packing
  import opened RleModel
  import opened RleRoundTrip
  import opened RleSize

  const HEADROOM: nat := 16
  const FINISH_ROOM: nat := 7

  function Reversed5(mode: Mode): nat
    requires mode != LITERAL
  {
    match mode
    case 1 => 0
    case 2 => 16
    case 3 => 8
    case _ => 24
  }

  /** The distance code of a mode, already reversed. */
  lemma Reversed5Bits(mode: Mode)
    requires mode != LITERAL
    ensures Reversed5(mode) < Pow2(5)
    ensures LsbBits(Reversed5(mode), 5) == MsbBits(mode - 1, 5)
  {
    hide LsbBits, MsbBits;
    var code, reversed := mode - 1, Reversed5(mode) / 8;
    assert Pow2(2) == 4 && Pow2(3) == 8 && Pow2(5) == 32;
    LsbConcat(0, reversed, 3, 2);
    MsbConcat(0, code, 3, 2);
    ZeroBits();
    TwoBits(code, reversed);
  }

  lemma ZeroBits()
    ensures LsbBits(0, 3) == MsbBits(0, 3)
  {
  }

  lemma TwoBits(code: nat, reversed: nat)
    requires code < 4 && reversed == (code % 2) * 2 + code / 2
    ensures LsbBits(reversed, 2) == MsbBits(code, 2)
  {
    assert LsbBits(reversed, 2) == [reversed % 2 == 1, reversed / 2 == 1];
    assert MsbBits(code, 2) == [code / 2 == 1, code % 2 == 1];
  }

  /** The chain of comparisons in `add` on packed words is the search for a run. */
  lemma FindRunPacked(l: nat, n: nat, u: nat)
    requires l < U32 && u < U32 && n <= 4
    ensures FindRun(Tail(l, n), Tail(u, 4)) ==
      if n >= 1 && l % 256 == u % 256 && l % 256 == Shr(u, 8) % 256 && Shr(u, 16) == u % 0x1_0000 then (1, 4)
      else if n >= 2 && l % 0x1_0000 == u % 0x1_0000 && Shr(u, 16) == u % 0x1_0000 then (2, 4)
      else if n >= 1 && l % 256 == Shr(u, 8) % 256 && l % 256 == Shr(u, 16) % 256 && l % 256 == Shr(u, 24) % 256 then (1, 3)
      else if n >= 4 && l == u then (4, 4)
      else if n >= 3 && l % 0x100_0000 == Shr(u, 8) then
        if u % 256 == Shr(l, 16) % 256 then (3, 4) else (3, 3)
      else (LITERAL, 0)
  {
    PackedComparisons(l, u);
    PackedBytes(l);
    PackedBytes(u);
    FindRunBytes(l, n, u);
  }

  lemma PackedBytes(x: nat)
    ensures x % 256 == Bytes4(x)[3] && Shr(x, 8) % 256 == Bytes4(x)[2]
    ensures Shr(x, 16) % 256 == Bytes4(x)[1] && Shr(x, 24) % 256 == Bytes4(x)[0]
    ensures Shr(x, 8) == x / 0x100 && Shr(x, 16) == x / 0x1_0000
  {
    ByteAt(x, 1);
    ByteAt(x, 2);
    ByteAt(x, 3);
    PowersUsed();
  }

  lemma FindRunBytes(l: nat, n: nat, u: nat)
    requires n <= 4
    ensures var h, w := Bytes4(l), Bytes4(u);
      FindRun(Tail(l, n), w) ==
      if n >= 1 && h[3] == w[3] && h[3] == w[2] && w[0] == w[2] && w[1] == w[3] then (1, 4)
      else if n >= 2 && h[2] == w[2] && h[3] == w[3] && w[0] == w[2] && w[1] == w[3] then (2, 4)
      else if n >= 1 && h[3] == w[2] && h[3] == w[1] && h[3] == w[0] then (1, 3)
      else if n >= 4 && h == w then (4, 4)
      else if n >= 3 && h[1] == w[0] && h[2] == w[1] && h[3] == w[2] then
        if w[3] == h[1] then (3, 4) else (3, 3)
      else (LITERAL, 0)
  {
    hide Bytes4;
    var h, w, t := Bytes4(l), Bytes4(u), Tail(l, n);
    assert n >= 1 ==> t[n - 1] == h[3];
    assert n >= 2 ==> t[n - 2] == h[2];
    assert n >= 3 ==> t[n - 3] == h[1];
    assert n >= 4 ==> t[n - 4] == h[0];
    assert h == [h[0], h[1], h[2], h[3]] && w == [w[0], w[1], w[2], w[3]];
  }

  class ZlibRle {
    var partial: nat
    var partialBits: int
    var initialized: bool

    var output: array<byte>
    var outputIndex: nat
    var outputLimit: nat

    var mode: Mode
    var lastBytes: nat
    var lastBytesValid: nat
    var unemittedBytes: nat
    var unemittedBytesValid: nat
    var bytesRepeated: nat

    ghost var stream: seq<byte>  // every byte handed to `OutputByte`
    ghost var bits: Bits         // every bit handed to `OutputBits`
    ghost var bufferFrom: nat    // where the current buffer was entered ...
    ghost var streamFrom: nat    // ... and how long the stream was then

    /** The current buffer holds the part of the stream produced since it was set,
        as far as there was room for it. */
    ghost predicate Stored()
      reads `output, `outputIndex, `outputLimit, `bufferFrom, `stream, `streamFrom, output
      ensures Stored() ==> bufferFrom <= output.Length
    {
      && bufferFrom <= outputIndex <= outputLimit <= output.Length
      && streamFrom <= |stream|
      && outputIndex - bufferFrom == Min(outputLimit - bufferFrom, |stream| - streamFrom)
      && output[bufferFrom..outputIndex] == stream[streamFrom..streamFrom + (outputIndex - bufferFrom)]
    }

    ghost function Preamble(): Bits
      reads `initialized
    {
      if initialized then HEADER else []
    }

    /** Whole bytes have left the packer, less than a byte waits in `partial`. */
    ghost predicate Packed()
      reads `partial, `partialBits, `initialized, `stream, `bits
    {
      && 0 <= partialBits < 8 && partial < Pow2(partialBits)
      && BytesToBits(stream) + LsbBits(partial, partialBits) == Preamble() + bits
    }

    ghost predicate Words()
      reads `lastBytes, `lastBytesValid, `unemittedBytes, `unemittedBytesValid
    {
      lastBytes < U32 && unemittedBytes < U32 && lastBytesValid <= 4 && unemittedBytesValid <= 4
    }

    /** The state in the terms of the model. */
    ghost function View(): Core
      requires Words()
      reads `mode, `bytesRepeated, `lastBytes, `lastBytesValid, `unemittedBytes, `unemittedBytesValid, `bits
    {
      Core(mode, Tail(lastBytes, lastBytesValid), Tail(unemittedBytes, unemittedBytesValid), bytesRepeated, bits)
    }

    /** A run is pending, or bytes are held back, never both. */
    ghost predicate Balanced()
      reads `mode, `bytesRepeated, `lastBytesValid, `unemittedBytesValid
    {
      && (mode == LITERAL ==> bytesRepeated == 0)
      && (mode != LITERAL ==> unemittedBytesValid == 0 && 3 <= bytesRepeated < FLUSH_AT && lastBytesValid == 4)
    }

    /** Before the first call of `Add`. */
    ghost predicate Untouched()
      reads `partial, `partialBits, `stream, `bits, `mode, `bytesRepeated, `lastBytesValid, `unemittedBytesValid
    {
      && |stream| == 0 && |bits| == 0 && partial == 0 && partialBits == 0
      && mode == LITERAL && lastBytesValid == 0 && unemittedBytesValid == 0 && bytesRepeated == 0
    }

    ghost predicate Valid()
      reads this, output
    {
      Stored() && Packed() && Words() && Balanced() && (!initialized ==> Untouched())
    }

    constructor ()
      ensures Valid() && !initialized && fresh(output)
    {
      hide Stored, Packed;
      partial, partialBits, initialized := 0, 0, false;
      output, outputIndex, outputLimit := new byte[0], 0, 0;
      mode, lastBytes, lastBytesValid, unemittedBytes, unemittedBytesValid := LITERAL, 0, 0, 0, 0;
      bytesRepeated := 0;
      stream, bits, bufferFrom, streamFrom := [], [], 0, 0;
      new;
      NothingYet();
    }

    lemma NothingYet()
      requires partial == 0 && partialBits == 0 && !initialized && bits == []
      requires outputIndex == 0 && outputLimit == 0 && bufferFrom == 0 && stream == [] && streamFrom == 0
      ensures Stored() && Packed()
    {
      hide LsbBits, BytesToBits, Pow2;
      EmptyPacker();
    }

    method SetOutputBuffer(buffer: array<byte>, index: nat, limit: nat)
      requires Valid()
      requires index <= limit <= buffer.Length
      modifies `output, `outputIndex, `outputLimit, `bufferFrom, `streamFrom
      ensures Valid() && View() == old(View())
      ensures output == buffer && outputIndex == bufferFrom == index && outputLimit == limit
      ensures streamFrom == |stream|
    {
      hide Packed, Words, Balanced, Untouched, View;
      output, outputIndex, outputLimit := buffer, index, limit;
      bufferFrom, streamFrom := index, |stream|;
    }

    method OutputByte(b: byte)
      requires Stored()
      modifies `outputIndex, `stream, output
      ensures Stored() && stream == old(stream) + [b]
      ensures output[..bufferFrom] == old(output[..bufferFrom]) && old(stream) <= stream
    {
      if outputIndex != outputLimit {
        output[outputIndex] := b;
        outputIndex := outputIndex + 1;
      }
      stream := stream + [b];
    }

    method OutputBits(v: nat, n: nat)
      requires Stored() && Packed()
      requires n <= 24 && v < Pow2(n)
      modifies `partial, `partialBits, `bits, `outputIndex, `stream, output
      ensures Stored() && Packed() && bits == old(bits) + LsbBits(v, n)
      ensures output[..bufferFrom] == old(output[..bufferFrom]) && old(stream) <= stream
    {
      hide Pow2, LsbBits, BytesToBits, BitOr, Shl32;
      AppendPartial(partial, partialBits, v, n);
      ConcatAssociates(BytesToBits(stream), LsbBits(partial, partialBits), LsbBits(v, n));
      ConcatAssociates(Preamble(), bits, LsbBits(v, n));
      partial := BitOr(partial, Shl32(v, partialBits));
      partialBits := partialBits + n;
      bits := bits + LsbBits(v, n);
      OutputWholeBytes();
    }

    /** The loop of `output_bits`. */
    method OutputWholeBytes()
      requires Stored()
      requires 0 <= partialBits && partial < Pow2(partialBits)
      requires BytesToBits(stream) + LsbBits(partial, partialBits) == Preamble() + bits
      modifies `partial, `partialBits, `outputIndex, `stream, output
      ensures Stored() && Packed()
      ensures output[..bufferFrom] == old(output[..bufferFrom]) && old(stream) <= stream
    {
      hide Pow2, LsbBits, BytesToBits, Stored;
      while partialBits >= 8
        invariant 0 <= partialBits && partial < Pow2(partialBits)
        invariant BytesToBits(stream) + LsbBits(partial, partialBits) == Preamble() + bits
        invariant Stored()
        invariant output[..bufferFrom] == old(output[..bufferFrom]) && old(stream) <= stream
      {
        SplitPartial(stream, partial, partialBits);
        OutputByte(partial % 256);
        partialBits := partialBits - 8;
        partial := partial / 256;
      }
    }

    method Literal(b: byte)
      requires Stored() && Packed()
      modifies `partial, `partialBits, `bits, `outputIndex, `stream, output
      ensures Stored() && Packed() && bits == old(bits) + LiteralBits(b)
      ensures output[..bufferFrom] == old(output[..bufferFrom]) && old(stream) <= stream
    {
      PowersUsed();
      if b < 0x90 {
        Reverse8Bits(0x30 + b);
        OutputBits(Reverse8(0x30 + b), 8);
      } else {
        assert Pow2(1) == 2;
        OutputBits(1, 1);
        Reverse8Bits(b);
        OutputBits(Reverse8(0x90 + b - 0x90), 8);
        ConcatAssociates(old(bits), LsbBits(1, 1), MsbBits(b, 8));
        assert LsbBits(1, 1) == [true];
      }
    }

    method OutputUnemitted()
      requires Stored() && Packed() && Words()
      modifies `unemittedBytesValid, `partial, `partialBits, `bits, `outputIndex, `stream, output
      ensures Stored() && Packed() && Words() && unemittedBytesValid == 0
      ensures bits == old(bits) + LookaheadBits(old(View()).lookahead)
      ensures output[..bufferFrom] == old(output[..bufferFrom]) && old(stream) <= stream
    {
      hide Packed, Stored, LiteralBits, Bytes4;
      ghost var look := Tail(unemittedBytes, unemittedBytesValid);
      ghost var all := bits + LookaheadBits(look);
      while unemittedBytesValid != 0
        invariant Stored() && Packed() && Words()
        invariant bits + LookaheadBits(Tail(unemittedBytes, unemittedBytesValid)) == all
        invariant output[..bufferFrom] == old(output[..bufferFrom]) && old(stream) <= stream
      {
        ghost var rest := Tail(unemittedBytes, unemittedBytesValid);
        unemittedBytesValid := unemittedBytesValid - 1;
        var b := Shr(unemittedBytes, 8 * unemittedBytesValid) % 256;
        ByteAt(unemittedBytes, unemittedBytesValid);
        ghost var before := bits;
        Literal(b);
        assert rest[1..] == Tail(unemittedBytes, unemittedBytesValid);
        ConcatAssociates(before, LiteralBits(b), LookaheadBits(rest[1..]));
      }
      assert bits + [] == bits;
    }

    /** The length and distance codes of one match. */
    method OutputMatch(length: nat)
      requires Stored() && Packed()
      requires 3 <= length <= MAX_MATCH && mode != LITERAL
      modifies `partial, `partialBits, `bits, `outputIndex, `stream, output
      ensures Stored() && Packed() && bits == old(bits) + MatchBits(length, mode)
      ensures output[..bufferFrom] == old(output[..bufferFrom]) && old(stream) <= stream
    {
      hide Packed, Stored, Reversed5, LsbBits, MsbBits, LengthBits, Pow2;
      OutputLength(length);
      Reversed5Bits(mode);
      OutputBits(Reversed5(mode), 5);
      ConcatAssociates(old(bits), LengthBits(length), MsbBits(mode - 1, 5));
    }

    method OutputLength(length: nat)
      requires Stored() && Packed()
      requires 3 <= length <= MAX_MATCH
      modifies `partial, `partialBits, `bits, `outputIndex, `stream, output
      ensures Stored() && Packed() && bits == old(bits) + LengthBits(length)
      ensures output[..bufferFrom] == old(output[..bufferFrom]) && old(stream) <= stream
    {
      hide Packed, Stored, LsbBits, MsbBits, Reverse7, Reverse8, Pow2;
      PowersUsed();
      Pow2At7();
      if length <= 10 {
        Reverse7Bits(1 + length - 3);
        OutputBits(Reverse7(1 + length - 3), 7);
      } else {
        var r := length - 3;
        var extraBitsCount := ExtraBitsCount(r);
        var extraBits := r % Pow2(extraBitsCount);
        var twoBits := Shr(r, extraBitsCount) % 4;
        var code := 261 + 4 * extraBitsCount + twoBits;
        assert code == LengthCode(r);
        ghost var huffman;
        if code < 280 {
          Reverse7Bits(code - 256);
          OutputBits(Reverse7(code - 256), 7);
          huffman := MsbBits(code - 256, 7);
        } else {
          Reverse8Bits(0xC0 + code - 280);
          OutputBits(Reverse8(0xC0 + code - 280), 8);
          huffman := MsbBits(0xC0 + code - 280, 8);
        }
        OutputBits(extraBits, extraBitsCount);
        ConcatAssociates(old(bits), huffman, LsbBits(extraBits, extraBitsCount));
      }
    }

    /** Split off what the next match takes, avoiding a rest of one or two bytes. */
    method TakePortion() returns (r: nat)
      requires bytesRepeated >= 3
      modifies `bytesRepeated
      ensures r == Portion(old(bytesRepeated))
      ensures bytesRepeated == old(bytesRepeated) - r
    {
      r := Min(MAX_MATCH, bytesRepeated);
      bytesRepeated := bytesRepeated - r;
      while bytesRepeated != 0 && bytesRepeated < 3 && r > 3
        invariant r + bytesRepeated == old(bytesRepeated)
        invariant Portion(old(bytesRepeated)) <= r <= MAX_MATCH
        invariant r == Portion(old(bytesRepeated)) || old(bytesRepeated) - Portion(old(bytesRepeated)) == 3
        invariant bytesRepeated != 0 ==> r >= 255
        decreases r
      {
        r := r - 1;
        bytesRepeated := bytesRepeated + 1;
      }
    }

    method OutputRepetitions(asMuchAsPossible: bool)
      requires Stored() && Packed() && Words()
      requires bytesRepeated > 0 ==> mode != LITERAL && bytesRepeated >= 3
      modifies `mode, `bytesRepeated, `partial, `partialBits, `bits, `outputIndex, `stream, output
      ensures Stored() && Packed()
      ensures View() == if asMuchAsPossible || old(bytesRepeated) == 0 then FlushAll(old(View())) else FlushOne(old(View()))
      ensures output[..bufferFrom] == old(output[..bufferFrom]) && old(stream) <= stream
    {
      hide Packed, Stored, Words, Tail, MatchBits, Portion;
      ghost var start := View();
      while bytesRepeated > 0
        invariant Stored() && Packed() && Words()
        invariant mode == old(mode)
        invariant bytesRepeated > 0 ==> bytesRepeated >= 3
        invariant FlushAll(View()) == FlushAll(start)
        invariant !asMuchAsPossible ==> View() == start
        invariant output[..bufferFrom] == old(output[..bufferFrom]) && old(stream) <= stream
        decreases bytesRepeated
      {
        ghost var c := View();
        var r := TakePortion();
        OutputMatch(r);
        if !asMuchAsPossible {
          break;
        }
      }
      if bytesRepeated == 0 {
        mode := LITERAL;
      }
    }

    /** With four bytes of lookahead, look for the start of a run. */
    method Recognize()
      requires Stored() && Packed() && Words()
      requires mode == LITERAL && bytesRepeated == 0 && unemittedBytesValid == 4
      modifies `mode, `bytesRepeated, `lastBytes, `lastBytesValid, `unemittedBytes, `unemittedBytesValid,
               `partial, `partialBits, `bits, `outputIndex, `stream, output
      ensures Stored() && Packed() && Words()
      ensures View() == RleModel.Recognize(old(View()))
      ensures output[..bufferFrom] == old(output[..bufferFrom]) && old(stream) <= stream
    {
      hide Packed, Stored, Bytes4, Tail, FindRun, Shr, FlushAll, StartRun;
      FindRunPacked(lastBytes, lastBytesValid, unemittedBytes);
      if lastBytesValid >= 1 && lastBytes % 256 == unemittedBytes % 256
         && lastBytes % 256 == Shr(unemittedBytes, 8) % 256
         && Shr(unemittedBytes, 16) == unemittedBytes % 0x1_0000 {
        StartFullRun(1);
      } else if lastBytesValid >= 2 && lastBytes % 0x1_0000 == unemittedBytes % 0x1_0000
         && Shr(unemittedBytes, 16) == unemittedBytes % 0x1_0000 {
        StartFullRun(2);
      } else if lastBytesValid >= 1 && lastBytes % 256 == Shr(unemittedBytes, 8) % 256
         && lastBytes % 256 == Shr(unemittedBytes, 16) % 256
         && lastBytes % 256 == Shr(unemittedBytes, 24) % 256 {
        StartShortRun(1, 4);
        OutputRepetitions(true);
      } else if lastBytesValid >= 4 && lastBytes == unemittedBytes {
        StartFullRun(4);
      } else if lastBytesValid >= 3 && lastBytes % 0x100_0000 == Shr(unemittedBytes, 8) {
        if unemittedBytes % 256 == Shr(lastBytes, 16) % 256 {
          StartFullRun(3);
        } else {
          StartShortRun(3, lastBytesValid);
          OutputRepetitions(true);
        }
      }
    }

    /** All four bytes held back become a pending run. */
    method StartFullRun(distance: Mode)
      requires Words() && unemittedBytesValid == 4 && distance != LITERAL
      modifies `mode, `bytesRepeated, `lastBytes, `lastBytesValid, `unemittedBytes, `unemittedBytesValid
      ensures Words() && View() == StartRun(old(View()), distance, 4)
    {
      hide Bytes4;
      RunOfFour(View().history, View().lookahead);
      mode, bytesRepeated := distance, 4;
      lastBytes, lastBytesValid := unemittedBytes, 4;
      unemittedBytes, unemittedBytesValid := 0, 0;
    }

    /** Three of the four bytes held back become a pending run. */
    method StartShortRun(distance: Mode, valid: nat)
      requires Words() && unemittedBytesValid == 4 && 1 <= lastBytesValid
      requires (distance == 1 && valid == 4) || (distance == 3 && valid == lastBytesValid)
      modifies `mode, `bytesRepeated, `lastBytes, `lastBytesValid, `unemittedBytes, `unemittedBytesValid
      ensures Words() && View() == StartRun(old(View()), distance, 3)
      ensures bytesRepeated == 3 && mode == distance
    {
      hide Bytes4, PushThree;
      mode, bytesRepeated := distance, 3;
      PushThreeTail(lastBytes, lastBytesValid, unemittedBytes, valid);
      LowByteTail(unemittedBytes);
      assert Tail(unemittedBytes, 4) == Bytes4(unemittedBytes);
      lastBytes, lastBytesValid := PushThree(lastBytes, unemittedBytes), valid;
      unemittedBytes, unemittedBytesValid := unemittedBytes % 256, 1;
    }

    /** Take in one byte once the mode is decided. */
    method Absorb(b: byte)
      requires Stored() && Packed() && Words() && Balanced()
      modifies `mode, `bytesRepeated, `lastBytes, `lastBytesValid, `unemittedBytes, `unemittedBytesValid,
               `partial, `partialBits, `bits, `outputIndex, `stream, output
      ensures Stored() && Packed() && Words()
      ensures View() == RleModel.Absorb(old(View()), b)
      ensures output[..bufferFrom] == old(output[..bufferFrom]) && old(stream) <= stream
    {
      hide Packed, Stored, Tail, Shr, FlushAll, LiteralBits, LastN;
      if mode == LITERAL {
        if unemittedBytesValid == 4 {
          EmitOldest();
        }
        HoldBack(b);
      } else {
        var shift := 8 * (mode - 1);
        TailAt(lastBytes, mode - 1);
        if b == Shr(lastBytes, shift) % 256 {
          ExtendRun(b);
        } else {
          OutputRepetitions(true);
          unemittedBytesValid := 1;
          unemittedBytes := b;
          SingleByte(b);
        }
      }
    }

    /** The oldest byte held back leaves as a literal. */
    method EmitOldest()
      requires Stored() && Packed() && Words() && unemittedBytesValid == 4
      modifies `lastBytes, `lastBytesValid, `unemittedBytesValid, `partial, `partialBits, `bits, `outputIndex, `stream, output
      ensures Stored() && Packed() && Words() && unemittedBytesValid == 3
      ensures View() == (var c := old(View());
                         c.(bits := c.bits + LiteralBits(c.lookahead[0]),
                            lookahead := c.lookahead[1..],
                            history := LastN(c.history + [c.lookahead[0]], 4)))
      ensures output[..bufferFrom] == old(output[..bufferFrom]) && old(stream) <= stream
    {
      hide Packed, Stored, Tail, PushByte, Shr, LiteralBits;
      var toEmit := Shr(unemittedBytes, 24) % 256;
      TailAt(unemittedBytes, 3);
      PushByteTail(lastBytes, lastBytesValid, toEmit);
      Literal(toEmit);
      lastBytes := PushByte(lastBytes, toEmit);
      if lastBytesValid < 4 {
        lastBytesValid := lastBytesValid + 1;
      }
      unemittedBytesValid := 3;
    }

    method HoldBack(b: byte)
      requires Words() && unemittedBytesValid < 4
      modifies `unemittedBytes, `unemittedBytesValid
      ensures Words() && View() == old(View()).(lookahead := old(View()).lookahead + [b])
    {
      hide Tail, PushByte;
      PushByteTail(unemittedBytes, unemittedBytesValid, b);
      unemittedBytes := PushByte(unemittedBytes, b);
      unemittedBytesValid := unemittedBytesValid + 1;
    }

    method ExtendRun(b: byte)
      requires Words() && lastBytesValid == 4
      modifies `bytesRepeated, `lastBytes
      ensures Words() && View() == (var c := old(View());
                                    c.(repeated := c.repeated + 1, history := c.history[1..] + [b]))
    {
      hide Tail, PushByte;
      PushByteTail(lastBytes, lastBytesValid, b);
      bytesRepeated := bytesRepeated + 1;  // The history is full during a run.
      lastBytes := PushByte(lastBytes, b);
    }

    /** Nothing was dropped since the current buffer was set. */
    ghost predicate Complete()
      reads `outputIndex, `bufferFrom, `stream, `streamFrom
    {
      outputIndex - bufferFrom == |stream| - streamFrom
    }

    /** The block header waits in the packer from the first call of `Add` on. */
    method Initialize()
      requires Valid() && !initialized
      modifies `initialized, `partial, `partialBits
      ensures Valid() && initialized && View() == old(View())
    {
      hide Stored, Words, Balanced, View;
      partial := 3;
      partialBits := 3;
      initialized := true;
      assert BytesToBits(stream) == [] && bits == [];
      assert Pow2(3) == 8;
    }

    /** One round of the loop of `add`. */
    method AddByte(b: byte)
      requires Valid() && initialized
      modifies `mode, `bytesRepeated, `lastBytes, `lastBytesValid, `unemittedBytes, `unemittedBytesValid,
               `partial, `partialBits, `bits, `outputIndex, `stream, output
      ensures Valid()
      ensures View() == Step(old(View()), b)
      ensures output[..bufferFrom] == old(output[..bufferFrom]) && old(stream) <= stream
    {
      hide Packed, Stored, Tail, RleModel.Recognize, RleModel.Absorb, FlushOne;
      if mode == LITERAL && unemittedBytesValid < 4 {
        HoldBack(b);
        return;
      }
      if mode == LITERAL {
        Recognize();
      }
      Absorb(b);
      if bytesRepeated == FLUSH_AT {
        OutputRepetitions(false);
      }
      assert View() == Step(old(View()), b);
    }

    lemma StreamLength()
      requires Packed()
      ensures 8 * |stream| + partialBits == |Preamble()| + |bits| && 0 <= partialBits < 8
    {
      assert |BytesToBits(stream) + LsbBits(partial, partialBits)| == |Preamble() + bits|;
    }

    /** With sixteen free bytes of output, one input byte drops nothing. */
    method AddByteWithRoom(b: byte)
      requires Valid() && initialized && Complete()
      requires outputLimit - outputIndex >= HEADROOM
      modifies `mode, `bytesRepeated, `lastBytes, `lastBytesValid, `unemittedBytes, `unemittedBytesValid,
               `partial, `partialBits, `bits, `outputIndex, `stream, output
      ensures Valid() && Complete()
      ensures View() == Step(old(View()), b)
      ensures output[..bufferFrom] == old(output[..bufferFrom]) && old(stream) <= stream
    {
      hide Step, Tail, Words, Balanced, LsbBits, BytesToBits, Pow2;
      StreamLength();
      ViewWellFormed();
      StepGrowth(View(), b);
      AddByte(b);
      StreamLength();
    }

    lemma ViewWellFormed()
      requires Words() && Balanced()
      ensures WellFormed(View())
    {
      hide Tail;
    }

    /** Compresses a prefix of `contents`, as much as the output buffer is sure to
        have room for, and returns its length. */
    method Add(contents: seq<byte>) returns (count: nat)
      requires Valid() && Complete()
      modifies `initialized, `mode, `bytesRepeated, `lastBytes, `lastBytesValid, `unemittedBytes, `unemittedBytesValid,
               `partial, `partialBits, `bits, `outputIndex, `stream, output
      ensures Valid() && Complete() && initialized
      ensures count <= |contents|
      ensures View() == StepAll(old(View()), contents[..count])
      ensures count < |contents| ==> outputLimit - outputIndex < HEADROOM
      ensures contents != [] && outputLimit - old(outputIndex) >= HEADROOM ==> count > 0
      ensures output[..bufferFrom] == old(output[..bufferFrom]) && old(stream) <= stream
    {
      hide Packed, Stored, Words, Balanced, Untouched, View, Step;
      ViewWellFormed();
      if !initialized {
        Initialize();
      }
      var i := 0;
      while i < |contents|
        invariant Valid() && Complete() && initialized
        invariant 0 <= i <= |contents|
        invariant i == 0 ==> outputIndex == old(outputIndex)
        invariant WellFormed(old(View())) && View() == StepAll(old(View()), contents[..i])
        invariant output[..bufferFrom] == old(output[..bufferFrom]) && old(stream) <= stream
      {
        if outputLimit - outputIndex < HEADROOM {
          return i;
        }
        AddByteWithRoom(contents[i]);
        assert contents[..i + 1][..i] == contents[..i];
        i := i + 1;
      }
      assert contents[..|contents|] == contents;
      return |contents|;
    }

    /** Ends the stream: flush what is pending, end the block, pad the last byte. */
    method Finish() returns (ghost padding: Bits)
      requires Valid()
      modifies `mode, `bytesRepeated, `unemittedBytesValid,
               `partial, `partialBits, `bits, `outputIndex, `stream, output
      ensures Stored()
      ensures Zeros(padding) && BytesToBits(stream) == FinalBits(old(initialized), old(View())) + padding
      ensures |stream| <= |old(stream)| + FINISH_ROOM
      ensures output[..bufferFrom] == old(output[..bufferFrom]) && old(stream) <= stream
    {
      hide Tail, Words, Balanced, Stored, Packed, FlushAll, LookaheadBits, LsbBits, BytesToBits, Pow2;
      ViewWellFormed();
      StreamLength();
      FinishGrowth(View());
      OutputRepetitions(true);
      OutputUnemitted();
      EndOfBlockCode();
      OutputBits(0, 7);
      padding := PadLastByte();
    }

    method PadLastByte() returns (ghost padding: Bits)
      requires Stored() && Packed()
      modifies `partial, `partialBits, `outputIndex, `stream, output
      ensures Stored()
      ensures Zeros(padding) && BytesToBits(stream) == (Preamble() + bits) + padding
      ensures output[..bufferFrom] == old(output[..bufferFrom]) && old(stream) <= stream
    {
      hide Stored, LsbBits, BytesToBits, Pow2;
      EmptyPacker();
      padding := [];
      assert BytesToBits(stream) + LsbBits(partial, 0) == BytesToBits(stream);
      while partialBits > 0
        invariant partialBits < 8 && Stored()
        invariant partialBits > 0 ==> Packed() && padding == []
        invariant partialBits <= 0 ==> Zeros(padding) && BytesToBits(stream) == (Preamble() + bits) + padding
        invariant output[..bufferFrom] == old(output[..bufferFrom]) && old(stream) <= stream
      {
        padding := LsbBits(0, 8 - partialBits);
        ByteOfPartial(stream, partial, partialBits);
        OutputByte(partial % 256);
        partialBits := partialBits - 8;
        partial := partial / 256;
      }
    }
  }

  /** Everything put out by the end of `Finish`, before padding.  Without a call of
      `Add` the block header is missing. */
  ghost function FinalBits(initialized: bool, c: Core): Bits
    requires WellFormed(c)
  {
    if initialized then FinishBits(c) else FlushAll(c).bits + LookaheadBits(c.lookahead) + END_OF_BLOCK
  }

  /** The padding of the last byte. */
  ghost predicate Zeros(padding: Bits)
  {
    |padding| < 8 && padding == LsbBits(0, |padding|)
  }

  /** `bytes` is what comes out for `input`, however it was cut into chunks. */
  ghost predicate IsCompressed(bytes: seq<byte>, input: seq<byte>)
  {
    exists padding :: Zeros(padding) && BytesToBits(bytes) == FinishBits(StepAll(START, input)) + padding
  }

  lemma {:induction false} BytesToBitsInjective(a: seq<byte>, b: seq<byte>)
    requires BytesToBits(a) == BytesToBits(b)
    ensures a == b
  {
    assert 8 * |a| == 8 * |b|;
    if a == [] {
    } else {
      var n := |a| - 1;
      hide LsbBits;
      assert BytesToBits(a)[..8 * n] == BytesToBits(a[..n]) && BytesToBits(a)[8 * n..] == LsbBits(a[n], 8);
      assert BytesToBits(b)[..8 * n] == BytesToBits(b[..n]) && BytesToBits(b)[8 * n..] == LsbBits(b[n], 8);
      BytesToBitsInjective(a[..n], b[..n]);
      PowersUsed();
      LsbRoundTrip(a[n], 8);
      LsbRoundTrip(b[n], 8);
      assert a == a[..n] + [a[n]] && b == b[..n] + [b[n]];
    }
  }

  /** At most nine bits for a byte; and in any stretch that repeats itself every one to four bytes
      only eighteen for 257 of them. */
  ghost predicate Saves(bytes: seq<byte>, input: seq<byte>)
  {
    && 8 * |bytes| <= 9 * |input| + 17
    && (Repeats(input, 0, 1) ==> 8 * |bytes| <= 18 * (|input| / 257) + 62)
    && forall from: nat, to: nat, period :: from <= to <= |input| && 1 <= period <= 4 && Repeats(input[..to], from, period) ==>
      8 * |bytes| <= 9 * (from + |input| - to) + 18 * ((to - from) / 257) + 251
  }

  lemma CompressedSaves(bytes: seq<byte>, input: seq<byte>)
    requires IsCompressed(bytes, input)
    ensures Saves(bytes, input)
  {
    hide StepAll, BytesToBits, LsbBits, FinishBits, Repeats;
    var bits := FinishBits(StepAll(START, input));
    var padding :| Zeros(padding) && BytesToBits(bytes) == bits + padding;
    assert 8 * |bytes| == |bits| + |padding|;
    NeverLonger(input);
    if Repeats(input, 0, 1) { EqualIsShort(input); }
    forall from: nat, to: nat, period | from <= to <= |input| && 1 <= period <= 4 && Repeats(input[..to], from, period)
      ensures 8 * |bytes| <= 9 * (from + |input| - to) + 18 * ((to - from) / 257) + 251
    {
      RepeatsAreShort(input, from, to, period);
    }
  }

  /** The output does not depend on how input and output were chunked. */
  lemma CompressedUnique(a: seq<byte>, b: seq<byte>, input: seq<byte>)
    requires IsCompressed(a, input) && IsCompressed(b, input)
    ensures a == b
  {
    hide StepAll, BytesToBits, LsbBits, FinishBits;
    var bits := FinishBits(StepAll(START, input));
    var p :| Zeros(p) && BytesToBits(a) == bits + p;
    var q :| Zeros(q) && BytesToBits(b) == bits + q;
    assert 8 * |a| == |bits| + |p| && 8 * |b| == |bits| + |q|;
    BytesToBitsInjective(a, b);
  }

  lemma EndOfBlockCode()
    ensures 0 < Pow2(7) && LsbBits(0, 7) == END_OF_BLOCK
  {
  }

  /** The last, partly filled byte. */
  lemma ByteOfPartial(stream: seq<byte>, partial: nat, n: nat)
    requires 0 < n < 8 && partial < Pow2(n)
    ensures partial % 256 == partial
    ensures BytesToBits(stream + [partial % 256]) == (BytesToBits(stream) + LsbBits(partial, n)) + LsbBits(0, 8 - n)
  {
    hide Pow2, LsbBits, BytesToBits;
    Pow2Monotone(n, 8);
    PowersUsed();
    LsbConcat(partial, 0, n, 8 - n);
    BytesToBitsSnoc(stream, partial);
    ConcatAssociates(BytesToBits(stream), LsbBits(partial, n), LsbBits(0, 8 - n));
  }

  lemma TailAt(x: nat, k: nat)
    requires k < 4
    ensures Shr(x, 8 * k) % 256 == Tail(x, 4)[3 - k]
    ensures Tail(x, 3) == Tail(x, 4)[1..]
  {
    ByteAt(x, k);
  }

  lemma SingleByte(b: byte)
    ensures Tail(b, 1) == [b]
  {
  }

  lemma RunOfFour(h: seq<byte>, u: seq<byte>)
    requires |u| == 4
    ensures LastN(h + u[..4], 4) == u
    ensures u[4..] == []
  {
  }

  lemma EmptyPacker()
    ensures Pow2(0) == 1 && BytesToBits([]) == [] && LsbBits(0, 0) == []
  {
  }

  // ----- The bit packer -------------------------------------------------------

  lemma AppendPartial(partial: nat, k: nat, v: nat, n: nat)
    requires k < 8 && n <= 24 && partial < Pow2(k) && v < Pow2(n)
    ensures var p := BitOr(partial, Shl32(v, k));
      p < Pow2(k + n) && LsbBits(p, k + n) == LsbBits(partial, k) + LsbBits(v, n)
  {
    hide Pow2, LsbBits, BitOr;
    BelowPow2(v, n, k);
    BitOrDisjoint(partial, v, k);
    LsbConcat(partial, v, k, n);
  }

  lemma BelowPow2(v: nat, n: nat, k: nat)
    requires k < 8 && n <= 24 && v < Pow2(n)
    ensures v * Pow2(k) + Pow2(k) <= Pow2(n + k)
    ensures Shl32(v, k) == v * Pow2(k)
  {
    hide Pow2;
    Pow2Add(n, k);
    var a, b := Pow2(n), Pow2(k);
    assert (v + 1) * b <= a * b;
    Pow2Monotone(n + k, 31);
    PowersUsed();
    Pow2At31();
  }

  lemma Pow2At7()
    ensures Pow2(7) == 128
  {
  }

  lemma Pow2At31()
    ensures Pow2(31) == 0x8000_0000
  {
    PowersUsed();
    Pow2Add(24, 7);
    assert Pow2(7) == 128;
  }

  lemma SplitPartial(stream: seq<byte>, partial: nat, n: nat)
    requires n >= 8 && partial < Pow2(n)
    ensures partial / 256 < Pow2(n - 8)
    ensures BytesToBits(stream + [partial % 256]) + LsbBits(partial / 256, n - 8)
         == BytesToBits(stream) + LsbBits(partial, n)
  {
    hide Pow2, LsbBits, BytesToBits;
    PowersUsed();
    Pow2Add(8, n - 8);
    LsbConcat(partial % 256, partial / 256, 8, n - 8);
    BytesToBitsSnoc(stream, partial % 256);
    ConcatAssociates(BytesToBits(stream), LsbBits(partial % 256, 8), LsbBits(partial / 256, n - 8));
  }

  // ----- Users of the compressor ----------------------------------------------

  const BUFFER_SIZE: nat := 256
  const FLUSH_THRESHOLD: nat := 192
  const MAX_CHUNK: nat := 0x7000

  /** One call of `Add`, on a part of the input for which the result can be reported. */
  method AddChunk(rle: ZlibRle, destination: array<byte>, index: nat, data: seq<byte>, from: nat, to: nat)
    returns (read: nat, written: nat)
    requires rle.Valid()
    requires index < Min(MAX_CHUNK, destination.Length)
    requires from <= to <= |data|
    modifies rle, destination
    ensures rle.Valid() && rle.initialized && rle.output == destination
    ensures read <= Min(to - from, MAX_CHUNK) && index + written <= Min(MAX_CHUNK, destination.Length)
    ensures rle.View() == StepAll(old(rle.View()), data[from..from + read])
    ensures rle.stream == old(rle.stream) + destination[index..index + written]
    ensures destination[..index] == old(destination[..index])
    ensures from < to && Min(MAX_CHUNK, destination.Length) - index >= HEADROOM ==> read > 0
  {
    hide ZlibRle.Packed, ZlibRle.Words, ZlibRle.Balanced, ZlibRle.Untouched, ZlibRle.View, StepAll;
    var destinationLength := Min(MAX_CHUNK, destination.Length);
    var end := Min(to, from + MAX_CHUNK);
    rle.SetOutputBuffer(destination, index, destinationLength);
    read := rle.Add(data[from..end]);
    TakePart(data, from, end, read);
    written := rle.outputIndex - index;
  }

  lemma TakePart(data: seq<byte>, from: nat, end: nat, count: nat)
    requires from <= end <= |data| && count <= end - from
    ensures data[from..end][..count] == data[from..from + count]
  {
  }

  /** The result of `rle_add`, in one number, and its parts as the library reads them. */
  function Report(read: nat, written: nat): nat
  {
    BitOr(read, written * 0x8000)
  }

  function ReadPart(report: nat): nat { report % 0x8000 }

  function WrittenPart(report: nat): nat { report / 0x8000 }

  lemma ReportRoundTrip(read: nat, written: nat)
    requires read < 0x8000
    ensures ReadPart(Report(read, written)) == read && WrittenPart(Report(read, written)) == written
  {
    hide BitOr, Pow2;
    PowersUsed();
    Pow2Add(8, 7);
    Pow2At7();
    BitOrDisjoint(read, written, 15);
  }

  /** The `rle_add` primitive. */
  method RleAdd(rle: ZlibRle, destination: array<byte>, index: int, data: seq<byte>, from: int, to: int)
    returns (report: Option<nat>)
    requires rle.Valid()
    modifies rle, destination
    ensures report.Some? <==> 0 <= from <= to <= |data| && 0 <= index < Min(MAX_CHUNK, destination.Length)
    ensures report.None? ==> unchanged(rle) && unchanged(destination)
    ensures report.Some? ==>
      var read, written := ReadPart(report.value), WrittenPart(report.value);
      && rle.Valid() && rle.initialized
      && read <= to - from && index + written <= destination.Length
      && rle.View() == StepAll(old(rle.View()), data[from..from + read])
      && rle.stream == old(rle.stream) + destination[index..index + written]
      && destination[..index] == old(destination[..index])
      && (from < to && Min(MAX_CHUNK, destination.Length) - index >= HEADROOM ==> read > 0)
  {
    hide ZlibRle.Valid, ZlibRle.View, StepAll, Report, ReadPart, WrittenPart;
    if from < 0 || to > |data| || from > to {
      return None;
    }
    if index < 0 || index >= Min(MAX_CHUNK, destination.Length) {
      return None;
    }
    var read, written := AddChunk(rle, destination, index, data, from, to);
    ReportRoundTrip(read, written);
    return Some(Report(read, written));
  }

  /** The `rle_finish` primitive.  What does not fit into the buffer is lost, which never
      happens with seven free bytes. */
  method RleFinish(rle: ZlibRle, destination: array<byte>, index: int) returns (written: Option<nat>, ghost padding: Bits)
    requires rle.Valid()
    modifies rle, destination
    ensures written.Some? <==> 0 <= index < Min(MAX_CHUNK, destination.Length)
    ensures written.None? ==> unchanged(rle) && unchanged(destination)
    ensures written.Some? ==>
      && index + written.value <= destination.Length && old(rle.stream) <= rle.stream
      && Zeros(padding) && BytesToBits(rle.stream) == FinalBits(old(rle.initialized), old(rle.View())) + padding
      && old(rle.stream) + destination[index..index + written.value] <= rle.stream
      && destination[..index] == old(destination[..index])
      && written.value == Min(Min(MAX_CHUNK, destination.Length) - index, |rle.stream| - |old(rle.stream)|)
    ensures index + FINISH_ROOM <= Min(MAX_CHUNK, destination.Length) && written.Some? ==>
      rle.stream == old(rle.stream) + destination[index..index + written.value]
  {
    hide ZlibRle.Packed, ZlibRle.Words, ZlibRle.Balanced, ZlibRle.Untouched, ZlibRle.View, FinalBits, BytesToBits;
    if index < 0 || index >= Min(MAX_CHUNK, destination.Length) {
      padding := [];
      return None, padding;
    }
    padding := FinishInto(rle, destination, index);
    written := Some(rle.outputIndex - index);
    TakeStored(old(rle.stream), rle.stream, destination[index..index + written.value]);
  }

  method FinishInto(rle: ZlibRle, destination: array<byte>, index: nat) returns (ghost padding: Bits)
    requires rle.Valid() && index < Min(MAX_CHUNK, destination.Length)
    modifies rle, destination
    ensures rle.output == destination && index <= rle.outputIndex <= destination.Length && old(rle.stream) <= rle.stream
    ensures Zeros(padding) && BytesToBits(rle.stream) == FinalBits(old(rle.initialized), old(rle.View())) + padding
    ensures rle.outputIndex - index == Min(Min(MAX_CHUNK, destination.Length) - index, |rle.stream| - |old(rle.stream)|)
    ensures |rle.stream| <= |old(rle.stream)| + FINISH_ROOM
    ensures destination[index..rle.outputIndex] == rle.stream[|old(rle.stream)|..][..rle.outputIndex - index]
    ensures destination[..index] == old(destination[..index])
  {
    hide ZlibRle.Packed, ZlibRle.Words, ZlibRle.Balanced, ZlibRle.Untouched, ZlibRle.View, FinalBits, BytesToBits;
    rle.SetOutputBuffer(destination, index, Min(MAX_CHUNK, destination.Length));
    padding := rle.Finish();
    assert rle.stream[|old(rle.stream)|..][..rle.outputIndex - index]
        == rle.stream[|old(rle.stream)|..|old(rle.stream)| + (rle.outputIndex - index)];
  }

  lemma TakeStored(before: seq<byte>, after: seq<byte>, stored: seq<byte>)
    requires before <= after && |stored| <= |after| - |before| && stored == after[|before|..][..|stored|]
    ensures before + stored <= after
    ensures |stored| == |after| - |before| ==> before + stored == after
  {
    assert before + after[|before|..] == after;
    assert before + stored == after[..|before| + |stored|];
  }

  /** Without a call of `add` there is no block header: the stream is a single zero
      byte, which announces a stored block that is not the last one. */
  lemma MissingHeader(bytes: seq<byte>, padding: Bits)
    requires BytesToBits(bytes) == FinalBits(false, START) + padding && |padding| < 8
    ensures bytes != [] && !BytesToBits(bytes)[0]
    ensures Inflate(bytes) == None
  {
    assert FinalBits(false, START) == END_OF_BLOCK by {
      assert [] + [] + END_OF_BLOCK == END_OF_BLOCK;
    }
    assert END_OF_BLOCK[0] == false;
    assert BytesToBits(bytes)[0] == END_OF_BLOCK[0];
  }

  /** A whole compressing writer, as `RunLengthDeflateEncoder_` drives the primitives:
      a 256-byte buffer that is sent on when three quarters full. */
  class Encoder {
    var rle: ZlibRle
    var buffer: array<byte>
    var fullness: nat
    var sent: seq<byte>
    ghost var written: seq<byte>

    ghost predicate Valid()
      reads this, rle, rle.output, buffer
    {
      && buffer.Length == BUFFER_SIZE && fullness <= BUFFER_SIZE
      && rle.Valid()
      && (rle.initialized <==> written != [])
      && rle.View() == StepAll(START, written)
      && rle.stream == sent + buffer[..fullness]
    }

    constructor ()
      ensures Valid() && sent == [] && written == []
      ensures fresh(rle) && fresh(buffer)
    {
      hide ZlibRle.Packed, ZlibRle.Words, ZlibRle.Balanced, ZlibRle.Stored;
      rle := new ZlibRle();
      buffer := new byte[BUFFER_SIZE];
      fullness, sent, written := 0, [], [];
    }

    /** Send the buffer on if it is getting full. */
    method MakeRoom()
      requires Valid()
      modifies `sent, `fullness
      ensures Valid() && fullness <= FLUSH_THRESHOLD
    {
      hide ZlibRle.Valid, ZlibRle.View, StepAll;
      if fullness > FLUSH_THRESHOLD {
        assert sent + buffer[..fullness] + buffer[..0] == sent + buffer[..fullness];
        sent := sent + buffer[..fullness];
        fullness := 0;
      }
    }

    /** One round of the loop of `write`. */
    method WriteSome(collection: seq<byte>, start: nat) returns (read: nat)
      requires Valid() && start < |collection|
      modifies this, rle, buffer
      ensures Valid() && rle == old(rle) && buffer == old(buffer)
      ensures 0 < read <= |collection| - start
      ensures written == old(written) + collection[start..start + read]
    {
      hide ZlibRle.Valid, ZlibRle.View, StepAll, ReadPart, WrittenPart;
      MakeRoom();
      ghost var before := buffer[..fullness];
      var report := RleAdd(rle, buffer, fullness, collection, start, |collection|);
      var count := WrittenPart(report.value);
      read := ReadPart(report.value);
      StepAllConcat(START, written, collection[start..start + read]);
      written := written + collection[start..start + read];
      assert buffer[..fullness + count] == before + buffer[fullness..fullness + count];
      ConcatAssociates(sent, before, buffer[fullness..fullness + count]);
      fullness := fullness + count;
    }

    method Write(collection: seq<byte>)
      requires Valid()
      modifies this, rle, buffer
      ensures Valid() && rle == old(rle) && buffer == old(buffer)
      ensures written == old(written) + collection
    {
      hide Valid;
      var start := 0;
      while start != |collection|
        invariant 0 <= start <= |collection|
        invariant Valid() && rle == old(rle) && buffer == old(buffer)
        invariant written == old(written) + collection[..start]
        decreases |collection| - start
      {
        var read := WriteSome(collection, start);
        assert collection[..start + read] == collection[..start] + collection[start..start + read];
        start := start + read;
      }
      assert collection[..|collection|] == collection;
    }

    /** Ends the stream.  It inflates to exactly what was written, unless nothing was:
        then `add` was never called and the stream is not one a decoder accepts. */
    method Close()
      requires Valid()
      modifies this, rle, buffer
      ensures written == old(written)
      ensures written != [] ==> IsCompressed(sent, written) && Inflate(sent) == Some(written) && Saves(sent, written)
      ensures written == [] ==> Inflate(sent) == None
    {
      hide ZlibRle.Valid, ZlibRle.View, StepAll, BytesToBits, Inflate, FinishBits, Saves;
      sent := sent + buffer[..fullness];
      var count, padding := RleFinish(rle, buffer, 0);
      sent := sent + buffer[..count.value];
      if written != [] {
        RoundTrip(written, sent, padding);
        CompressedSaves(sent, written);
      } else {
        assert StepAll(START, []) == START by { StepAllEmpty(); }
        MissingHeader(sent, padding);
      }
    }
  }

  // ----- Any pieces, any buffers ----------------------------------------------------

  /** A call of `rle_add`: the data, and the output buffer with the index to start at. */
  datatype Call = Call(data: seq<byte>, room: nat, index: nat)

  predicate InRange(room: nat, index: nat)
  {
    index < Min(MAX_CHUNK, room)
  }

  /** What calls that read so much of their data have taken in. */
  ghost function Taken(calls: seq<Call>, counts: seq<nat>): (r: seq<byte>)
    requires |counts| == |calls| && forall k :: 0 <= k < |calls| ==> counts[k] <= |calls[k].data|
  {
    if calls == [] then []
    else var n := |calls| - 1; Taken(calls[..n], counts[..n]) + calls[n].data[..counts[n]]
  }

  /** Any calls of `rle_add` and one of `rle_finish`, each with its own buffer: the parts of the
      buffers that were written, one behind the other, are the compressed form of what was read.
      If the last buffer is too small, they are as much of it as fits. */
  method Compress(calls: seq<Call>, room: nat, index: nat) returns (sent: seq<byte>, counts: seq<nat>, ghost whole: seq<byte>)
    requires calls != [] && InRange(room, index) && forall k :: 0 <= k < |calls| ==> InRange(calls[k].room, calls[k].index)
    ensures |counts| == |calls| && forall k :: 0 <= k < |calls| ==> counts[k] <= |calls[k].data|
    ensures IsCompressed(whole, Taken(calls, counts)) && Inflate(whole) == Some(Taken(calls, counts)) && sent <= whole
    ensures Saves(whole, Taken(calls, counts))
    ensures Min(MAX_CHUNK, room) - index >= FINISH_ROOM ==> sent == whole
  {
    hide ZlibRle.Packed, ZlibRle.Words, ZlibRle.Balanced, ZlibRle.Untouched, ZlibRle.Stored, ZlibRle.View, StepAll, BytesToBits, Inflate, FinishBits, Taken, Saves;
    var rle := new ZlibRle();
    sent, counts := [], [];
    StartView(rle);
    TakenNone();
    assert calls[..0] == [];
    for k := 0 to |calls|
      invariant |counts| == k && forall j :: 0 <= j < k ==> counts[j] <= |calls[j].data|
      invariant rle.Valid() && rle.View() == StepAll(START, Taken(calls[..k], counts)) && rle.stream == sent
      invariant rle.initialized <==> k > 0
      invariant fresh(rle)
    {
      var read, out := CompressSome(rle, calls[k], Taken(calls[..k], counts));
      TakenMore(calls, counts, k, read);
      sent, counts := sent + out, counts + [read];
    }
    assert calls[..|calls|] == calls;
    var buffer := new byte[room];
    var written, padding := RleFinish(rle, buffer, index);
    whole := rle.stream;
    sent := sent + buffer[index..index + written.value];
    RoundTrip(Taken(calls, counts), whole, padding);
    CompressedSaves(whole, Taken(calls, counts));
  }

  method CompressSome(rle: ZlibRle, call: Call, ghost input: seq<byte>) returns (read: nat, out: seq<byte>)
    requires rle.Valid() && rle.View() == StepAll(START, input) && InRange(call.room, call.index)
    modifies rle
    ensures rle.Valid() && rle.initialized
    ensures read <= |call.data| && rle.View() == StepAll(START, input + call.data[..read])
    ensures rle.stream == old(rle.stream) + out
  {
    hide ZlibRle.Valid, ZlibRle.View, StepAll, ReadPart, WrittenPart;
    var buffer := new byte[call.room];
    var report := RleAdd(rle, buffer, call.index, call.data, 0, |call.data|);
    read := ReadPart(report.value);
    StepAllConcat(START, input, call.data[..read]);
    out := buffer[call.index..call.index + WrittenPart(report.value)];
  }

  lemma StartView(rle: ZlibRle)
    requires rle.Valid() && !rle.initialized
    ensures rle.stream == [] && rle.View() == START == StepAll(START, [])
  {
    hide ZlibRle.Packed, ZlibRle.Stored;
  }

  lemma TakenNone()
    ensures Taken([], []) == []
  {
  }

  lemma TakenMore(calls: seq<Call>, counts: seq<nat>, k: nat, read: nat)
    requires k == |counts| < |calls| && read <= |calls[k].data|
    requires forall j :: 0 <= j < k ==> counts[j] <= |calls[j].data|
    ensures Taken(calls[..k + 1], counts + [read]) == Taken(calls[..k], counts) + calls[k].data[..read]
  {
    assert calls[..k + 1][..k] == calls[..k] && (counts + [read])[..k] == counts;
  }

  lemma StepAllEmpty()
    ensures StepAll(START, []) == START
  {
  }
}
