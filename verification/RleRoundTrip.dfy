/** Inflating what the compressor emits gives back its input. */
module RleRoundTrip {
  import opened Options
  import opened Words
  import opened Deflate
  import opened RleModel

  /** Reading `bits` in the middle of a block takes the output from `from` to `to`
      and stops exactly at the end of `bits`, whatever follows. */
  ghost predicate Decodes(bits: Bits, from: seq<byte>, to: seq<byte>)
  {
    forall rest: Bits {:trigger bits + rest} :: InflateSymbols(bits + rest, from) == InflateSymbols(rest, to)
  }

  lemma DecodesThen(a: Bits, b: Bits, x: seq<byte>, y: seq<byte>, z: seq<byte>)
    requires Decodes(a, x, y) && Decodes(b, y, z)
    ensures Decodes(a + b, x, z)
  {
    forall rest: Bits
      ensures InflateSymbols((a + b) + rest, x) == InflateSymbols(rest, z)
    {
      assert (a + b) + rest == a + (b + rest);
    }
  }

  /** From position `from` on, `s` repeats what stands `d` positions earlier. */
  ghost predicate Periodic(s: seq<byte>, from: nat, d: nat)
    requires d <= from
  {
    forall i :: from <= i < |s| ==> s[i] == s[i - d]
  }

  /** The part of the input that has been emitted. */
  ghost function Emitted(c: Core, consumed: seq<byte>): seq<byte>
    requires |c.lookahead| + c.repeated <= |consumed|
  {
    consumed[..|consumed| - |c.lookahead| - c.repeated]
  }

  /** Behind the emitted input come the pending run, whose bytes repeat at distance
      `mode`, and then the lookahead.  The history is what precedes the lookahead. */
  ghost predicate Layout(c: Core, consumed: seq<byte>)
  {
    && |c.lookahead| + c.repeated <= |consumed|
    && var full := consumed[..|consumed| - |c.lookahead|];
    && c.lookahead == consumed[|full|..]
    && |c.history| <= |full|
    && c.history == full[|full| - |c.history|..]
    && (c.mode == LITERAL ==> c.repeated == 0)
    && (c.mode != LITERAL ==>
          && c.repeated >= 3
          && c.mode <= |full| - c.repeated
          && Periodic(full, |full| - c.repeated, c.mode))
  }

  /** The bits decode to the emitted input. */
  ghost predicate Meaning(c: Core, consumed: seq<byte>)
  {
    Layout(c, consumed) && Decodes(c.bits, [], Emitted(c, consumed))
  }

  // ----- Codes --------------------------------------------------------------

  lemma LiteralBitsAreSymbol(b: byte)
    ensures LiteralBits(b) == SymbolBits(b)
  {
    if b >= 0x90 {
      assert Pow2(8) == 256;
      MsbConcat(1, b, 1, 8);
    }
  }

  lemma DecodesLiteral(b: byte, out: seq<byte>)
    ensures Decodes(LiteralBits(b), out, out + [b])
  {
    LiteralBitsAreSymbol(b);
    forall rest: Bits
      ensures InflateSymbols(SymbolBits(b) + rest, out) == InflateSymbols(rest, out + [b])
    {
      ReadSymbolBits(b, rest);
    }
  }

  /** The encoder's arithmetic agrees with the tables of RFC 1951 section 3.2.5. */
  lemma LengthCodeTable(length: nat)
    requires 11 <= length <= MAX_MATCH
    ensures var r := length - 3;
      && LengthExtraBits(LengthCode(r)) == ExtraBitsCount(r)
      && LengthBase(LengthCode(r)) + r % Pow2(ExtraBitsCount(r)) == length
  {
    assert Pow2(1) == 2 && Pow2(2) == 4 && Pow2(3) == 8 && Pow2(4) == 16 && Pow2(5) == 32;
  }

  function LengthSymbol(length: nat): (symbol: nat)
    requires 3 <= length <= MAX_MATCH
    ensures 257 <= symbol <= 284
  {
    if length <= 10 then 254 + length else LengthCode(length - 3)
  }

  function LengthExtra(length: nat): (r: Bits)
    requires 3 <= length <= MAX_MATCH
  {
    if length <= 10 then []
    else LsbBits((length - 3) % Pow2(ExtraBitsCount(length - 3)), ExtraBitsCount(length - 3))
  }

  lemma LengthBitsAreSymbol(length: nat)
    requires 3 <= length <= MAX_MATCH
    ensures LengthBits(length) == SymbolBits(LengthSymbol(length)) + LengthExtra(length)
  {
  }

  lemma ShortLengths(length: nat)
    requires 3 <= length <= 10
    ensures LengthExtraBits(254 + length) == 0 && LengthBase(254 + length) == length
  {
  }

  lemma ReadLengthExtra(length: nat, rest: Bits)
    requires 3 <= length <= MAX_MATCH
    ensures ReadLength(LengthSymbol(length), LengthExtra(length) + rest) == Some((length, rest))
  {
    hide LsbBits, LengthCode, LengthExtraBits, LengthBase, Pow2, ExtraBitsCount;
    var extra := LengthExtra(length);
    if length <= 10 {
      ShortLengths(length);
      assert extra + rest == rest;
      assert rest[0..] == rest;
    } else {
      var r := length - 3;
      var n := ExtraBitsCount(r);
      LengthCodeTable(length);
      LsbRoundTrip(r % Pow2(n), n);
      assert (extra + rest)[..n] == extra;
      assert (extra + rest)[n..] == rest;
    }
  }

  lemma ReadDistanceBits(mode: Mode, rest: Bits)
    requires mode != LITERAL
    ensures ReadDistance(MsbBits(mode - 1, 5) + rest) == Some((mode as nat, rest))
  {
    hide MsbBits, MsbValue;
    var bits := MsbBits(mode - 1, 5) + rest;
    assert Pow2(5) == 32 && Pow2(0) == 1;
    MsbPrefix(mode - 1, 5, 5, rest);
    assert bits[5..] == rest;
    assert rest[0..] == rest && rest[..0] == [];
  }

  lemma MatchBitsSplit(length: nat, mode: Mode, rest: Bits)
    requires 3 <= length <= MAX_MATCH && mode != LITERAL
    ensures MatchBits(length, mode) + rest
         == SymbolBits(LengthSymbol(length)) + (LengthExtra(length) + (MsbBits(mode - 1, 5) + rest))
  {
    hide SymbolBits, LengthExtra, MsbBits, LengthBits;
    LengthBitsAreSymbol(length);
    var a, b, c := SymbolBits(LengthSymbol(length)), LengthExtra(length), MsbBits(mode - 1, 5);
    ConcatAssociates(a + b, c, rest);
    ConcatAssociates(a, b, c + rest);
  }

  lemma InflateMatch(length: nat, mode: Mode, out: seq<byte>, rest: Bits)
    requires 3 <= length <= MAX_MATCH && 1 <= mode <= |out|
    ensures InflateSymbols(MatchBits(length, mode) + rest, out) == InflateSymbols(rest, Copy(out, length, mode))
  {
    hide InflateSymbols, MatchBits, SymbolBits, LengthExtra, MsbBits, ReadSymbol, ReadLength, ReadDistance, Copy;
    var bits := MatchBits(length, mode) + rest;
    var tail := MsbBits(mode - 1, 5) + rest;
    var symbol, extra := LengthSymbol(length), LengthExtra(length) + tail;
    MatchBitsSplit(length, mode, rest);
    ReadSymbolBits(symbol, extra);
    ReadLengthExtra(length, tail);
    ReadDistanceBits(mode, rest);
    InflateSymbolsMatch(bits, out, symbol, extra, length, tail, mode, rest);
  }

  lemma InflateSymbolsMatch(bits: Bits, out: seq<byte>, symbol: nat, a: Bits, length: nat, b: Bits, distance: nat, c: Bits)
    requires ReadSymbol(bits) == Some((symbol, a)) && symbol > 256
    requires ReadLength(symbol, a) == Some((length, b))
    requires ReadDistance(b) == Some((distance, c)) && 1 <= distance <= |out|
    ensures InflateSymbols(bits, out) == InflateSymbols(c, Copy(out, length, distance))
  {
  }

  lemma DecodesMatch(length: nat, mode: Mode, out: seq<byte>)
    requires 3 <= length <= MAX_MATCH && 1 <= mode <= |out|
    ensures Decodes(MatchBits(length, mode), out, Copy(out, length, mode))
  {
    hide InflateSymbols, MatchBits, Copy;
    forall rest: Bits
      ensures InflateSymbols(MatchBits(length, mode) + rest, out) == InflateSymbols(rest, Copy(out, length, mode))
    {
      InflateMatch(length, mode, out, rest);
    }
  }

  lemma {:induction false} CopyPeriodic(s: seq<byte>, m: nat, k: nat, d: nat)
    requires 1 <= d <= m && m + k <= |s|
    requires Periodic(s, m, d)
    ensures Copy(s[..m], k, d) == s[..m + k]
    decreases k
  {
    if k == 0 {
    } else {
      assert s[..m] + [s[m - d]] == s[..m + 1];
      CopyPeriodic(s, m + 1, k - 1, d);
    }
  }

  // ----- Flushing -----------------------------------------------------------

  /** A match of `n` bytes turns the first `n` pending bytes into emitted ones. */
  lemma DecodesPortion(c: Core, consumed: seq<byte>, n: nat)
    requires Layout(c, consumed) && c.mode != LITERAL
    requires 3 <= n <= MAX_MATCH && n <= c.repeated
    ensures Decodes(MatchBits(n, c.mode), Emitted(c, consumed), Emitted(c.(repeated := c.repeated - n), consumed))
  {
    hide Decodes, Copy, Periodic, MatchBits;
    var full := consumed[..|consumed| - |c.lookahead|];
    var m := |full| - c.repeated;
    CopyPeriodic(full, m, n, c.mode);
    assert full[..m] == Emitted(c, consumed);
    assert full[..m + n] == Emitted(c.(repeated := c.repeated - n), consumed);
    DecodesMatch(n, c.mode, Emitted(c, consumed));
  }

  lemma FlushOneLayout(c: Core, consumed: seq<byte>)
    requires Layout(c, consumed) && c.mode != LITERAL
    ensures Layout(FlushOne(c), consumed)
  {
    hide MatchBits, Periodic;
    var full := consumed[..|consumed| - |c.lookahead|];
    PeriodicLater(full, |full| - c.repeated, |full| - FlushOne(c).repeated, c.mode);
  }

  lemma PeriodicLater(s: seq<byte>, from: nat, later: nat, d: nat)
    requires d <= from <= later && Periodic(s, from, d)
    ensures Periodic(s, later, d)
  {
  }

  lemma FlushOneMeaning(c: Core, consumed: seq<byte>)
    requires Meaning(c, consumed) && c.mode != LITERAL
    ensures Meaning(FlushOne(c), consumed)
  {
    hide Decodes, MatchBits;
    var n := Portion(c.repeated);
    FlushOneLayout(c, consumed);
    DecodesPortion(c, consumed, n);
    DecodesThen(c.bits, MatchBits(n, c.mode), [], Emitted(c, consumed), Emitted(FlushOne(c), consumed));
  }

  lemma {:induction false} FlushAllMeaning(c: Core, consumed: seq<byte>)
    requires Meaning(c, consumed)
    ensures Meaning(FlushAll(c), consumed)
    decreases c.repeated
  {
    hide Decodes, MatchBits, Periodic;
    if c.repeated == 0 {
    } else {
      FlushOneMeaning(c, consumed);
      FlushAllMeaning(FlushOne(c), consumed);
    }
  }

  lemma {:induction false} DecodesLookahead(look: seq<byte>, out: seq<byte>)
    ensures Decodes(LookaheadBits(look), out, out + look)
    decreases |look|
  {
    hide Decodes, LiteralBits;
    if look == [] {
      DecodesNothing(out);
      assert out + look == out;
    } else {
      DecodesLiteral(look[0], out);
      DecodesLookahead(look[1..], out + [look[0]]);
      DecodesThen(LiteralBits(look[0]), LookaheadBits(look[1..]), out, out + [look[0]], (out + [look[0]]) + look[1..]);
      assert (out + [look[0]]) + look[1..] == out + look;
    }
  }

  lemma DecodesNothing(out: seq<byte>)
    ensures Decodes([], out, out)
  {
    forall rest: Bits
      ensures InflateSymbols([] + rest, out) == InflateSymbols(rest, out)
    {
      assert [] + rest == rest;
    }
  }

  // ----- One input byte -----------------------------------------------------

  lemma FindRunIsPeriodic(h: seq<byte>, u: seq<byte>)
    requires |u| == 4
    ensures var (mode, k) := FindRun(h, u); Periodic((h + u)[..|h| + k], |h|, mode)
  {
  }

  lemma StartRunLayout(c: Core, consumed: seq<byte>, mode: Mode, k: nat)
    requires Layout(c, consumed) && c.mode == LITERAL && mode != LITERAL
    requires 3 <= k <= |c.lookahead|
    requires mode <= |c.history| <= 4
    requires Periodic((c.history + c.lookahead)[..|c.history| + k], |c.history|, mode)
    ensures Layout(StartRun(c, mode, k), consumed)
    ensures Emitted(StartRun(c, mode, k), consumed) == Emitted(c, consumed)
  {
    hide Decodes, Periodic;
    var d := StartRun(c, mode, k);
    var m, h := |consumed| - |c.lookahead|, |c.history|;
    var part := (c.history + c.lookahead)[..h + k];
    var full := consumed[..m + k];
    assert part == full[m - h..];
    PeriodicShift(full, m - h, h, mode);
    assert c.history + c.lookahead[..k] == part;
  }

  lemma PeriodicShift(s: seq<byte>, offset: nat, from: nat, d: nat)
    requires offset <= |s| && d <= from && Periodic(s[offset..], from, d)
    ensures Periodic(s, offset + from, d)
  {
    forall i | offset + from <= i < |s|
      ensures s[i] == s[i - d]
    {
      assert s[i] == s[offset..][i - offset];
      assert s[i - d] == s[offset..][i - offset - d];
    }
  }

  lemma RecognizeMeaning(c: Core, consumed: seq<byte>)
    requires Meaning(c, consumed) && WellFormed(c) && c.mode == LITERAL && |c.lookahead| == 4
    ensures Meaning(Recognize(c), consumed)
  {
    hide Decodes, Periodic, FindRun, FlushAll, LastN;
    var (mode, k) := FindRun(c.history, c.lookahead);
    FindRunIsPeriodic(c.history, c.lookahead);
    if k > 0 {
      StartRunLayout(c, consumed, mode, k);
    }
    if k == 3 {
      FlushAllMeaning(StartRun(c, mode, 3), consumed);
    }
  }

  lemma AbsorbMeaning(c: Core, consumed: seq<byte>, b: byte)
    requires Meaning(c, consumed) && WellFormed(c)
    ensures Meaning(Absorb(c, b), consumed + [b])
  {
    hide Decodes, Periodic, FlushAll, LiteralBits, LastN, Layout;
    if c.mode == LITERAL && |c.lookahead| == 4 {
      EmitOldest(c, consumed, b);
    } else if c.mode == LITERAL {
      AppendLookahead(c, consumed, b);
    } else if b == c.history[4 - c.mode] {
      ExtendRun(c, consumed, b);
    } else {
      FlushAllMeaning(c, consumed);
      AppendLookahead(FlushAll(c), consumed, b);
      assert FlushAll(c).lookahead == [] && [] + [b] == [b];
    }
  }

  lemma EmitOldest(c: Core, consumed: seq<byte>, b: byte)
    requires Meaning(c, consumed) && WellFormed(c) && c.mode == LITERAL && |c.lookahead| == 4
    ensures Meaning(Absorb(c, b), consumed + [b])
  {
    hide Decodes, Periodic, FlushAll, LiteralBits;
    var d, after := Absorb(c, b), consumed + [b];
    var out, x := Emitted(c, consumed), c.lookahead[0];
    DecodesLiteral(x, out);
    DecodesThen(c.bits, LiteralBits(x), [], out, out + [x]);
    assert Emitted(d, after) == out + [x];
    assert d.history == (out + [x])[|out| + 1 - |d.history|..];
    assert d.lookahead == after[|out| + 1..];
  }

  lemma ExtendRun(c: Core, consumed: seq<byte>, b: byte)
    requires Meaning(c, consumed) && WellFormed(c) && c.mode != LITERAL && b == c.history[4 - c.mode]
    ensures Meaning(Absorb(c, b), consumed + [b])
  {
    hide Decodes, Periodic, FlushAll, LiteralBits, LastN;
    var d, after := Absorb(c, b), consumed + [b];
    assert consumed[..|consumed|] == consumed && after[..|after|] == after;
    assert b == consumed[|consumed| - c.mode];
    assert Emitted(d, after) == Emitted(c, consumed);
    assert d.history == after[|after| - 4..];
    assert Periodic(after, |after| - d.repeated, c.mode) by {
      PeriodicExtend(consumed, |consumed| - c.repeated, c.mode, b);
    }
  }

  lemma PeriodicExtend(s: seq<byte>, from: nat, d: nat, b: byte)
    requires 1 <= d <= from <= |s| && Periodic(s, from, d) && b == s[|s| - d]
    ensures Periodic(s + [b], from, d)
  {
  }

  lemma AppendLookahead(c: Core, consumed: seq<byte>, b: byte)
    requires Meaning(c, consumed) && c.mode == LITERAL
    ensures Meaning(c.(lookahead := c.lookahead + [b]), consumed + [b])
  {
    hide Decodes, Periodic;
    var d, after := c.(lookahead := c.lookahead + [b]), consumed + [b];
    assert Emitted(d, after) == Emitted(c, consumed);
    assert after[..|after| - |d.lookahead|] == consumed[..|consumed| - |c.lookahead|];
    assert d.lookahead == after[|after| - |d.lookahead|..];
  }

  lemma StepMeaning(c: Core, consumed: seq<byte>, b: byte)
    requires Meaning(c, consumed) && WellFormed(c)
    ensures Meaning(Step(c, b), consumed + [b])
  {
    hide Meaning, Recognize, Absorb, FlushOne;
    if c.mode == LITERAL && |c.lookahead| < 4 {
      AppendLookahead(c, consumed, b);
    } else {
      if c.mode == LITERAL {
        RecognizeMeaning(c, consumed);
      }
      var d := if c.mode == LITERAL then Recognize(c) else c;
      AbsorbMeaning(d, consumed, b);
      if Absorb(d, b).repeated == FLUSH_AT {
        FlushOneMeaning(Absorb(d, b), consumed + [b]);
      }
    }
  }

  // ----- Whole runs ---------------------------------------------------------

  /** The loop invariant of `add`, after any number of bytes. */
  lemma {:induction false} StepAllMeaning(input: seq<byte>)
    ensures Meaning(StepAll(START, input), input)
    decreases |input|
  {
    hide Meaning, Step;
    if input == [] {
      StartMeaning();
    } else {
      var a := input[..|input| - 1];
      StepAllMeaning(a);
      StepMeaning(StepAll(START, a), a, input[|input| - 1]);
      assert a + [input[|input| - 1]] == input;
    }
  }

  lemma StartMeaning()
    ensures Meaning(START, [])
  {
    hide Decodes;
    DecodesNothing([]);
  }

  /** Flushing everything emits the whole input. */
  lemma FlushDecodes(input: seq<byte>)
    ensures var c := StepAll(START, input);
      Decodes(FlushAll(c).bits + LookaheadBits(c.lookahead), [], input)
  {
    hide Decodes, Periodic, FlushAll, LookaheadBits, StepAll;
    StepAllMeaning(input);
    var c := StepAll(START, input);
    FlushAllMeaning(c, input);
    var f := FlushAll(c);
    var out := Emitted(f, input);
    DecodesLookahead(c.lookahead, out);
    assert out + c.lookahead == input;
    DecodesThen(f.bits, LookaheadBits(c.lookahead), [], out, input);
  }

  lemma EndOfBlock(rest: Bits, out: seq<byte>)
    ensures InflateSymbols(END_OF_BLOCK + rest, out) == Some((out, rest))
  {
    assert END_OF_BLOCK == SymbolBits(256) == [false, false, false, false, false, false, false];
    ReadSymbolBits(256, rest);
  }

  lemma DropHeader(header: Bits, body: Bits, end: Bits, padding: Bits)
    ensures ((header + (body + end)) + padding)[|header|..] == body + (end + padding)
  {
  }

  /** The block decodes to the input and ends where `finish` ends it. */
  lemma FinishDecodes(input: seq<byte>, padding: Bits)
    ensures InflateSymbols((FinishBits(StepAll(START, input)) + padding)[3..], []) == Some((input, padding))
  {
    hide InflateSymbols, FlushAll, LookaheadBits, StepAll;
    FlushDecodes(input);
    var c := StepAll(START, input);
    var body := FlushAll(c).bits + LookaheadBits(c.lookahead);
    DropHeader(HEADER, body, END_OF_BLOCK, padding);
    EndOfBlock(padding, input);
  }

  /** Any byte string that is the finished bits plus less than a byte of padding
      inflates to exactly the input. */
  lemma RoundTrip(input: seq<byte>, bytes: seq<byte>, padding: Bits)
    requires BytesToBits(bytes) == FinishBits(StepAll(START, input)) + padding
    requires |padding| < 8
    ensures Inflate(bytes) == Some(input)
  {
    hide InflateSymbols, FlushAll, LookaheadBits, StepAll, LsbValue, BytesToBits;
    FinishDecodes(input, padding);
    HeaderBits(FinishBits(StepAll(START, input)) + padding);
  }

  lemma HeaderBits(bits: Bits)
    requires HEADER <= bits
    ensures bits[0] && LsbValue(bits[1..3]) == 1
  {
    assert HEADER == [true, true, false];
    assert bits[0] == HEADER[0] && bits[1] == HEADER[1] && bits[2] == HEADER[2];
    assert bits[1..3] == [true, false];
    assert [true, false][1..] == [false];
    assert [false][1..] == [];
  }
}
