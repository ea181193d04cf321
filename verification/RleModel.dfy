/** What `ZlibRle` computes, one input byte at a time, with the packed words of
    the class spelled out as byte sequences and its output as a bit sequence. */
module RleModel {
  import opened Words
  import opened Deflate

  /** 0 is LITERAL, 1 to 4 are REP1 to REP4: a run that repeats the last `mode` bytes. */
  type Mode = m: int | 0 <= m <= 4

  const LITERAL: Mode := 0

  const MAX_MATCH: nat := 257
  const FLUSH_AT: nat := 260

  datatype Core = Core(
    mode: Mode,
    history: seq<byte>,    // the valid part of `last_bytes_`, oldest first
    lookahead: seq<byte>,  // the valid part of `unemitted_bytes_`, oldest first
    repeated: nat,         // `bytes_repeated_`
    bits: Bits)            // everything handed to `output_bits` so far

  const START := Core(LITERAL, [], [], 0, [])

  /** BFINAL = 1, BTYPE = 01. */
  const HEADER: Bits := LsbBits(3, 3)

  const END_OF_BLOCK: Bits := LsbBits(0, 7)

  function LastN(s: seq<byte>, n: nat): (r: seq<byte>)
  {
    if n <= |s| then s[|s| - n..] else s
  }

  function Min(a: int, b: int): int { if a < b then a else b }

  // ----- Codes --------------------------------------------------------------

  /** `literal`: eight bits below 0x90, else a one followed by eight bits. */
  function LiteralBits(b: byte): (r: Bits)
    ensures 8 <= |r| <= 9
  {
    if b < 0x90 then MsbBits(0x30 + b, 8) else [true] + MsbBits(b, 8)
  }

  /** 29 - clz(r) for r in 8..255, the number of extra length bits. */
  function ExtraBitsCount(r: nat): (n: nat)
    requires 8 <= r < 256
    ensures 1 <= n <= 5
  {
    if r < 16 then 1 else if r < 32 then 2 else if r < 64 then 3 else if r < 128 then 4 else 5
  }

  function LengthCode(r: nat): (code: nat)
    requires 8 <= r < 256
    ensures 265 <= code <= 284
  {
    var n := ExtraBitsCount(r);
    261 + 4 * n + (r / Pow2(n)) % 4
  }

  /** The length part of `output_repetitions`. */
  function LengthBits(length: nat): (r: Bits)
    requires 3 <= length <= MAX_MATCH
    ensures 7 <= |r| <= 13
  {
    if length <= 10 then MsbBits(1 + length - 3, 7)
    else
      var r := length - 3;
      var n := ExtraBitsCount(r);
      var code := LengthCode(r);
      (if code < 280 then MsbBits(code - 256, 7) else MsbBits(0xC0 + code - 280, 8))
      + LsbBits(r % Pow2(n), n)
  }

  function MatchBits(length: nat, mode: Mode): (r: Bits)
    requires 3 <= length <= MAX_MATCH && mode != LITERAL
    ensures 12 <= |r| <= 18
  {
    LengthBits(length) + MsbBits(mode - 1, 5)
  }

  // ----- Flushing a run -----------------------------------------------------

  /** How much of a run one match takes: at most 257, and never so much that one
      or two bytes are left over. */
  function Portion(repeated: nat): (r: nat)
    requires repeated >= 3
    ensures 3 <= r <= MAX_MATCH && r <= repeated
    ensures repeated == r || repeated - r >= 3
  {
    var r := Min(MAX_MATCH, repeated);
    if repeated - r == 1 then r - 2 else if repeated - r == 2 then r - 1 else r
  }

  /** `output_repetitions(false)`: one match. */
  function FlushOne(c: Core): (r: Core)
    requires c.mode != LITERAL && c.repeated >= 3
  {
    var n := Portion(c.repeated);
    c.(repeated := c.repeated - n,
       bits := c.bits + MatchBits(n, c.mode),
       mode := if c.repeated == n then LITERAL else c.mode)
  }

  /** `output_repetitions(true)`: matches until nothing is pending. */
  function FlushAll(c: Core): (r: Core)
    requires c.repeated > 0 ==> c.mode != LITERAL && c.repeated >= 3
    ensures r.repeated == 0 && r.mode == LITERAL
    ensures r.history == c.history && r.lookahead == c.lookahead
    decreases c.repeated
  {
    if c.repeated == 0 then c.(mode := LITERAL) else FlushAll(FlushOne(c))
  }

  function LookaheadBits(look: seq<byte>): (r: Bits)
  {
    if look == [] then [] else LiteralBits(look[0]) + LookaheadBits(look[1..])
  }

  // ----- One input byte -----------------------------------------------------

  /** Holds between input bytes: a run is pending, or bytes are held back, never both. */
  ghost predicate WellFormed(c: Core)
  {
    && |c.history| <= 4 && |c.lookahead| <= 4
    && (c.mode == LITERAL ==> c.repeated == 0)
    && (c.mode != LITERAL ==> c.lookahead == [] && 3 <= c.repeated < FLUSH_AT && |c.history| == 4)
  }

  /** With four bytes of lookahead `u` behind the history `h`, decide whether a run
      starts here: how far back it repeats, and how many of the four bytes it
      covers (none, three or all). */
  function FindRun(h: seq<byte>, u: seq<byte>): (r: (Mode, nat))
    requires |u| == 4
    ensures r.1 in {0, 3, 4}
    ensures r.0 == LITERAL <==> r.1 == 0
    ensures r.0 <= |h|
  {
    var n := |h|;
    if n >= 1 && h[n - 1] == u[0] == u[1] == u[2] == u[3] then (1, 4)
    else if n >= 2 && h[n - 2] == u[0] == u[2] && h[n - 1] == u[1] == u[3] then (2, 4)
    else if n >= 1 && h[n - 1] == u[0] == u[1] == u[2] then (1, 3)
    else if n >= 4 && h[n - 4] == u[0] && h[n - 3] == u[1] && h[n - 2] == u[2] && h[n - 1] == u[3] then (4, 4)
    else if n >= 3 && h[n - 3] == u[0] && h[n - 2] == u[1] && h[n - 1] == u[2] then
      (3, if u[3] == u[0] then 4 else 3)
    else (LITERAL, 0)
  }

  /** The first `k` lookahead bytes become a pending run.  A short run at distance
      three does not extend the valid part of the history. */
  function StartRun(c: Core, mode: Mode, k: nat): (r: Core)
    requires k <= |c.lookahead|
  {
    c.(mode := mode, repeated := k, lookahead := c.lookahead[k..],
       history := LastN(c.history + c.lookahead[..k], if mode == 3 && k == 3 then |c.history| else 4))
  }

  /** A run of only three bytes is flushed at once. */
  function Recognize(c: Core): (r: Core)
    requires |c.lookahead| == 4 && c.mode == LITERAL && c.repeated == 0 && |c.history| <= 4
    ensures WellFormed(r)
    ensures r.mode == LITERAL ==> |r.lookahead| in {1, 4}
  {
    var (mode, k) := FindRun(c.history, c.lookahead);
    if k == 0 then c
    else if k == 3 then FlushAll(StartRun(c, mode, 3))
    else StartRun(c, mode, k)
  }

  /** Take in the byte, once the mode is decided. */
  function Absorb(c: Core, b: byte): (r: Core)
    requires WellFormed(c)
    ensures r.repeated < FLUSH_AT ==> WellFormed(r)
    ensures r.repeated >= FLUSH_AT ==>
      r.repeated == FLUSH_AT && r.mode != LITERAL && r.lookahead == [] && |r.history| == 4
  {
    if c.mode == LITERAL then
      if |c.lookahead| == 4 then
        var x := c.lookahead[0];
        c.(bits := c.bits + LiteralBits(x),
           lookahead := c.lookahead[1..] + [b],
           history := LastN(c.history + [x], 4))
      else c.(lookahead := c.lookahead + [b])
    else if b == c.history[4 - c.mode] then
      c.(repeated := c.repeated + 1, history := c.history[1..] + [b])
    else
      FlushAll(c).(lookahead := [b])
  }

  function Step(c: Core, b: byte): (r: Core)
    requires WellFormed(c)
    ensures WellFormed(r)
  {
    if c.mode == LITERAL && |c.lookahead| < 4 then
      c.(lookahead := c.lookahead + [b])
    else
      var d := Absorb(if c.mode == LITERAL then Recognize(c) else c, b);
      if d.repeated == FLUSH_AT then FlushOne(d) else d
  }

  function StepAll(c: Core, input: seq<byte>): (r: Core)
    requires WellFormed(c)
    ensures WellFormed(r)
    decreases |input|
  {
    if input == [] then c
    else Step(StepAll(c, input[..|input| - 1]), input[|input| - 1])
  }

  /** The whole stream up to `finish`, without the padding of the last byte. */
  function FinishBits(c: Core): (r: Bits)
    requires WellFormed(c)
  {
    HEADER + (FlushAll(c).bits + LookaheadBits(c.lookahead) + END_OF_BLOCK)
  }

  /** Feeding the input in pieces is feeding it whole. */
  lemma {:induction false} StepAllConcat(c: Core, a: seq<byte>, b: seq<byte>)
    requires WellFormed(c)
    ensures StepAll(c, a + b) == StepAll(StepAll(c, a), b)
    decreases |b|
  {
    if b == [] {
      assert a + b == a;
    } else {
      var b0 := b[..|b| - 1];
      StepAllConcat(c, a, b0);
      assert (a + b)[..|a + b| - 1] == a + b0;
    }
  }

  // ----- How much one step emits ----------------------------------------------

  /** Flushing at most 257 pending bytes takes one match, any run takes at most two. */
  lemma FlushAllGrowth(c: Core)
    requires 3 <= c.repeated < FLUSH_AT && c.mode != LITERAL
    ensures |c.bits| <= |FlushAll(c).bits| <= |c.bits| + 36
    ensures c.repeated <= MAX_MATCH ==> |FlushAll(c).bits| <= |c.bits| + 18
  {
    hide MatchBits;
    var d := FlushOne(c);
    assert FlushAll(c) == FlushAll(d);
    if d.repeated == 0 {
      assert FlushAll(d) == d;
    } else {
      var e := FlushOne(d);
      assert FlushAll(d) == FlushAll(e);
      assert e.repeated == 0;
      assert FlushAll(e) == e;
    }
  }

  lemma StepGrowth(c: Core, b: byte)
    requires WellFormed(c)
    ensures |c.bits| <= |Step(c, b).bits| <= |c.bits| + 72
  {
    hide FindRun, MatchBits, LastN, FlushAll, LiteralBits;
    var d := if c.mode == LITERAL && |c.lookahead| == 4 then Recognize(c) else c;
    RecognizeGrowth(c);
    AbsorbGrowth(d, b);
  }

  lemma RecognizeGrowth(c: Core)
    requires WellFormed(c)
    ensures c.mode == LITERAL && |c.lookahead| == 4 ==> |c.bits| <= |Recognize(c).bits| <= |c.bits| + 18
  {
    hide FindRun, MatchBits, LastN;
    if c.mode == LITERAL && |c.lookahead| == 4 && FindRun(c.history, c.lookahead).1 == 3 {
      FlushAllGrowth(StartRun(c, FindRun(c.history, c.lookahead).0, 3));
    }
  }

  lemma AbsorbGrowth(c: Core, b: byte)
    requires WellFormed(c)
    ensures |c.bits| <= |Absorb(c, b).bits| <= |c.bits| + 36
    ensures Absorb(c, b).repeated == FLUSH_AT ==> |Absorb(c, b).bits| == |c.bits|
  {
    hide FlushAll, LastN;
    if c.mode != LITERAL {
      FlushAllGrowth(c);
    }
  }

  lemma {:induction false} LookaheadGrowth(look: seq<byte>)
    ensures |LookaheadBits(look)| <= 9 * |look|
  {
    if look == [] {
    } else {
      LookaheadGrowth(look[1..]);
    }
  }

  /** Flushing a run and emitting held back bytes exclude each other. */
  lemma FinishGrowth(c: Core)
    requires WellFormed(c)
    ensures |FlushAll(c).bits| + |LookaheadBits(c.lookahead)| <= |c.bits| + 36
  {
    hide LookaheadBits;
    LookaheadGrowth(c.lookahead);
    if c.mode != LITERAL {
      hide FlushAll;
      FlushAllGrowth(c);
    }
  }
}
