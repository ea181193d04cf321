/** How much the compressor saves: it never spends more than nine bits on a byte, and on a
    stretch that repeats itself every one to four bytes it spends eighteen bits on 257 of
    them. */
module RleSize {
  import opened Words
  import opened Deflate
  import opened RleModel

  // ----- No byte costs more than nine bits ---------------------------------------------------

  /** What has been emitted, and what is at most still to be emitted for pending bytes. */
  ghost function Owed(c: Core): nat
  {
    |c.bits| + 9 * |c.lookahead| + Min(36, 9 * c.repeated)
  }

  lemma FlushAllCost(c: Core)
    requires WellFormed(c)
    ensures |FlushAll(c).bits| <= |c.bits| + Min(36, 9 * c.repeated)
  {
    if c.mode == LITERAL {
    } else {
      hide FlushAll;
      FlushAllGrowth(c);
    }
  }

  lemma RecognizeCost(c: Core)
    requires WellFormed(c) && c.mode == LITERAL && |c.lookahead| == 4
    ensures Owed(Recognize(c)) <= Owed(c)
  {
    hide FindRun, FlushAll, LastN;
    var (mode, k) := FindRun(c.history, c.lookahead);
    if k == 3 {
      FlushAllGrowth(StartRun(c, mode, 3));
    }
  }

  lemma StepCost(c: Core, b: byte)
    requires WellFormed(c)
    ensures Owed(Step(c, b)) <= Owed(c) + 9
  {
    hide FindRun, FlushAll, LastN, LiteralBits, Recognize, MatchBits;
    if c.mode == LITERAL && |c.lookahead| < 4 {
      return;
    }
    var d := if c.mode == LITERAL then Recognize(c) else c;
    if c.mode == LITERAL { RecognizeCost(c); }
    FlushAllCost(d);
    var e := Absorb(d, b);
    assert e.repeated != FLUSH_AT ==> Owed(e) <= Owed(d) + 9;
  }

  lemma {:induction false} OwedAtMost(c: Core, input: seq<byte>)
    requires WellFormed(c)
    ensures Owed(StepAll(c, input)) <= Owed(c) + 9 * |input|
    decreases |input|
  {
    hide Step;
    if input == [] {
    } else {
      OwedAtMost(c, input[..|input| - 1]);
      StepCost(StepAll(c, input[..|input| - 1]), input[|input| - 1]);
    }
  }

  lemma FinishCost(c: Core)
    requires WellFormed(c)
    ensures |FinishBits(c)| <= Owed(c) + 10
    ensures |FinishBits(c)| <= |c.bits| + 46
  {
    hide FlushAll, LookaheadBits;
    FlushAllCost(c);
    LookaheadGrowth(c.lookahead);
    FinishGrowth(c);
  }

  /** Ten bits around nine for each byte, whatever the input is. */
  lemma NeverLonger(input: seq<byte>)
    ensures |FinishBits(StepAll(START, input))| <= 9 * |input| + 10
  {
    hide FinishBits, StepAll;
    OwedAtMost(START, input);
    FinishCost(StepAll(START, input));
  }

  // ----- History and lookahead are the last bytes ----------------------------------------------

  ghost predicate Recent(c: Core, input: seq<byte>)
  {
    && WellFormed(c) && |c.history| + |c.lookahead| <= |input|
    && c.history + c.lookahead == LastN(input, |c.history| + |c.lookahead|)
    && (|c.history| >= 3 || |c.history| + |c.lookahead| == |input|)
  }

  lemma LastOfMore(s: seq<byte>, t: seq<byte>, n: nat)
    requires n <= |s|
    ensures LastN(s + t, n + |t|) == LastN(s, n) + t
  {
  }

  lemma LastOfLast(s: seq<byte>, n: nat, k: nat)
    requires k <= n <= |s|
    ensures LastN(LastN(s, n), k) == LastN(s, k)
  {
  }

  lemma StartRunRecent(c: Core, mode: Mode, k: nat, input: seq<byte>)
    requires Recent(c, input) && |c.lookahead| == 4 && (k == 3 || k == 4) && 1 <= mode <= |c.history|
    ensures var d := StartRun(c, mode, k);
      && 3 <= |d.history| <= 4 && |d.history| + |d.lookahead| <= |input|
      && d.history + d.lookahead == LastN(input, |d.history| + |d.lookahead|)
      && (k == 4 ==> |d.history| == 4)
  {
    hide LastN;
    var h, u := c.history, c.lookahead;
    var n := if mode == 3 && k == 3 then |h| else 4;
    LastOfMore(h + u[..k], u[k..], n);
    assert h + u[..k] + u[k..] == h + u;
    LastOfLast(input, |h + u|, n + |u[k..]|);
    LastLength(h + u[..k], n);
  }

  lemma LastLength(s: seq<byte>, n: nat)
    requires n <= |s|
    ensures |LastN(s, n)| == n
  {
  }

  lemma RecognizeRecent(c: Core, input: seq<byte>)
    requires Recent(c, input) && c.mode == LITERAL && |c.lookahead| == 4
    ensures Recent(Recognize(c), input)
  {
    hide FindRun, FlushAll, LastN, StartRun;
    var (mode, k) := FindRun(c.history, c.lookahead);
    if k != 0 {
      StartRunRecent(c, mode, k, input);
    }
  }

  lemma AfterLiteral(h: seq<byte>, u: seq<byte>, b: byte)
    requires |h| <= 4 && |u| == 4
    ensures var later := LastN(h + [u[0]], 4);
      |later| == Min(4, |h| + 1) && later + (u[1..] + [b]) == LastN(h + u + [b], |later| + 4)
  {
    var first, rest := h + [u[0]], u[1..] + [b];
    assert first + rest == h + u + [b];
    LastOfMore(first, rest, Min(4, |h| + 1));
  }

  lemma AfterMatch(h: seq<byte>, b: byte)
    requires |h| == 4
    ensures h[1..] + [b] == LastN(h + [b], 4)
  {
  }

  lemma AbsorbRecent(c: Core, input: seq<byte>, b: byte)
    requires Recent(c, input)
    ensures var d := Absorb(c, b);
      && |d.history| + |d.lookahead| <= |input| + 1 && |d.history| <= 4
      && d.history + d.lookahead == LastN(input + [b], |d.history| + |d.lookahead|)
      && (|d.history| >= 3 || |d.history| + |d.lookahead| == |input| + 1)
  {
    hide FlushAll, LastN, LiteralBits;
    var h, u, d := c.history, c.lookahead, Absorb(c, b);
    var all := h + u + [b];
    LastOfMore(input, [b], |h + u|);
    if c.mode == LITERAL && |u| == 4 {
      AfterLiteral(h, u, b);
    } else if c.mode != LITERAL && b == h[4 - c.mode] {
      AfterMatch(h, b);
      assert h + u == h && d.history + d.lookahead == d.history;
    } else {
      assert d.history + d.lookahead == all;
      AllOfIt(all);
    }
    LastOfLast(input + [b], |all|, |d.history| + |d.lookahead|);
  }

  lemma AllOfIt(s: seq<byte>)
    ensures LastN(s, |s|) == s
  {
  }

  lemma StepRecent(c: Core, input: seq<byte>, b: byte)
    requires Recent(c, input)
    ensures Recent(Step(c, b), input + [b])
  {
    hide LastN, Recognize, Absorb;
    if c.mode == LITERAL && |c.lookahead| < 4 {
      LastOfMore(input, [b], |c.history| + |c.lookahead|);
      assert c.history + (c.lookahead + [b]) == c.history + c.lookahead + [b];
      return;
    }
    if c.mode == LITERAL { RecognizeRecent(c, input); }
    AbsorbRecent(if c.mode == LITERAL then Recognize(c) else c, input, b);
  }

  lemma {:induction false} AlwaysRecent(input: seq<byte>)
    ensures Recent(StepAll(START, input), input)
  {
    hide Step;
    if input == [] {
    } else {
      var before, b := input[..|input| - 1], input[|input| - 1];
      AlwaysRecent(before);
      StepRecent(StepAll(START, before), before, b);
      assert before + [b] == input;
    }
  }

  // ----- Runs ---------------------------------------------------------------------------------

  /** From `from` on, every byte is the one `period` bytes before it. */
  ghost predicate Repeats(input: seq<byte>, from: nat, period: nat)
  {
    forall k :: from + period <= k < |input| ==> input[k] == input[k - period]
  }

  ghost function After(input: seq<byte>, j: nat): (c: Core)
    requires j <= |input|
    ensures WellFormed(c)
  {
    StepAll(START, input[..j])
  }

  lemma AfterNext(input: seq<byte>, j: nat)
    requires j < |input|
    ensures After(input, j + 1) == Step(After(input, j), input[j])
  {
    assert input[..j + 1][..j] == input[..j];
  }

  /** A run that will not end before the input does. */
  ghost predicate Locked(input: seq<byte>, j: nat)
    requires j <= |input|
  {
    var m := After(input, j).mode;
    m != LITERAL && m <= j && forall k :: j <= k < |input| ==> input[k] == input[k - m]
  }

  /** The history, the lookahead and the place in the input. */
  lemma LastBytes(input: seq<byte>, j: nat)
    requires j <= |input|
    ensures var c := After(input, j); var n := j - |c.lookahead| - |c.history|;
      && 0 <= n && (|c.history| >= 3 || n == 0)
      && c.history == input[n..n + |c.history|] && c.lookahead == input[n + |c.history|..j]
  {
    hide WellFormed, StepAll;
    var c := After(input, j);
    AlwaysRecent(input[..j]);
    Parts(c.history, c.lookahead, input, j);
  }

  lemma Parts(h: seq<byte>, u: seq<byte>, input: seq<byte>, j: nat)
    requires |h| + |u| <= j <= |input| && h + u == LastN(input[..j], |h| + |u|)
    ensures h == input[j - |u| - |h|..j - |u|] && u == input[j - |u|..j]
  {
    assert LastN(input[..j], |h| + |u|) == input[j - |u| - |h|..j];
    assert h == (h + u)[..|h|] && u == (h + u)[|h|..];
  }

  /** In a run, a byte that continues it costs nothing until 260 are pending. */
  lemma RunStep(c: Core, b: byte)
    requires WellFormed(c) && c.mode != LITERAL
    ensures var d := Step(c, b);
      if b == c.history[4 - c.mode] then
        && d.mode == c.mode
        && if c.repeated + 1 < FLUSH_AT then d.repeated == c.repeated + 1 && d.bits == c.bits
           else d.repeated == c.repeated + 1 - MAX_MATCH && |d.bits| <= |c.bits| + 18
      else d.mode == LITERAL && |d.lookahead| == 1
  {
    hide FlushAll, MatchBits;
  }

  lemma RunByte(input: seq<byte>, j: nat)
    requires j < |input| && After(input, j).mode != LITERAL
    ensures After(input, j).mode <= j && After(input, j).history[4 - After(input, j).mode] == input[j - After(input, j).mode]
  {
    LastBytes(input, j);
  }

  /** Once locked, a run costs eighteen bits for every 257 bytes. */
  lemma {:induction false} LockedCost(input: seq<byte>, j: nat, n: nat) returns (flushes: nat)
    requires j + n <= |input| && Locked(input, j)
    ensures var c, d := After(input, j), After(input, j + n);
      && d.mode == c.mode && d.repeated + MAX_MATCH * flushes == c.repeated + n
      && |d.bits| <= |c.bits| + 18 * flushes
    decreases n
  {
    hide After;
    if n == 0 {
      flushes := 0;
    } else {
      flushes := LockedCost(input, j, n - 1);
      RunByte(input, j + n - 1);
      AfterNext(input, j + n - 1);
      RunStep(After(input, j + n - 1), input[j + n - 1]);
      if After(input, j + n - 1).repeated + 1 == FLUSH_AT { flushes := flushes + 1; }
    }
  }

  /** Four bytes that match at some distance, in a periodic stretch, are followed by such only. */
  lemma {:induction false} Lasting(input: seq<byte>, from: nat, period: nat, m: nat, j: nat, k: nat)
    requires Repeats(input, from, period) && 1 <= period <= 4 && 1 <= m <= j
    requires from + m + period <= j + 4 && j + 4 <= |input| && k < |input|
    requires forall i :: j <= i < j + 4 ==> input[i] == input[i - m]
    ensures k >= j ==> input[k] == input[k - m]
    decreases k
  {
    if k >= j + 4 {
      Lasting(input, from, period, m, j, k - period);
      assert input[k] == input[k - period] && input[k - m] == input[k - m - period];
    }
  }

  /** The search finds a run of four in eight bytes that repeat themselves; in seven it may find
      nothing, but never a run of three. */
  lemma FindsRun(h: seq<byte>, u: seq<byte>, period: nat)
    requires |u| == 4 && 3 <= |h| <= 4 && 1 <= period <= 4 && Repeats(h + u, 0, period)
    ensures FindRun(h, u).1 != 3 && (|h| == 4 ==> FindRun(h, u).1 == 4)
  {
    var n, t := |h|, h + u;
    assert u[0] == t[n] && u[1] == t[n + 1] && u[2] == t[n + 2] && u[3] == t[n + 3];
    assert h[n - 1] == t[n - 1] && h[n - 2] == t[n - 2] && h[n - 3] == t[n - 3];
    assert n == 4 ==> h[0] == t[0];
    assert t[n + 3] == t[n + 3 - period] && t[n + 2] == t[n + 2 - period] && t[n + 1] == t[n + 1 - period];
    assert n >= period ==> t[n] == t[n - period];
  }

  lemma FoundRun(h: seq<byte>, u: seq<byte>, i: nat)
    requires |u| == 4 && i < 4 && FindRun(h, u).1 == 4
    ensures 1 <= FindRun(h, u).0 <= |h| && u[i] == (h + u)[|h| + i - FindRun(h, u).0]
  {
  }

  lemma AllLasting(input: seq<byte>, from: nat, period: nat, m: nat, j: nat)
    requires Repeats(input, from, period) && 1 <= period <= 4 && 1 <= m <= j
    requires from + m + period <= j + 4 && j + 4 <= |input|
    requires forall i :: j <= i < j + 4 ==> input[i] == input[i - m]
    ensures forall k :: j <= k < |input| ==> input[k] == input[k - m]
  {
    hide Repeats;
    forall k | j <= k < |input|
      ensures input[k] == input[k - m]
    {
      Lasting(input, from, period, m, j, k);
    }
  }

  lemma InRun(input: seq<byte>, k: nat)
    requires k < |input| && After(input, k).mode != LITERAL
    ensures var m := After(input, k).mode;
      m <= k && if input[k] == input[k - m] then After(input, k + 1).mode == m else After(input, k + 1).mode == LITERAL
  {
    hide After, Step;
    RunByte(input, k);
    AfterNext(input, k);
    RunStep(After(input, k), input[k]);
  }

  /** A run that is not locked comes to an end within four bytes. */
  lemma EndOfRun(input: seq<byte>, from: nat, period: nat, j: nat) returns (k: nat)
    requires Repeats(input, from, period) && 1 <= period <= 4 && from + 8 <= j && j + 4 <= |input|
    ensures j <= k <= j + 4 && (Locked(input, k) || After(input, k).mode == LITERAL)
  {
    hide After, Repeats;
    k := j;
    var m := After(input, j).mode;
    while k < j + 4 && After(input, k).mode != LITERAL
      invariant j <= k <= j + 4 && (After(input, k).mode == LITERAL || After(input, k).mode == m)
      invariant After(input, k).mode != LITERAL ==> forall i :: j <= i < k ==> input[i] == input[i - m]
    {
      InRun(input, k);
      k := k + 1;
    }
    if After(input, k).mode != LITERAL {
      AllLasting(input, from, period, m, j);
    }
  }

  lemma Fills(input: seq<byte>, j: nat) returns (k: nat)
    requires j + 4 <= |input| && After(input, j).mode == LITERAL
    ensures j <= k <= j + 4 && After(input, k).mode == LITERAL && |After(input, k).lookahead| == 4
  {
    hide After;
    k := j;
    while |After(input, k).lookahead| < 4
      invariant j <= k <= j + 4 && After(input, k).mode == LITERAL && |After(input, k).lookahead| <= 4
      invariant |After(input, k).lookahead| == |After(input, j).lookahead| + (k - j)
    {
      AfterNext(input, k);
      k := k + 1;
    }
  }

  /** With a full lookahead, a run is found, or a literal makes the history complete. */
  lemma StartOfRun(input: seq<byte>, from: nat, period: nat, j: nat)
    requires Repeats(input, from, period) && 1 <= period <= 4 && from + 8 <= j < |input|
    requires After(input, j).mode == LITERAL && |After(input, j).lookahead| == 4
    ensures
      || Locked(input, j + 1)
      || (|After(input, j).history| < 4 && After(input, j + 1).mode == LITERAL
        && |After(input, j + 1).lookahead| == |After(input, j + 1).history| == 4)
  {
    hide After, StepAll, Repeats, FindRun, Step;
    var c := After(input, j);
    var h, u, n := c.history, c.lookahead, j - 4 - |c.history|;
    LastBytes(input, j);
    AfterNext(input, j);
    WindowRepeats(input, from, period, n, j);
    assert h + u == input[n..j];
    FindsRun(h, u, period);
    var (m, k) := FindRun(h, u);
    if k == 4 {
      FourMatches(input, n, j, h, u);
      AllLasting(input, from, period, m, j - 4);
      assert u[4 - m] == input[j - m];
      RunStarted(c, m, input[j]);
    } else {
      NoRunStarted(c, input[j]);
    }
  }

  lemma FourMatches(input: seq<byte>, n: nat, j: nat, h: seq<byte>, u: seq<byte>)
    requires j <= |input| && j == n + |h| + 4 && |u| == 4 && h + u == input[n..j] && FindRun(h, u).1 == 4
    ensures var m := FindRun(h, u).0;
      1 <= m <= |h| && forall i :: j - 4 <= i < j ==> input[i] == input[i - m]
  {
    hide FindRun;
    var m := FindRun(h, u).0;
    FoundRun(h, u, 0);
    forall i | j - 4 <= i < j
      ensures input[i] == input[i - m]
    {
      FoundRun(h, u, i - (j - 4));
      assert (h + u)[i - n] == input[i] && (h + u)[i - n - m] == input[i - m];
    }
  }

  lemma NoRunStarted(c: Core, b: byte)
    requires WellFormed(c) && c.mode == LITERAL && |c.lookahead| == 4 && FindRun(c.history, c.lookahead).1 == 0
    ensures var d := Step(c, b);
      && d.mode == LITERAL && |d.lookahead| == 4 && |d.history| == Min(4, |c.history| + 1)
      && |d.bits| <= |c.bits| + 9
  {
    hide FindRun, FlushAll;
  }

  lemma WindowRepeats(input: seq<byte>, from: nat, period: nat, n: nat, j: nat)
    requires Repeats(input, from, period) && from <= n <= j <= |input|
    ensures Repeats(input[n..j], 0, period)
  {
  }

  lemma RunStarted(c: Core, m: Mode, b: byte)
    requires WellFormed(c) && c.mode == LITERAL && |c.lookahead| == 4
    requires FindRun(c.history, c.lookahead) == (m, 4) && b == c.lookahead[4 - m]
    ensures Step(c, b).mode == m
  {
    hide FindRun, FlushAll;
    assert LastN(c.history + c.lookahead[..4], 4) == c.lookahead;
  }

  /** In a periodic stretch the compressor is in a run that lasts after at most eighteen bytes. */
  lemma Locks(input: seq<byte>, from: nat, period: nat) returns (k: nat)
    requires Repeats(input, from, period) && 1 <= period <= 4 && from + 18 <= |input|
    ensures from <= k <= from + 18 && Locked(input, k)
  {
    hide After, Repeats, Locked;
    k := EndOfRun(input, from, period, from + 8);
    if !Locked(input, k) {
      k := Fills(input, k);
      StartOfRun(input, from, period, k);
      if !Locked(input, k + 1) {
        StartOfRun(input, from, period, k + 1);
        k := k + 1;
      }
      k := k + 1;
    }
  }

  /** What is owed behind such a stretch. */
  lemma OwedForRepeats(input: seq<byte>, from: nat, period: nat)
    requires Repeats(input, from, period) && 1 <= period <= 4 && from <= |input|
    ensures Owed(StepAll(START, input)) <= 9 * from + 18 * ((|input| - from) / 257) + 234
  {
    hide StepAll, Repeats, Locked;
    var n := |input| - from;
    if n < 18 {
      OwedAtMost(START, input);
      return;
    }
    assert input[..|input|] == input;
    var k := Locks(input, from, period);
    OwedAtMost(START, input[..k]);
    var flushes := LockedCost(input, k, |input| - k);
    ManyFlushes(flushes, n);
  }

  /** A stretch that repeats itself every one to four bytes, anywhere in an input. */
  lemma RepeatsAreShort(input: seq<byte>, from: nat, to: nat, period: nat)
    requires from <= to <= |input| && 1 <= period <= 4 && Repeats(input[..to], from, period)
    ensures |FinishBits(StepAll(START, input))| <= 9 * (from + |input| - to) + 18 * ((to - from) / 257) + 244
  {
    hide FinishBits, StepAll, Repeats;
    OwedForRepeats(input[..to], from, period);
    assert input[..to] + input[to..] == input;
    StepAllConcat(START, input[..to], input[to..]);
    OwedAtMost(StepAll(START, input[..to]), input[to..]);
    FinishCost(StepAll(START, input));
  }

  lemma ManyFlushes(flushes: nat, n: nat)
    requires 257 * flushes <= 259 + n
    ensures flushes <= n / 257 + 2
  {
  }

  // ----- Equal bytes from the start -----------------------------------------------------------

  lemma HeldBack(c: Core, b: byte)
    requires WellFormed(c) && c.mode == LITERAL && |c.lookahead| < 4
    ensures Step(c, b) == c.(lookahead := c.lookahead + [b])
  {
  }

  lemma {:induction false} FirstFour(input: seq<byte>, j: nat)
    requires j <= 4 && j <= |input|
    ensures After(input, j) == START.(lookahead := input[..j])
  {
    hide Step;
    if j == 0 {
    } else {
      hide After;
      FirstFour(input, j - 1);
      AfterNext(input, j - 1);
      HeldBack(After(input, j - 1), input[j - 1]);
      assert input[..j] == input[..j - 1] + [input[j - 1]];
    }
  }

  lemma FifthByte(b: byte)
    ensures Step(Core(LITERAL, [], [b, b, b, b], 0, []), b) == Core(LITERAL, [b], [b, b, b, b], 0, [] + LiteralBits(b))
  {
    hide LiteralBits, FlushAll, FindRun, LastN, StartRun;
    var u := [b, b, b, b];
    NoHistory(u);
    ShortHistory(b);
    assert u[1..] + [b] == u;
    var c := Core(LITERAL, [], u, 0, []);
    assert Recognize(c) == c;
  }

  lemma NoHistory(u: seq<byte>)
    requires |u| == 4
    ensures FindRun([], u) == (LITERAL, 0)
  {
  }

  lemma ShortHistory(b: byte)
    ensures LastN([] + [b], 4) == [b]
  {
  }

  lemma SixthByte(b: byte, bits: Bits)
    ensures Step(Core(LITERAL, [b], [b, b, b, b], 0, bits), b) == Core(1, [b, b, b, b], [], 5, bits)
  {
    hide FlushAll;
    assert FindRun([b], [b, b, b, b]) == (1, 4);
    assert LastN([b] + [b, b, b, b][..4], 4) == [b, b, b, b] && [b, b, b, b][1..] + [b] == [b, b, b, b];
  }

  /** After one literal, the run. */
  lemma EqualStart(input: seq<byte>)
    requires Repeats(input, 0, 1) && |input| >= 6
    ensures Locked(input, 6) && |After(input, 6).bits| <= 9 && After(input, 6).repeated == 5
  {
    hide After, LiteralBits, Step;
    var b := input[0];
    assert input[1] == b && input[2] == b && input[3] == b && input[4] == b && input[5] == b;
    assert input[..4] == [b, b, b, b];
    FirstFour(input, 4);
    AfterNext(input, 4);
    FifthByte(b);
    AfterNext(input, 5);
    SixthByte(b, [] + LiteralBits(b));
  }

  /** Equal bytes take one literal and then eighteen bits for 257 of them. */
  lemma EqualIsShort(input: seq<byte>)
    requires Repeats(input, 0, 1)
    ensures |FinishBits(StepAll(START, input))| <= 3 + 9 + 18 * (|input| / 257 + 2) + 7
  {
    hide FinishBits, StepAll, Repeats, Locked;
    if |input| < 6 {
      NeverLonger(input);
      return;
    }
    assert input[..|input|] == input;
    EqualStart(input);
    var flushes := LockedCost(input, 6, |input| - 6);
    FinishCost(StepAll(START, input));
  }
}
