/** try/finally in the interpreter: LINK, UNLINK and UNWIND, and the three ways to
    start an unwind (throw, non-local return, non-local branch).

    The stack grows towards lower addresses from `base_`.  A stack pointer is modelled
    as its distance from the base, so the stack is a sequence whose last element is the
    top, and `sp_` is the length of the sequence. */
module Unwind {

  /** Program values are objects; words, code pointers and frame markers are structure
      that program code does not touch. */
  datatype Value = Object(id: int) | Word(n: int) | Bcp(bcp: nat) | FrameMarker

  const FRAME_SIZE: nat := 2
  const BLOCK_SALT: int := 0x01020304
  const THROWING: int := -2
  const NORMAL: int := -1

  function ToBlock(depth: int): Value { Word(depth + BLOCK_SALT) }

  function FromBlock(block: Value): int
    requires block.Word?
  {
    block.n - BLOCK_SALT
  }

  /** Where an unwind is going. */
  datatype Reason = Throwing | Returning(arity: nat) | Branching(bci: nat)

  function Encode(reason: Reason): (n: int)
    ensures n != NORMAL
  {
    match reason
    case Throwing => THROWING
    case Returning(arity) => 2 * arity
    case Branching(bci) => 2 * bci + 1
  }

  /** The word in the reason slot tells the three cases apart. */
  function Decode(n: int): Reason
    requires n == THROWING || n >= 0
  {
    if n == THROWING then Throwing else if n % 2 == 0 then Returning(n / 2) else Branching(n / 2)
  }

  lemma ReasonRoundTrip(reason: Reason)
    ensures Encode(reason) == THROWING || Encode(reason) >= 0
    ensures Decode(Encode(reason)) == reason
  {
  }

  // ----- The chain of links -------------------------------------------------------------

  /** The link whose words end at depth `t`: result, target, reason, chain.  Above it lie
      the block pointer and the frame of the call of the try body. */
  ghost predicate LinkAt(stack: seq<Value>, t: int)
  {
    && 4 <= t && t + 3 <= |stack|
    && stack[t - 1].Word? && 0 <= stack[t - 1].n && (stack[t - 1].n == 0 || stack[t - 1].n + 3 <= t - 4)
    && stack[t + 1].Bcp? && stack[t + 2].FrameMarker?
  }

  ghost predicate Linked(stack: seq<Value>, t: int)
    decreases t
  {
    t == 0 || (LinkAt(stack, t) && Linked(stack, stack[t - 1].n))
  }

  /** The links beyond the target, innermost first. */
  ghost function Handlers(stack: seq<Value>, t: int, target: int): (r: seq<int>)
    requires Linked(stack, t)
    decreases t
  {
    if t == 0 || target >= t then [] else [t] + Handlers(stack, stack[t - 1].n, target)
  }

  /** All links, innermost first. */
  ghost function Chain(stack: seq<Value>, t: int): (r: seq<int>)
    requires Linked(stack, t)
    decreases t
  {
    if t == 0 then [] else [t] + Chain(stack, stack[t - 1].n)
  }

  /** The chain moves strictly towards the base, and the handlers that an unwind runs are
      exactly its links beyond the target. */
  lemma {:induction false} HandlersOfChain(stack: seq<Value>, t: int, target: int)
    requires Linked(stack, t) && 0 <= target
    ensures var chain, handlers := Chain(stack, t), Handlers(stack, t, target);
      && handlers <= chain
      && (forall k :: 0 <= k < |chain| ==> 0 < chain[k] <= t)
      && (forall j, k :: 0 <= j < k < |chain| ==> chain[j] > chain[k])
      && (forall k :: 0 <= k < |chain| ==> (k < |handlers| <==> chain[k] > target))
    decreases t
  {
    if t == 0 {
    } else {
      var next := stack[t - 1].n;
      HandlersOfChain(stack, next, target);
      ChainGrows(t, next, Chain(stack, next), Handlers(stack, next, target), target);
    }
  }

  lemma ChainGrows(t: int, next: int, chain: seq<int>, handlers: seq<int>, target: int)
    requires 0 <= next < t && 0 <= target && handlers <= chain
    requires forall k :: 0 <= k < |chain| ==> 0 < chain[k] <= next
    requires forall j, k :: 0 <= j < k < |chain| ==> chain[j] > chain[k]
    requires forall k :: 0 <= k < |chain| ==> (k < |handlers| <==> chain[k] > target)
    ensures var longer, beyond := [t] + chain, if target >= t then [] else [t] + handlers;
      && beyond <= longer
      && (forall k :: 0 <= k < |longer| ==> 0 < longer[k] <= t)
      && (forall j, k :: 0 <= j < k < |longer| ==> longer[j] > longer[k])
      && (forall k :: 0 <= k < |longer| ==> (k < |beyond| <==> longer[k] > target))
  {
    var longer := [t] + chain;
    assert forall k :: 0 < k < |longer| ==> longer[k] == chain[k - 1];
  }

  /** The target is not in the middle of a link. */
  ghost predicate TargetOk(stack: seq<Value>, t: int, target: int)
    requires Linked(stack, t)
    decreases t
  {
    t == 0 || target >= t || (target <= t - 4 && TargetOk(stack, stack[t - 1].n, target))
  }

  /** No link lies across the base. */
  lemma {:induction false} BaseIsTarget(stack: seq<Value>, t: int)
    requires Linked(stack, t)
    ensures TargetOk(stack, t, 0)
    decreases t
  {
    if t == 0 {
    } else {
      BaseIsTarget(stack, stack[t - 1].n);
    }
  }

  /** The innermost link that is not beyond the target. */
  ghost function Remaining(stack: seq<Value>, t: int, target: int): (r: int)
    requires Linked(stack, t)
    ensures Linked(stack, r) && r <= t
    decreases t
  {
    if t == 0 || target >= t then t else Remaining(stack, stack[t - 1].n, target)
  }

  /** Up to depth `d` two stacks differ at most in program values. */
  ghost predicate SameStructure(a: seq<Value>, b: seq<Value>, d: int)
  {
    && 0 <= d <= |a| && d <= |b|
    && forall i :: 0 <= i < d ==> a[i] == b[i] || (a[i].Object? && b[i].Object?)
  }

  lemma SameStructureTrans(a: seq<Value>, b: seq<Value>, c: seq<Value>, d: int, e: int)
    requires SameStructure(a, b, d) && SameStructure(b, c, e) && 0 <= e <= d
    ensures SameStructure(a, c, e)
  {
  }

  /** The chain of links depends on structure only. */
  lemma {:induction false} LinkedStays(a: seq<Value>, b: seq<Value>, t: int, d: int, target: int)
    requires Linked(a, t) && SameStructure(a, b, d) && (t == 0 || t + 3 <= d)
    ensures Linked(b, t)
    ensures Handlers(b, t, target) == Handlers(a, t, target)
    ensures Remaining(b, t, target) == Remaining(a, t, target)
    ensures TargetOk(b, t, target) == TargetOk(a, t, target)
    decreases t
  {
    if t == 0 {
    } else {
      assert LinkAt(b, t) && b[t - 1] == a[t - 1];
      LinkedStays(a, b, a[t - 1].n, d, target);
    }
  }

  /** The frame that a throw or return goes to: the caller's arguments, the return
      address, and the frame marker. */
  ghost predicate TargetFrame(stack: seq<Value>, target: int, arity: nat)
  {
    2 + arity <= target <= |stack| && stack[target - 1].FrameMarker? && stack[target - 2].Bcp?
  }

  // ----- The machine -----------------------------------------------------------------------

  datatype Outcome = FellThrough | EnteredHandler(link: int) | Transferred | Fatal

  /** What an UNWIND finds on the stack: the rest, and the three words it pops. */
  ghost predicate Unwinding(stack: seq<Value>, trySp: int, reason: Reason, target: int, result: Value)
  {
    && |stack| >= 3
    && stack[|stack| - 1] == Word(Encode(reason))
    && stack[|stack| - 2] == ToBlock(target)
    && stack[|stack| - 3] == result
    && var rest := stack[..|stack| - 3];
    && Linked(rest, trySp) && 0 <= target <= |rest| && TargetOk(rest, trySp, target)
    && match reason
       case Throwing => true
       case Returning(arity) => TargetFrame(rest, target, arity)
       case Branching(_) => result.Word? && 0 <= result.n <= target
  }

  class Interpreter {
    var stack: seq<Value>
    var trySp: int
    var bcp: nat

    constructor (stack: seq<Value>, trySp: int, bcp: nat)
      ensures this.stack == stack && this.trySp == trySp && this.bcp == bcp
    {
      this.stack, this.trySp, this.bcp := stack, trySp, bcp;
    }

    /** THROW, with the exception on top. */
    method Throw()
      requires stack != [] && Linked(stack[..|stack| - 1], trySp)
      modifies `stack
      ensures Unwinding(stack, trySp, Throwing, 0, old(stack)[|old(stack)| - 1])
      ensures stack[..|stack| - 3] == old(stack)[..|old(stack)| - 1]
    {
      BaseIsTarget(stack[..|stack| - 1], trySp);
      stack := stack + [ToBlock(0)] + [Word(THROWING)];
      assert stack[..|stack| - 3] == old(stack)[..|old(stack)| - 1];
    }

    /** NON_LOCAL_RETURN: leave the method in whose frame the block lives, `height` slots
        above its frame. */
    method NonLocalReturn(arity: nat, height: nat)
      requires |stack| >= 2 && stack[|stack| - 1].Word?
      requires var rest, target := stack[..|stack| - 2], FromBlock(stack[|stack| - 1]) - (height + 1);
        && Linked(rest, trySp) && 0 <= target <= |rest| && TargetOk(rest, trySp, target)
        && TargetFrame(rest, target, arity)
      modifies `stack
      ensures var target := FromBlock(old(stack)[|old(stack)| - 1]) - (height + 1);
        && Unwinding(stack, trySp, Returning(arity), target, old(stack)[|old(stack)| - 2])
        && stack[..|stack| - 3] == old(stack)[..|old(stack)| - 2]
    {
      var block, result := stack[|stack| - 1], stack[|stack| - 2];
      var targetSp := FromBlock(block) - (height + 1);
      stack := stack[..|stack| - 2] + [result] + [ToBlock(targetSp)] + [Word(2 * arity)];
      assert stack[..|stack| - 3] == old(stack)[..|old(stack)| - 2];
    }

    /** NON_LOCAL_BRANCH: continue at `absoluteBci` in the block's home method. */
    method NonLocalBranch(heightDiff: nat, absoluteBci: nat)
      requires stack != [] && stack[|stack| - 1].Word?
      requires var rest, target := stack[..|stack| - 1], FromBlock(stack[|stack| - 1]);
        Linked(rest, trySp) && heightDiff <= target <= |rest| && TargetOk(rest, trySp, target)
      modifies `stack
      ensures var target := FromBlock(old(stack)[|old(stack)| - 1]);
        && Unwinding(stack, trySp, Branching(absoluteBci), target, Word(heightDiff))
        && stack[..|stack| - 3] == old(stack)[..|old(stack)| - 1]
    {
      var targetSp := FromBlock(stack[|stack| - 1]);
      stack := stack[..|stack| - 1] + [Word(heightDiff)] + [ToBlock(targetSp)] + [Word(2 * absoluteBci + 1)];
      assert stack[..|stack| - 3] == old(stack)[..|old(stack)| - 1];
    }

    method Link()
      requires 0 <= trySp
      modifies `stack, `trySp
      ensures stack == old(stack) + [Word(0xbeef), Word(-0xdead), Word(NORMAL), Word(old(trySp))]
      ensures trySp == |stack|
    {
      stack := stack + [Word(0xbeef)] + [Word(-0xdead)] + [Word(NORMAL)] + [Word(trySp)];
      trySp := |stack|;
    }

    /** CALL_METHOD: push the two words of a frame. */
    method Invoke(entry: nat, returnAddress: nat)
      modifies `stack, `bcp
      ensures stack == old(stack) + [Bcp(returnAddress), FrameMarker] && bcp == entry
    {
      stack := stack + [Bcp(returnAddress)] + [FrameMarker];
      bcp := entry;
    }

    /** RETURN from the frame `offset` slots below the top. */
    method Return(offset: nat, arity: nat, result: Value)
      requires TargetFrame(stack, |stack| - offset, arity)
      modifies `stack, `bcp
      ensures var target := |old(stack)| - offset;
        bcp == old(stack)[target - 2].bcp && stack == old(stack)[..target - 2 - arity] + [result]
    {
      var target := |stack| - offset;
      stack := stack[..target];
      bcp := stack[target - 2].bcp;
      stack := stack[..target - 2 - arity] + [result];
    }

    /** How a try starts: LINK, the block pointer, and the call of the body.  The chain has
        one more link, whose finally is at the return address. */
    method EnterTry(block: Value, entry: nat, returnAddress: nat)
      requires Linked(stack, trySp)
      modifies `stack, `trySp, `bcp
      ensures Linked(stack, trySp) && trySp == |old(stack)| + 4 && bcp == entry
      ensures stack == old(stack) + [Word(0xbeef), Word(-0xdead), Word(NORMAL), Word(old(trySp))]
                                  + [block, Bcp(returnAddress), FrameMarker]
      ensures Chain(stack, trySp) == [trySp] + old(Chain(stack, trySp))
    {
      hide Linked, Chain;
      ghost var start, t := stack, trySp;
      LinkedUnfold(stack, trySp);
      Link();
      stack := stack + [block];
      Invoke(entry, returnAddress);
      LinkedAbove(start, stack, t);
      Extended(stack, trySp);
    }

    /** How the finally of a try starts, whichever way it was entered: drop what is left of
        the call, and UNLINK.  The chain is the one from before the LINK. */
    method EnterFinally()
      requires trySp == |stack| - 1 >= 4 && stack[trySp - 1].Word?
      requires Linked(stack[..trySp - 4], stack[trySp - 1].n)
      modifies `stack, `trySp
      ensures stack == old(stack)[..|old(stack)| - 2] && trySp == old(stack[trySp - 1].n)
      ensures Linked(stack, trySp)
      ensures Chain(stack, trySp) == old(Chain(stack[..trySp - 4], stack[trySp - 1].n))
    {
      hide Linked, Chain;
      ghost var start := stack[..trySp - 4];
      Pop();
      Unlink();
      LinkedAbove(start, stack, trySp);
    }

    method Unlink()
      requires stack != [] && stack[|stack| - 1].Word?
      modifies `stack, `trySp
      ensures stack == old(stack)[..|old(stack)| - 1] && trySp == old(stack)[|old(stack)| - 1].n
    {
      trySp := stack[|stack| - 1].n;
      stack := stack[..|stack| - 1];
    }

    method Pop()
      requires stack != []
      modifies `stack
      ensures stack == old(stack)[..|old(stack)| - 1]
    {
      stack := stack[..|stack| - 1];
    }

    /** UNWIND at the end of a finally that was entered normally. */
    method UnwindNormally()
      requires |stack| >= 3 && stack[|stack| - 1] == Word(NORMAL)
      modifies `stack, `bcp
      ensures stack == old(stack)[..|old(stack)| - 3]
    {
      stack := stack[..|stack| - 3];
      bcp := bcp + 1;
    }

    /** Simulate a return from the call of the try body, with the link words telling
        the UNWIND at the end of the finally how to go on. */
    method EnterHandler(tos: Value, targetSp: int, resultOrHeight: Value)
      requires LinkAt(stack, trySp)
      modifies `stack, `bcp
      ensures bcp == old(stack)[trySp + 1].bcp
      ensures stack == old(stack)[..trySp - 4]
                     + [resultOrHeight, ToBlock(targetSp), tos, old(stack)[trySp - 1], old(stack)[trySp]]
    {
      hide LinkAt, ToBlock;
      var block := ToBlock(targetSp);
      HandlerStack(stack, trySp, tos, block, resultOrHeight);
      stack := stack[..trySp + 1 + FRAME_SIZE];
      stack := stack[trySp - 2 := tos][trySp - 3 := block][trySp - 4 := resultOrHeight];
      bcp := stack[trySp + 1].bcp;
      stack := stack[..trySp + 1];
    }

    /** No finally is in the way: go to the target. */
    method Transfer(tos: Value, targetSp: int, resultOrHeight: Value, ghost reason: Reason) returns (outcome: Outcome)
      requires tos == Word(Encode(reason)) && 0 <= targetSp <= |stack|
      requires reason.Returning? ==> TargetFrame(stack, targetSp, reason.arity)
      requires reason.Branching? ==> resultOrHeight.Word? && 0 <= resultOrHeight.n <= targetSp
      modifies `stack, `bcp
      ensures Arrived(old(stack), targetSp, reason, resultOrHeight, outcome, stack, bcp)
    {
      ReasonRoundTrip(reason);
      hide Encode;
      var why := Decode(tos.n);
      if !why.Branching? {
        var arity := if why.Throwing? then 0 else why.arity;
        stack := stack[..targetSp];
        if targetSp < 2 || !stack[targetSp - 1].FrameMarker? || !stack[targetSp - 2].Bcp? {
          return Fatal;
        }
        bcp := stack[targetSp - 2].bcp;
        stack := stack[..targetSp - 2 - arity] + [resultOrHeight];
      } else {
        bcp := why.bci;
        stack := stack[..targetSp - resultOrHeight.n];
      }
      return Transferred;
    }

    /** UNWIND while something is being unwound: run the innermost finally that lies
        beyond the target, or go to the target. */
    method UnwindStep(ghost reason: Reason, ghost target: int, ghost result: Value) returns (outcome: Outcome)
      requires Unwinding(stack, trySp, reason, target, result)
      modifies `stack, `bcp
      ensures var rest, t := old(stack)[..|old(stack)| - 3], trySp;
        if target < t then
          && LinkAt(rest, t) && outcome == EnteredHandler(t)
          && bcp == rest[t + 1].bcp && AtHandler(stack, rest, t, reason, target, result)
        else Arrived(rest, target, reason, result, outcome, stack, bcp)
    {
      hide Linked, TargetOk, Encode, Arrived;
      var tos, targetSp, resultOrHeight := stack[|stack| - 1], FromBlock(stack[|stack| - 2]), stack[|stack| - 3];
      stack := stack[..|stack| - 3];
      LinkedUnfold(stack, trySp);
      if targetSp < trySp {
        EnterHandler(tos, targetSp, resultOrHeight);
        return EnteredHandler(trySp);
      }
      outcome := Transfer(tos, targetSp, resultOrHeight, reason);
    }
  }

  lemma HandlerStack(stack: seq<Value>, t: int, tos: Value, block: Value, result: Value)
    requires LinkAt(stack, t)
    ensures 4 <= t && t + 3 <= |stack| && stack[t + 1].Bcp?
    ensures var cut := stack[..t + 3][t - 2 := tos][t - 3 := block][t - 4 := result];
      && |cut| == t + 3 && cut[t + 1] == stack[t + 1]
      && cut[..t + 1] == stack[..t - 4] + [result, block, tos, stack[t - 1], stack[t]]
  {
    var cut := stack[..t + 3][t - 2 := tos][t - 3 := block][t - 4 := result];
    assert cut[..t - 4] == stack[..t - 4];
    assert cut[..t + 1] == cut[..t - 4] + [cut[t - 4], cut[t - 3], cut[t - 2], cut[t - 1], cut[t]];
  }

  /** The state in which the target continues. */
  ghost predicate Arrived(rest: seq<Value>, target: int, reason: Reason, result: Value,
                          outcome: Outcome, stack: seq<Value>, bcp: nat)
  {
    && 0 <= target <= |rest|
    && match reason
       case Branching(bci) =>
         && result.Word? && 0 <= result.n <= target
         && outcome == Transferred && bcp == bci && stack == rest[..target - result.n]
       case Returning(arity) =>
         && TargetFrame(rest, target, arity)
         && outcome == Transferred && bcp == rest[target - 2].bcp
         && stack == rest[..target - 2 - arity] + [result]
       case Throwing =>
         if TargetFrame(rest, target, 0) then
           outcome == Transferred && bcp == rest[target - 2].bcp && stack == rest[..target - 2] + [result]
         else outcome == Fatal
  }

  /** Pushing and popping above the links keeps them. */
  lemma {:induction false} LinkedAbove(stack: seq<Value>, above: seq<Value>, t: int)
    requires Linked(stack, t) && stack <= above
    ensures Linked(above, t) && Chain(above, t) == Chain(stack, t)
    decreases t
  {
    if t == 0 {
    } else {
      LinkedAbove(stack, above, stack[t - 1].n);
    }
  }

  lemma Extended(stack: seq<Value>, t: int)
    requires LinkAt(stack, t) && Linked(stack, stack[t - 1].n)
    ensures Linked(stack, t) && Chain(stack, t) == [t] + Chain(stack, stack[t - 1].n)
  {
  }

  lemma LinkedUnfold(stack: seq<Value>, t: int)
    requires Linked(stack, t)
    ensures 0 <= t
    ensures t != 0 ==> LinkAt(stack, t) && Linked(stack, stack[t - 1].n)
  {
  }

  // ----- Whole unwinds ------------------------------------------------------------------------

  /** A finally body that completes normally: it may change program values of the frames
      it can see, but not the structure of the stack, and not the three words on top. */
  ghost predicate CompletesNormally(before: seq<Value>, after: seq<Value>)
  {
    && |before| == |after| && SameStructure(before, after, |before|)
    && (|before| >= 3 ==> before[|before| - 3..] == after[|before| - 3..])
  }

  /** An unwind whose finally bodies all complete normally runs exactly the handlers
      beyond the target, innermost first and each once, and then arrives at the target
      with the value it set out with. */
  method RunUnwind(i: Interpreter, body: (int, seq<Value>) -> seq<Value>,
                   ghost reason: Reason, ghost target: int, ghost result: Value)
    returns (outcome: Outcome, trace: seq<int>, ghost last: seq<Value>)
    requires Unwinding(i.stack, i.trySp, reason, target, result)
    requires forall t: int, s: seq<Value> :: CompletesNormally(s, body(t, s))
    modifies i
    ensures var rest := old(i.stack)[..|old(i.stack)| - 3];
      && trace == Handlers(rest, old(i.trySp), target)
      && i.trySp == Remaining(rest, old(i.trySp), target)
      && SameStructure(rest, last, target)
    ensures Arrived(last, target, reason, result, outcome, i.stack, i.bcp)
  {
    hide *;
    StartOfUnwind(i.stack, i.trySp, reason, target, result);
    ghost var rest0, t0 := i.stack[..|i.stack| - 3], i.trySp;
    trace, last := [], rest0;
    outcome := i.UnwindStep(reason, target, result);
    StepIsState(rest0, t0, outcome, i.stack, i.bcp, reason, target, result);
    while outcome.EnteredHandler?
      invariant 0 <= i.trySp
      invariant Progress(rest0, t0, last, i.trySp, trace, reason, target)
      invariant State(last, i.trySp, outcome, i.stack, i.bcp, reason, target, result)
      decreases i.trySp
    {
      trace := trace + [outcome.link];
      outcome, last := NextHandler(i, body, outcome, reason, target, result, last, rest0, t0, trace[..|trace| - 1]);
    }
    EndOfUnwind(rest0, t0, last, i.trySp, trace, outcome, i.stack, i.bcp, reason, target, result);
  }

  /** How far an unwind that started with `rest0` has come. */
  ghost predicate Progress(rest0: seq<Value>, t0: int, last: seq<Value>, t: int, trace: seq<int>, reason: Reason, target: int)
  {
    && 0 <= target && Linked(rest0, t0) && Linked(last, t) && TargetOk(last, t, target)
    && SameStructure(rest0, last, target)
    && (reason.Returning? ==> TargetFrame(last, target, reason.arity))
    && trace + Handlers(last, t, target) == Handlers(rest0, t0, target)
    && Remaining(last, t, target) == Remaining(rest0, t0, target)
  }

  /** Between two steps the machine is at a handler, or has arrived. */
  ghost predicate State(last: seq<Value>, t: int, outcome: Outcome, stack: seq<Value>, bcp: nat,
                        reason: Reason, target: int, result: Value)
  {
    && (reason.Branching? ==> result.Word? && 0 <= result.n <= target)
    && if target < t
       then outcome == EnteredHandler(t) && LinkAt(last, t) && AtHandler(stack, last, t, reason, target, result)
       else Arrived(last, target, reason, result, outcome, stack, bcp) && !outcome.EnteredHandler?
  }

  lemma StartOfUnwind(stack: seq<Value>, t: int, reason: Reason, target: int, result: Value)
    requires Unwinding(stack, t, reason, target, result)
    ensures |stack| >= 3 && 0 <= t && Progress(stack[..|stack| - 3], t, stack[..|stack| - 3], t, [], reason, target)
    ensures reason.Branching? ==> result.Word? && 0 <= result.n <= target
  {
    hide Handlers, Remaining, TargetOk, Encode;
    LinkedUnfold(stack[..|stack| - 3], t);
  }

  lemma StepIsState(rest: seq<Value>, t: int, outcome: Outcome, stack: seq<Value>, bcp: nat,
                    reason: Reason, target: int, result: Value)
    requires reason.Branching? ==> result.Word? && 0 <= result.n <= target
    requires if target < t
      then outcome == EnteredHandler(t) && LinkAt(rest, t) && AtHandler(stack, rest, t, reason, target, result)
      else Arrived(rest, target, reason, result, outcome, stack, bcp)
    ensures State(rest, t, outcome, stack, bcp, reason, target, result)
  {
    hide AtHandler, Arrived;
    ArrivedIsFinal(rest, target, reason, result, outcome, stack, bcp);
  }

  lemma EndOfUnwind(rest0: seq<Value>, t0: int, last: seq<Value>, t: int, trace: seq<int>, outcome: Outcome,
                    stack: seq<Value>, bcp: nat, reason: Reason, target: int, result: Value)
    requires Progress(rest0, t0, last, t, trace, reason, target) && !outcome.EnteredHandler?
    requires State(last, t, outcome, stack, bcp, reason, target, result)
    ensures Linked(rest0, t0) && trace == Handlers(rest0, t0, target) && t == Remaining(rest0, t0, target)
    ensures SameStructure(rest0, last, target) && Arrived(last, target, reason, result, outcome, stack, bcp)
  {
    hide Arrived, SameStructure, TargetOk;
    UnfoldChain(last, t, target);
  }

  /** One finally, up to the next handler or the target. */
  method NextHandler(i: Interpreter, body: (int, seq<Value>) -> seq<Value>, outcome: Outcome,
                     ghost reason: Reason, ghost target: int, ghost result: Value, ghost last: seq<Value>,
                     ghost rest0: seq<Value>, ghost t0: int, ghost trace: seq<int>)
    returns (next: Outcome, ghost after: seq<Value>)
    requires outcome.EnteredHandler? && Progress(rest0, t0, last, i.trySp, trace, reason, target)
    requires State(last, i.trySp, outcome, i.stack, i.bcp, reason, target, result)
    requires forall t: int, s: seq<Value> :: CompletesNormally(s, body(t, s))
    modifies i
    ensures 0 <= i.trySp < old(i.trySp)
    ensures Progress(rest0, t0, after, i.trySp, trace + [outcome.link], reason, target)
    ensures State(after, i.trySp, next, i.stack, i.bcp, reason, target, result)
  {
    hide Linked, Handlers, Remaining, TargetOk, Encode, Arrived, SameStructure, CompletesNormally, AtHandler, TargetFrame;
    UnfoldChain(last, i.trySp, target);
    after := HandlerBody(i, body, reason, target, result, last, rest0);
    UnfoldChain(after, i.trySp, target);
    next := i.UnwindStep(reason, target, result);
    StepIsState(after, i.trySp, next, i.stack, i.bcp, reason, target, result);
  }

  lemma ArrivedIsFinal(rest: seq<Value>, target: int, reason: Reason, result: Value,
                       outcome: Outcome, stack: seq<Value>, bcp: nat)
    ensures Arrived(rest, target, reason, result, outcome, stack, bcp) ==> !outcome.EnteredHandler?
  {
  }

  /** The stack on entry to a handler. */
  ghost predicate AtHandler(stack: seq<Value>, rest: seq<Value>, t: int, reason: Reason, target: int, result: Value)
    requires LinkAt(rest, t)
  {
    stack == rest[..t - 4] + [result, ToBlock(target), Word(Encode(reason)), rest[t - 1], rest[t]]
  }

  lemma SameAsSelf(stack: seq<Value>, d: int)
    requires 0 <= d <= |stack|
    ensures SameStructure(stack, stack, d)
  {
  }

  lemma UnfoldChain(stack: seq<Value>, t: int, target: int)
    requires Linked(stack, t) && 0 <= target
    ensures 0 <= t
    ensures target >= t ==> Handlers(stack, t, target) == [] && Remaining(stack, t, target) == t
    ensures target < t ==>
      && LinkAt(stack, t) && Linked(stack, stack[t - 1].n)
      && Handlers(stack, t, target) == [t] + Handlers(stack, stack[t - 1].n, target)
      && Remaining(stack, t, target) == Remaining(stack, stack[t - 1].n, target)
      && (TargetOk(stack, t, target) ==> target <= t - 4 && TargetOk(stack, stack[t - 1].n, target))
  {
  }

  /** From the entry of a handler to the UNWIND at its end: drop the block pointer, unlink,
      run the finally. */
  method HandlerBody(i: Interpreter, body: (int, seq<Value>) -> seq<Value>,
                     ghost reason: Reason, ghost target: int, ghost result: Value,
                     ghost rest: seq<Value>, ghost origin: seq<Value>)
    returns (ghost after: seq<Value>)
    requires 0 <= target < i.trySp && LinkAt(rest, i.trySp) && Linked(rest, rest[i.trySp - 1].n)
    requires target <= i.trySp - 4 && TargetOk(rest, rest[i.trySp - 1].n, target)
    requires AtHandler(i.stack, rest, i.trySp, reason, target, result) && SameStructure(origin, rest, target)
    requires reason.Returning? ==> TargetFrame(rest, target, reason.arity)
    requires reason.Branching? ==> result.Word? && 0 <= result.n <= target
    requires forall t: int, s: seq<Value> :: CompletesNormally(s, body(t, s))
    modifies i
    ensures i.trySp == rest[old(i.trySp) - 1].n < old(i.trySp)
    ensures Unwinding(i.stack, i.trySp, reason, target, result)
    ensures after == i.stack[..|i.stack| - 3] && SameStructure(origin, after, target)
    ensures Handlers(after, i.trySp, target) == Handlers(rest, i.trySp, target)
    ensures Remaining(after, i.trySp, target) == Remaining(rest, i.trySp, target)
  {
    hide Linked, Handlers, Remaining, TargetOk, Encode, SameStructure, TargetFrame, Unwinding, CompletesNormally;
    ghost var link := i.trySp;
    i.Pop();
    i.Unlink();
    ghost var before := i.stack;
    i.stack := body(i.trySp, i.stack);
    assert CompletesNormally(before, i.stack);
    AfterBody(rest, before, i.stack, link, reason, target, result);
    after := i.stack[..link - 4];
    SameStructureTrans(origin, rest, after, target, target);
    assert |i.stack| == link - 1 by { BodyLength(before, i.stack); }
  }

  lemma BodyLength(before: seq<Value>, after: seq<Value>)
    requires CompletesNormally(before, after)
    ensures |before| == |after|
  {
  }

  /** Behind a completed finally the unwind is where it was, one link further out. */
  lemma AfterBody(rest: seq<Value>, before: seq<Value>, stack: seq<Value>, link: int,
                  reason: Reason, target: int, result: Value)
    requires LinkAt(rest, link) && Linked(rest, rest[link - 1].n)
    requires 0 <= target <= link - 4 && TargetOk(rest, rest[link - 1].n, target)
    requires before == rest[..link - 4] + [result, ToBlock(target), Word(Encode(reason))]
    requires CompletesNormally(before, stack)
    requires reason.Returning? ==> TargetFrame(rest, target, reason.arity)
    requires reason.Branching? ==> result.Word? && 0 <= result.n <= target
    ensures |stack| == link - 1
    ensures var after, t := stack[..link - 4], rest[link - 1].n;
      && SameStructure(rest, after, target) && Linked(after, t) && Unwinding(stack, t, reason, target, result)
      && Handlers(after, t, target) == Handlers(rest, t, target)
      && Remaining(after, t, target) == Remaining(rest, t, target)
  {
    hide Linked, Handlers, Remaining, TargetOk, Encode;
    var after := stack[..link - 4];
    assert SameStructure(rest, after, link - 4);
    LinkedStays(rest, after, rest[link - 1].n, link - 4, target);
    TopThree(before, stack, link - 4);
  }

  lemma TopThree(before: seq<Value>, after: seq<Value>, k: nat)
    requires CompletesNormally(before, after) && |before| == k + 3
    ensures after[k] == before[k] && after[k + 1] == before[k + 1] && after[k + 2] == before[k + 2]
  {
    assert after[k..][0] == before[k..][0] && after[k..][1] == before[k..][1] && after[k..][2] == before[k..][2];
  }

  /** A try that is left normally: the finally runs, and afterwards the stack has the
      structure it had before the LINK. */
  method TryNormally(i: Interpreter, block: Value, tryBody: seq<Value> -> seq<Value>, finallyBody: seq<Value> -> seq<Value>)
    requires 0 <= i.trySp
    requires forall s: seq<Value> :: CompletesNormally(s, tryBody(s)) && CompletesNormally(s, finallyBody(s))
    modifies i
    ensures i.trySp == old(i.trySp)
    ensures |i.stack| == |old(i.stack)| && SameStructure(old(i.stack), i.stack, |i.stack|)
  {
    hide SameStructure;
    ghost var start, n := i.stack, |i.stack|;
    SameAsSelf(start, n);
    i.Link();
    i.stack := i.stack + [block];
    ghost var called := i.stack;
    assert called[..n] == start;
    Below(start, called, n);
    i.stack := tryBody(i.stack);
    assert CompletesNormally(called, i.stack);
    KeepsBelow(start, called, i.stack, n);
    ghost var tried := i.stack;
    WordsStay(called, i.stack, n + 2);
    WordsStay(called, i.stack, n + 3);
    i.Pop();
    i.Unlink();
    ghost var linked := i.stack;
    assert linked[..n] == tried[..n];
    Below(start, linked, n);
    i.stack := finallyBody(i.stack);
    assert CompletesNormally(linked, i.stack);
    KeepsBelow(start, linked, i.stack, n);
    WordsStay(linked, i.stack, n + 2);
    ghost var ended := i.stack;
    i.UnwindNormally();
    assert i.stack[..n] == ended[..n];
    Below(start, i.stack, n);
  }

  lemma KeepsBelow(start: seq<Value>, before: seq<Value>, after: seq<Value>, d: nat)
    requires d <= |start| && d <= |before| && SameStructure(start, before, d) && CompletesNormally(before, after)
    ensures SameStructure(start, after[..d], d)
  {
  }

  lemma Below(start: seq<Value>, stack: seq<Value>, d: nat)
    requires d <= |stack| && SameStructure(start, stack[..d], d)
    ensures SameStructure(start, stack, d)
  {
    forall i | 0 <= i < d
      ensures start[i] == stack[i] || (start[i].Object? && stack[i].Object?)
    {
      assert stack[i] == stack[..d][i];
    }
  }

  lemma WordsStay(before: seq<Value>, after: seq<Value>, k: nat)
    requires CompletesNormally(before, after) && k < |before| && before[k].Word?
    ensures after[k] == before[k]
  {
  }
}
