/** Whole programs with try/finally: what the compiler emits for them, run on the
    interpreter, does what the structure of the program says. */
module TryFinally {
  import opened Options
  import opened Unwind

  const NULL: int := 0

  // ----- Programs -------------------------------------------------------------------------

  /** `Exception` is the parameter of the innermost finally around. */
  datatype Operand = Literal(value: int) | Exception

  /** An `Exit` leaves a number of enclosing scopes and calls: it returns from a call, and
      breaks out of a scope. */
  datatype Code =
    | Skip
    | Emit(x: Operand)
    | Seq(first: Code, second: Code)
    | Throw(x: Operand)
    | Exit(level: nat, x: Operand)
    | Scope(locals: nat, body: Code)
    | Call(arity: nat, body: Code)
    | Try(body: Code, onException: Code, otherwise: Code)

  predicate Closed(c: Code, levels: nat)
  {
    match c
    case Skip => true
    case Emit(_) => true
    case Seq(first, second) => Closed(first, levels) && Closed(second, levels)
    case Throw(_) => true
    case Exit(level, _) => level < levels
    case Scope(_, body) => Closed(body, levels + 1)
    case Call(_, body) => Closed(body, levels + 1)
    case Try(body, onException, otherwise) =>
      Closed(body, levels) && Closed(onException, levels) && Closed(otherwise, levels)
  }

  // ----- What a program means ---------------------------------------------------------------

  datatype Completion = Normal | Thrown(v: int) | Exited(level: nat, v: int)

  datatype Behaviour = Behaviour(events: seq<int>, completion: Completion)

  function Eval(x: Operand, exception: int): int
  {
    if x.Literal? then x.value else exception
  }

  /** What a scope or call makes of an exit from its body. */
  function Outer(completion: Completion): Completion
  {
    if completion.Exited? && completion.level > 0 then Exited(completion.level - 1, completion.v) else completion
  }

  predicate Stops(completion: Completion)
  {
    completion.Normal? || (completion.Exited? && completion.level == 0)
  }

  /** A finally runs once, after the body, however that completes; then the completion of the
      body stands, unless the finally has its own. */
  function Run(c: Code, exception: int): Behaviour
  {
    match c
    case Skip => Behaviour([], Normal)
    case Emit(x) => Behaviour([Eval(x, exception)], Normal)
    case Seq(first, second) =>
      var a, b := Run(first, exception), Run(second, exception);
      if a.completion.Normal? then Behaviour(a.events + b.events, b.completion) else a
    case Throw(x) => Behaviour([], Thrown(Eval(x, exception)))
    case Exit(level, x) => Behaviour([], Exited(level, Eval(x, exception)))
    case Scope(_, body) =>
      var b := Run(body, exception);
      Behaviour(b.events, if Stops(b.completion) then Normal else Outer(b.completion))
    case Call(_, body) =>
      var b := Run(body, exception);
      if Stops(b.completion)
      then Behaviour(b.events + [if b.completion.Normal? then NULL else b.completion.v], Normal)
      else Behaviour(b.events, Outer(b.completion))
    case Try(body, onException, otherwise) =>
      var b := Run(body, exception);
      var f := if b.completion.Thrown? then Run(onException, b.completion.v) else Run(otherwise, NULL);
      Behaviour(b.events + f.events, if f.completion.Normal? then b.completion else f.completion)
  }

  /** `catch` of the core library: a block called inside a try, whose finally returns the
      exception. */
  function Catch(block: Code): Code
  {
    Call(0, Try(Seq(block, Exit(0, Literal(NULL))), Exit(0, Exception), Skip))
  }

  /** A `catch` returns the exception that its block throws, null if there is none, and
      does not get in the way of exits. */
  lemma CatchReturnsException(block: Code, exception: int)
    ensures var b, r := Run(block, exception), Run(Catch(block), exception);
      match b.completion
      case Normal => r == Behaviour(b.events + [NULL], Normal)
      case Thrown(v) => r == Behaviour(b.events + [v], Normal)
      case Exited(level, v) =>
        if level == 0 then r == Behaviour(b.events + [v], Normal) else r == Behaviour(b.events, Exited(level - 1, v))
  {
    var body := Seq(block, Exit(0, Literal(NULL)));
    var b, t := Run(block, exception), Run(body, exception);
    assert Run(Exit(0, Literal(NULL)), exception) == Behaviour([], Exited(0, NULL));
    assert t == if b.completion.Normal? then Behaviour(b.events + [], Exited(0, NULL)) else b;
    assert b.events + [] == b.events == t.events + [];
    assert Run(Exit(0, Exception), t.completion.v) == Behaviour([], Exited(0, t.completion.v));
    assert Run(Skip, NULL) == Behaviour([], Normal);
    assert Run(Try(body, Exit(0, Exception), Skip), exception) ==
      Behaviour(b.events, if t.completion.Thrown? then Exited(0, t.completion.v) else t.completion);
  }

  // ----- Where exits go ------------------------------------------------------------------------

  /** A call or scope that can be left: its place on the stack, and the depth of the block
      through which the code at hand reaches it, unless that is in the same activation. */
  datatype Home =
    | Frame(target: int, arity: nat, block: Option<int>)
    | Label(depth: int, bci: nat, block: Option<int>)

  function Through(home: Home, block: int): Home
  {
    if home.block.Some? then home else home.(block := Some(block))
  }

  function AllThrough(env: seq<Home>, block: int): (r: seq<Home>)
    ensures |r| == |env|
  {
    seq(|env|, (k: nat) requires k < |env| => Through(env[k], block))
  }

  ghost predicate HomeOk(stack: seq<Value>, t: int, home: Home)
    requires Linked(stack, t)
  {
    match home
    case Frame(target, arity, block) =>
      && TargetFrame(stack, target, arity) && TargetOk(stack, t, target)
      && if block.None? then t <= target else target < block.value <= |stack|
    case Label(depth, _, block) =>
      && 0 <= depth <= |stack|
      && if block.None? then t <= depth else depth <= block.value <= |stack| && TargetOk(stack, t, block.value)
  }

  /** The address at which execution continues. */
  function Landing(stack: seq<Value>, home: Home): nat
    requires home.Frame? ==> TargetFrame(stack, home.target, home.arity)
  {
    if home.Frame? then stack[home.target - 2].bcp else home.bci
  }

  /** Whatever is left, execution continues behind the code at hand. */
  ghost predicate Ready(stack: seq<Value>, t: int, env: seq<Home>, end: nat)
  {
    && Linked(stack, t) && (t != 0 ==> stack[t + 1].bcp > end)
    && forall k :: 0 <= k < |env| ==> HomeOk(stack, t, env[k]) && Landing(stack, env[k]) > end
  }

  ghost function ReasonOf(home: Home): Reason
  {
    if home.Frame? then Returning(home.arity) else Branching(home.bci)
  }

  ghost function TargetOf(home: Home): int
  {
    if home.Frame? then home.target else if home.block.Some? then home.block.value else home.depth
  }

  ghost function ResultOf(home: Home, v: int): Value
  {
    if home.Frame? then Object(v) else Word(TargetOf(home) - home.depth)
  }

  /** The state in which an exit arrives. */
  ghost predicate Landed(start: seq<Value>, home: Home, v: int, stack: seq<Value>, bcp: nat)
  {
    match home
    case Frame(target, arity, _) =>
      && TargetFrame(start, target, arity)
      && stack == start[..target - 2 - arity] + [Object(v)] && bcp == start[target - 2].bcp
    case Label(depth, bci, _) =>
      0 <= depth <= |start| && stack == start[..depth] && bcp == bci
  }

  /** The innermost finally has been entered on the way to a target. */
  ghost predicate Entered(start: seq<Value>, t: int, reason: Reason, target: int, result: Value,
                          outcome: Outcome, stack: seq<Value>, bcp: nat)
  {
    && LinkAt(start, t) && outcome == EnteredHandler(t)
    && AtHandler(stack, start, t, reason, target, result) && bcp == start[t + 1].bcp
  }

  /** The state behind a piece of code that was started with stack `start`. */
  ghost predicate Completed(start: seq<Value>, t: int, env: seq<Home>, end: nat, completion: Completion,
                            outcome: Outcome, stack: seq<Value>, bcp: nat)
  {
    match completion
    case Normal => outcome == FellThrough && stack == start && bcp == end
    case Thrown(v) =>
      if t == 0 then outcome == Fatal else Entered(start, t, Throwing, 0, Object(v), outcome, stack, bcp)
    case Exited(level, v) =>
      && level < |env|
      && var home := env[level];
      if TargetOf(home) < t
      then Entered(start, t, ReasonOf(home), TargetOf(home), ResultOf(home, v), outcome, stack, bcp)
      else outcome == Transferred && Landed(start, home, v, stack, bcp)
  }

  // ----- Pushing keeps everything in place ---------------------------------------------------------

  lemma HomeAbove(stack: seq<Value>, above: seq<Value>, t: int, home: Home)
    requires Linked(stack, t) && HomeOk(stack, t, home) && stack <= above
    ensures Linked(above, t) && HomeOk(above, t, home) && Landing(above, home) == Landing(stack, home)
  {
    hide Linked, TargetOk;
    TargetAbove(stack, above, t, if home.Frame? then home.target else if home.block.Some? then home.block.value else 0);
  }

  lemma {:induction false} TargetAbove(stack: seq<Value>, above: seq<Value>, t: int, target: int)
    requires Linked(stack, t) && stack <= above
    ensures Linked(above, t) && TargetOk(above, t, target) == TargetOk(stack, t, target)
    decreases t
  {
    if t == 0 {
    } else {
      TargetAbove(stack, above, stack[t - 1].n, target);
    }
  }

  /** Code further inside, on the same chain. */
  lemma ReadyAbove(stack: seq<Value>, above: seq<Value>, t: int, env: seq<Home>, end: nat, inner: nat)
    requires Ready(stack, t, env, end) && stack <= above && inner <= end
    ensures Ready(above, t, env, inner)
  {
    hide Linked, TargetOk;
    LinkedAbove(stack, above, t);
    LinkedUnfold(stack, t);
    forall k | 0 <= k < |env|
      ensures HomeOk(above, t, env[k]) && Landing(above, env[k]) > inner
    {
      HomeAbove(stack, above, t, env[k]);
    }
  }

  /** Code of a block or method called from here. */
  lemma ReadyThrough(stack: seq<Value>, above: seq<Value>, t: int, env: seq<Home>, end: nat, inner: nat)
    requires Ready(stack, t, env, end) && stack < above && inner <= end
    ensures Ready(above, t, AllThrough(env, |stack| + 1), inner)
  {
    hide Linked, Landing, TargetOk;
    ReadyAbove(stack, above, t, env, end, inner);
    LinkedUnfold(stack, t);
    var b := |stack| + 1;
    forall k | 0 <= k < |env|
      ensures HomeOk(above, t, Through(env[k], b)) && Landing(above, Through(env[k], b)) > inner
    {
      HomeAbove(stack, above, t, env[k]);
      BeyondLinks(above, t, b);
      SameLanding(above, env[k], b);
    }
  }

  lemma SameLanding(stack: seq<Value>, home: Home, block: int)
    requires home.Frame? ==> TargetFrame(stack, home.target, home.arity)
    ensures Landing(stack, Through(home, block)) == Landing(stack, home)
  {
  }

  lemma BeyondLinks(stack: seq<Value>, t: int, target: int)
    requires Linked(stack, t) && t <= target
    ensures TargetOk(stack, t, target)
  {
  }

  /** A completion inside is one outside. */
  lemma CompletedBelow(start: seq<Value>, inner: seq<Value>, t: int, env: seq<Home>, end: nat, innerEnd: nat,
                       completion: Completion, outcome: Outcome, stack: seq<Value>, bcp: nat)
    requires Ready(start, t, env, end) && start <= inner && !completion.Normal?
    requires Completed(inner, t, env, innerEnd, completion, outcome, stack, bcp)
    ensures Completed(start, t, env, end, completion, outcome, stack, bcp)
  {
    hide Linked, TargetOk;
    LinkedUnfold(start, t);
    if t != 0 { HandlerBelow(start, inner, t); }
    if completion.Exited? { LandedBelow(start, inner, t, env[completion.level], completion.v, stack, bcp); }
  }

  lemma HandlerBelow(start: seq<Value>, inner: seq<Value>, t: int)
    requires LinkAt(start, t) && start <= inner
    ensures LinkAt(inner, t) && inner[..t - 4] == start[..t - 4]
    ensures inner[t - 1] == start[t - 1] && inner[t] == start[t] && inner[t + 1] == start[t + 1]
  {
  }

  lemma LandedBelow(start: seq<Value>, inner: seq<Value>, t: int, home: Home, v: int, stack: seq<Value>, bcp: nat)
    requires Linked(start, t) && HomeOk(start, t, home) && start <= inner
    ensures Landed(inner, home, v, stack, bcp) ==> Landed(start, home, v, stack, bcp)
  {
    hide Linked, TargetOk;
    if home.Frame? {
      assert inner[..home.target - 2 - home.arity] == start[..home.target - 2 - home.arity];
    } else {
      assert inner[..home.depth] == start[..home.depth];
    }
  }

  /** Where a completion continues, unless that is fatal. */
  lemma Continues(start: seq<Value>, t: int, env: seq<Home>, end: nat,
                  completion: Completion, outcome: Outcome, stack: seq<Value>, bcp: nat)
    requires Ready(start, t, env, end) && Completed(start, t, env, end, completion, outcome, stack, bcp)
    ensures outcome == Fatal <==> completion.Thrown? && t == 0
    ensures outcome != Fatal ==> bcp >= end && (bcp == end <==> completion.Normal?)
    ensures completion.Exited? && TargetOf(env[completion.level]) >= t ==> bcp == Landing(start, env[completion.level])
  {
    hide Linked, TargetOk, AtHandler;
    if completion.Exited? { assert HomeOk(start, t, env[completion.level]); }
  }

  // ----- Running a program ------------------------------------------------------------------------------

  function Size(c: Code): nat
  {
    match c
    case Skip => 0
    case Emit(_) => 1
    case Seq(first, second) => Size(first) + Size(second)
    case Throw(_) => 1
    case Exit(_, _) => 1
    case Scope(_, body) => Size(body) + 2
    case Call(_, body) => Size(body) + 3
    case Try(body, onException, otherwise) => Size(body) + Size(onException) + Size(otherwise) + 5
  }

  /** What a local variable holds. */
  function Local(stack: seq<Value>, slot: int): int
  {
    if 0 <= slot < |stack| && stack[slot].Object? then stack[slot].id else NULL
  }

  function Objects(n: nat): (r: seq<Value>)
    ensures |r| == n
  {
    seq(n, _ => Object(NULL))
  }

  /** The code at address `at`.  Its parts lie one behind the other, and control goes where
      the interpreter's `bcp` says. */
  method Exec(i: Interpreter, c: Code, at: nat, env: seq<Home>, slot: int) returns (trace: seq<int>, outcome: Outcome)
    requires i.bcp == at && Closed(c, |env|) && slot < |i.stack|
    requires Ready(i.stack, i.trySp, env, at + Size(c))
    modifies i
    ensures i.trySp == old(i.trySp)
    ensures trace == Run(c, Local(old(i.stack), slot)).events
    ensures Completed(old(i.stack), i.trySp, env, at + Size(c), Run(c, Local(old(i.stack), slot)).completion,
                      outcome, i.stack, i.bcp)
    decreases c, 2
  {
    hide Ready, Landed, Entered, Landing, HomeOk, TargetOf, ReasonOf, ResultOf, Linked;
    match c
    case Skip =>
      trace, outcome := [], FellThrough;
    case Emit(x) =>
      trace, outcome := [Eval(x, Local(i.stack, slot))], FellThrough;
      i.bcp := at + 1;
    case Seq(_, _) =>
      trace, outcome := ExecSeq(i, c, at, env, slot);
    case Throw(x) =>
      trace := [];
      outcome := ExecThrow(i, Eval(x, Local(i.stack, slot)), env, at + 1);
    case Exit(level, x) =>
      trace := [];
      outcome := ExecExit(i, level, Eval(x, Local(i.stack, slot)), env, at + 1);
    case Scope(_, _) =>
      trace, outcome := ExecScope(i, c, at, env, slot);
    case Call(_, _) =>
      trace, outcome := ExecCall(i, c, at, env, slot);
    case Try(_, _, _) =>
      trace, outcome := ExecTry(i, c, at, env, slot);
  }

  method ExecThrow(i: Interpreter, v: int, ghost env: seq<Home>, ghost end: nat) returns (outcome: Outcome)
    requires Ready(i.stack, i.trySp, env, end)
    modifies i
    ensures i.trySp == old(i.trySp)
    ensures Completed(old(i.stack), i.trySp, env, end, Thrown(v), outcome, i.stack, i.bcp)
  {
    hide Linked, TargetOk, Unwinding, HomeOk, Landing;
    ghost var start := i.stack;
    LinkedUnfold(start, i.trySp);
    i.stack := i.stack + [Object(v)];
    assert i.stack[..|i.stack| - 1] == start;
    i.Throw();
    outcome := i.UnwindStep(Throwing, 0, Object(v));
  }

  /** The compiler knows whether a call or scope is in the same activation.  If it is, then
      there is no finally in between, and it can be left directly. */
  method ExecExit(i: Interpreter, level: nat, v: int, env: seq<Home>, ghost end: nat) returns (outcome: Outcome)
    requires level < |env| && Ready(i.stack, i.trySp, env, end)
    modifies i
    ensures i.trySp == old(i.trySp)
    ensures Completed(old(i.stack), i.trySp, env, end, Exited(level, v), outcome, i.stack, i.bcp)
  {
    hide Linked, TargetOk, Landing, Unwinding;
    ghost var start := i.stack;
    assert HomeOk(start, i.trySp, env[level]);
    match env[level]
    case Frame(target, arity, None) =>
      i.Return(|i.stack| - target, arity, Object(v));
      outcome := Transferred;
    case Label(depth, bci, None) =>
      i.stack := i.stack[..depth];
      i.bcp := bci;
      outcome := Transferred;
    case Frame(target, arity, Some(b)) =>
      i.stack := i.stack + [Object(v)] + [ToBlock(b)];
      assert i.stack[..|i.stack| - 2] == start;
      i.NonLocalReturn(arity, b - target - 1);
      outcome := i.UnwindStep(Returning(arity), target, Object(v));
    case Label(depth, bci, Some(b)) =>
      i.stack := i.stack + [ToBlock(b)];
      assert i.stack[..|i.stack| - 1] == start;
      i.NonLocalBranch(b - depth, bci);
      outcome := i.UnwindStep(Branching(bci), b, Word(b - depth));
  }

  method ExecSeq(i: Interpreter, c: Code, at: nat, env: seq<Home>, slot: int) returns (trace: seq<int>, outcome: Outcome)
    requires c.Seq? && i.bcp == at && Closed(c, |env|) && slot < |i.stack|
    requires Ready(i.stack, i.trySp, env, at + Size(c))
    modifies i
    ensures i.trySp == old(i.trySp)
    ensures trace == Run(c, Local(old(i.stack), slot)).events
    ensures Completed(old(i.stack), i.trySp, env, at + Size(c), Run(c, Local(old(i.stack), slot)).completion,
                      outcome, i.stack, i.bcp)
    decreases c, 1
  {
    hide Ready, Completed, Local;
    ghost var start, t, x := i.stack, i.trySp, Local(i.stack, slot);
    ghost var a := Run(c.first, x).completion;
    var middle := at + Size(c.first);
    ReadyAbove(start, start, t, env, at + Size(c), middle);
    trace, outcome := Exec(i, c.first, at, env, slot);
    Continues(start, t, env, middle, a, outcome, i.stack, i.bcp);
    if outcome != Fatal && i.bcp == middle {
      NormallyCompleted(start, t, env, middle, outcome, i.stack, i.bcp);
      var rest;
      rest, outcome := Exec(i, c.second, middle, env, slot);
      trace := trace + rest;
    } else {
      CompletedBelow(start, start, t, env, at + Size(c), middle, a, outcome, i.stack, i.bcp);
    }
  }

  lemma NormallyCompleted(start: seq<Value>, t: int, env: seq<Home>, end: nat,
                          outcome: Outcome, stack: seq<Value>, bcp: nat)
    ensures Completed(start, t, env, end, Normal, outcome, stack, bcp) <==>
      outcome == FellThrough && stack == start && bcp == end
  {
  }

  lemma LocalAbove(stack: seq<Value>, above: seq<Value>, slot: int)
    requires stack <= above && slot < |stack|
    ensures Local(above, slot) == Local(stack, slot)
  {
  }

  // ----- Scopes and calls ----------------------------------------------------------------------------------

  /** An exit that goes further than the innermost home. */
  lemma PastHome(start: seq<Value>, inner: seq<Value>, t: int, home: Home, env: seq<Home>, end: nat, innerEnd: nat,
                 completion: Completion, outcome: Outcome, stack: seq<Value>, bcp: nat)
    requires Ready(start, t, env, end) && start <= inner && !Stops(completion)
    requires Completed(inner, t, [home] + env, innerEnd, completion, outcome, stack, bcp)
    ensures Completed(start, t, env, end, Outer(completion), outcome, stack, bcp)
    ensures outcome != Fatal ==> bcp > end
  {
    hide Linked, TargetOk, Entered, Landed, Ready;
    if completion.Exited? { assert ([home] + env)[completion.level] == env[completion.level - 1]; }
    assert Completed(inner, t, env, innerEnd, Outer(completion), outcome, stack, bcp);
    CompletedBelow(start, inner, t, env, end, innerEnd, Outer(completion), outcome, stack, bcp);
    Continues(start, t, env, end, Outer(completion), outcome, stack, bcp);
  }

  /** An exit through a block goes where it would go without. */
  lemma PastBlock(start: seq<Value>, inner: seq<Value>, t: int, home: Home, env: seq<Home>, end: nat, innerEnd: nat,
                  completion: Completion, outcome: Outcome, stack: seq<Value>, bcp: nat)
    requires Ready(start, t, env, end) && start <= inner && !Stops(completion)
    requires Completed(inner, t, [home] + AllThrough(env, |start| + 1), innerEnd, completion, outcome, stack, bcp)
    ensures Completed(start, t, env, end, Outer(completion), outcome, stack, bcp)
    ensures outcome != Fatal ==> bcp > end
  {
    hide Linked, TargetOk, Entered, Landing, Ready, HomeOk;
    if completion.Exited? {
      var k, b := completion.level, |start| + 1;
      assert ([home] + AllThrough(env, b))[k] == Through(env[k - 1], b) && ([home] + env)[k] == env[k - 1];
      SameTarget(start, t, env, end, k - 1);
    }
    assert Completed(inner, t, [home] + env, innerEnd, completion, outcome, stack, bcp);
    PastHome(start, inner, t, home, env, end, innerEnd, completion, outcome, stack, bcp);
  }

  lemma SameTarget(start: seq<Value>, t: int, env: seq<Home>, end: nat, k: nat)
    requires Ready(start, t, env, end) && k < |env|
    ensures var home, through := env[k], Through(env[k], |start| + 1);
      && (TargetOf(home) < t <==> TargetOf(through) < t)
      && (TargetOf(home) < t ==> home == through)
  {
    hide Linked, TargetOk, Landing;
    LinkedUnfold(start, t);
    assert HomeOk(start, t, env[k]);
  }

  method ExecScope(i: Interpreter, c: Code, at: nat, env: seq<Home>, slot: int) returns (trace: seq<int>, outcome: Outcome)
    requires c.Scope? && i.bcp == at && Closed(c, |env|) && slot < |i.stack|
    requires Ready(i.stack, i.trySp, env, at + Size(c))
    modifies i
    ensures i.trySp == old(i.trySp)
    ensures trace == Run(c, Local(old(i.stack), slot)).events
    ensures Completed(old(i.stack), i.trySp, env, at + Size(c), Run(c, Local(old(i.stack), slot)).completion,
                      outcome, i.stack, i.bcp)
    decreases c, 1
  {
    hide Ready, Completed, Local, Objects;
    ghost var start, t, b := i.stack, i.trySp, Run(c.body, Local(i.stack, slot)).completion;
    var last, end := at + 1 + Size(c.body), at + Size(c);
    var home := Label(|i.stack|, end, None);
    i.stack, i.bcp := i.stack + Objects(c.locals), at + 1;
    ghost var inner := i.stack;
    ReadyScope(start, inner, t, env, end, last);
    LocalAbove(start, inner, slot);
    trace, outcome := Exec(i, c.body, at + 1, [home] + env, slot);
    Continues(inner, t, [home] + env, last, b, outcome, i.stack, i.bcp);
    NormallyCompleted(inner, t, [home] + env, last, outcome, i.stack, i.bcp);
    if outcome != Fatal && i.bcp == last {
      i.stack, i.bcp := i.stack[..|i.stack| - c.locals], end;
      assert i.stack == start;
    }
    if b.Exited? && b.level == 0 { AtLabel(start, inner, t, env, end, last, b.v, outcome, i.stack, i.bcp); }
    if !Stops(b) { PastHome(start, inner, t, home, env, end, last, b, outcome, i.stack, i.bcp); }
    if outcome != Fatal && i.bcp == end {
      outcome := FellThrough;
    }
    NormallyCompleted(start, t, env, end, outcome, i.stack, i.bcp);
  }

  lemma ReadyScope(start: seq<Value>, inner: seq<Value>, t: int, env: seq<Home>, end: nat, last: nat)
    requires Ready(start, t, env, end) && start <= inner && last < end
    ensures Ready(inner, t, [Label(|start|, end, None)] + env, last)
  {
    hide Linked, TargetOk;
    ReadyAbove(start, inner, t, env, end, last);
    LinkedUnfold(start, t);
  }

  lemma AtLabel(start: seq<Value>, inner: seq<Value>, t: int, env: seq<Home>, end: nat, last: nat, v: int,
                outcome: Outcome, stack: seq<Value>, bcp: nat)
    requires Ready(start, t, env, end) && start <= inner
    requires Completed(inner, t, [Label(|start|, end, None)] + env, last, Exited(0, v), outcome, stack, bcp)
    ensures outcome == Transferred && stack == start && bcp == end
  {
    hide Linked, TargetOk, Entered;
    LinkedUnfold(start, t);
  }

  method ExecCall(i: Interpreter, c: Code, at: nat, env: seq<Home>, slot: int) returns (trace: seq<int>, outcome: Outcome)
    requires c.Call? && i.bcp == at && Closed(c, |env|) && slot < |i.stack|
    requires Ready(i.stack, i.trySp, env, at + Size(c))
    modifies i
    ensures i.trySp == old(i.trySp)
    ensures trace == Run(c, Local(old(i.stack), slot)).events
    ensures Completed(old(i.stack), i.trySp, env, at + Size(c), Run(c, Local(old(i.stack), slot)).completion,
                      outcome, i.stack, i.bcp)
    decreases c, 1
  {
    hide Ready, Completed, Local, Objects, TargetFrame, AllThrough;
    ghost var start, t, b := i.stack, i.trySp, Run(c.body, Local(i.stack, slot)).completion;
    var last, end := at + 1 + Size(c.body), at + Size(c);
    i.stack := i.stack + [Word(0)];
    var block := |i.stack|;
    i.stack := i.stack + Objects(c.arity);
    i.Invoke(at + 1, end - 1);
    ghost var inner := i.stack;
    var homes := [Frame(|i.stack|, c.arity, None)] + AllThrough(env, block);
    ReadyCall(start, inner, t, env, c.arity, end, last);
    LocalAbove(start, inner, slot);
    trace, outcome := Exec(i, c.body, at + 1, homes, slot);
    Continues(inner, t, homes, last, b, outcome, i.stack, i.bcp);
    NormallyCompleted(inner, t, homes, last, outcome, i.stack, i.bcp);
    if outcome != Fatal && i.bcp == last {
      i.Return(0, c.arity, Object(NULL));
      assert inner[..|inner| - 2 - c.arity] == start + [Word(0)];
    }
    if b.Exited? && b.level == 0 { AtCaller(start, inner, t, env, c.arity, end, last, b.v, outcome, i.stack, i.bcp); }
    if !Stops(b) { PastBlock(start, inner, t, homes[0], env, end, last, b, outcome, i.stack, i.bcp); }
    if outcome != Fatal && i.bcp == end - 1 {
      trace := trace + [i.stack[|i.stack| - 1].id];
      i.stack, i.bcp := i.stack[..|i.stack| - 2], end;
      assert i.stack == start;
      outcome := FellThrough;
    }
    NormallyCompleted(start, t, env, end, outcome, i.stack, i.bcp);
  }

  lemma ReadyCall(start: seq<Value>, inner: seq<Value>, t: int, env: seq<Home>, arity: nat, end: nat, last: nat)
    requires Ready(start, t, env, end) && last + 1 < end
    requires inner == start + [Word(0)] + Objects(arity) + [Bcp(end - 1), FrameMarker]
    ensures TargetFrame(inner, |inner|, arity) && inner[|inner| - 2].bcp == end - 1
    ensures Ready(inner, t, [Frame(|inner|, arity, None)] + AllThrough(env, |start| + 1), last)
  {
    hide Linked, TargetOk, Objects, AllThrough;
    assert start < inner;
    ReadyThrough(start, inner, t, env, end, last);
    LinkedUnfold(start, t);
    BeyondLinks(inner, t, |inner|);
  }

  lemma AtCaller(start: seq<Value>, inner: seq<Value>, t: int, env: seq<Home>, arity: nat, end: nat, last: nat, v: int,
                 outcome: Outcome, stack: seq<Value>, bcp: nat)
    requires Ready(start, t, env, end) && 0 < end
    requires inner == start + [Word(0)] + Objects(arity) + [Bcp(end - 1), FrameMarker]
    requires Completed(inner, t, [Frame(|inner|, arity, None)] + AllThrough(env, |start| + 1), last, Exited(0, v),
                       outcome, stack, bcp)
    ensures outcome == Transferred && stack == start + [Word(0)] + [Object(v)] && bcp == end - 1
  {
    hide Linked, TargetOk, Entered, Objects, AllThrough;
    LinkedUnfold(start, t);
    assert inner[..|inner| - 2 - arity] == start + [Word(0)];
  }

  // ----- Try ------------------------------------------------------------------------------------------------------

  /** The three words of a link from which its UNWIND goes on, after a completion of the body. */
  ghost predicate Pending(start: seq<Value>, env: seq<Home>, completion: Completion, words: seq<Value>)
  {
    && |words| == 3
    && match completion
       case Normal => words[2] == Word(NORMAL)
       case Thrown(v) => words == [Object(v), ToBlock(0), Word(Encode(Throwing))]
       case Exited(level, v) =>
         && level < |env|
         && var home := Through(env[level], |start| + 1);
         words == [ResultOf(home, v), ToBlock(TargetOf(home)), Word(Encode(ReasonOf(home)))]
  }

  /** However the body of a try completes, the next code to run is that of its finally, at the
      return address of the body's call, and the chain is the one from before the try. */
  method ExecTryBody(i: Interpreter, body: Code, at: nat, env: seq<Home>, slot: int)
    returns (trace: seq<int>, ghost words: seq<Value>)
    requires i.bcp == at && Closed(body, |env|) && slot < |i.stack|
    requires Ready(i.stack, i.trySp, env, at + Size(body) + 4)
    modifies i
    ensures i.trySp == old(i.trySp) && i.bcp == at + Size(body) + 2
    ensures trace == Run(body, Local(old(i.stack), slot)).events
    ensures i.stack == old(i.stack) + [Word(0)] + words
    ensures Pending(old(i.stack), env, Run(body, Local(old(i.stack), slot)).completion, words)
    ensures Linked(i.stack, i.trySp) && Linked(old(i.stack), i.trySp)
    ensures Chain(i.stack, i.trySp) == Chain(old(i.stack), i.trySp)
    decreases body, 4
  {
    hide Ready, Local, Linked, Chain, Pending, AllThrough, ToBlock, InTry;
    ghost var start, t0 := i.stack, i.trySp;
    i.stack := i.stack + [Word(0)];
    var block := |i.stack|;
    ghost var outer, end := i.stack, at + Size(body) + 4;
    ReadyLinked(start, t0, env, end);
    LinkedAbove(start, outer, t0);
    i.EnterTry(ToBlock(block), at + 1, at + Size(body) + 2);
    StackInTry(start, t0, ToBlock(block), at + Size(body) + 2);
    ReadyTry(start, i.stack, t0, env, end, at + Size(body) + 1);
    LocalAbove(start, i.stack, slot);
    trace, words := ExecLinked(i, body, at + 1, env, slot, start, t0);
    AboveWords(outer, words, t0, i.stack);
    i.EnterFinally();
    LinkedAbove(start, i.stack, t0);
  }

  /** The body of a try, inside its link. */
  method ExecLinked(i: Interpreter, body: Code, at: nat, env: seq<Home>, slot: int, ghost start: seq<Value>, ghost t0: int)
    returns (trace: seq<int>, ghost words: seq<Value>)
    requires i.bcp == at && Closed(body, |env|) && slot < |i.stack| && i.trySp == |start| + 5
    requires Ready(start, t0, env, at + Size(body) + 3)
    requires i.stack == InTry(start, t0, ToBlock(|start| + 1), at + Size(body) + 1)
    requires Ready(i.stack, i.trySp, AllThrough(env, |start| + 1), at + Size(body))
    modifies i
    ensures i.trySp == old(i.trySp) && i.bcp == at + Size(body) + 1
    ensures trace == Run(body, Local(old(i.stack), slot)).events
    ensures Pending(start, env, Run(body, Local(old(i.stack), slot)).completion, words)
    ensures |words| == 3 && |i.stack| == |start| + 6
    ensures i.stack[..|start| + 5] == start + [Word(0)] + words + [Word(t0)]
    decreases body, 3
  {
    hide Ready, Completed, Local, Linked, Pending, AllThrough, ToBlock, InTry, TargetFrame;
    ghost var inner, t, b := i.stack, i.trySp, Run(body, Local(i.stack, slot)).completion;
    var last := at + Size(body);
    ghost var homes := AllThrough(env, |start| + 1);
    var outcome;
    trace, outcome := Exec(i, body, at, AllThrough(env, i.trySp - 4), slot);
    Continues(inner, t, homes, last, b, outcome, i.stack, i.bcp);
    NormallyCompleted(inner, t, homes, last, outcome, i.stack, i.bcp);
    if i.bcp == last {
      words := BodyFrame(start, t0, ToBlock(|start| + 1), last + 1);
      i.Return(0, 1, Object(NULL));
    } else {
      words := Interrupted(start, inner, t0, env, last + 3, last, b, outcome, i.stack, i.bcp);
    }
    PendingNormally(start, env, words);
  }

  lemma AboveWords(outer: seq<Value>, words: seq<Value>, t0: int, stack: seq<Value>)
    requires |words| == 3 && |stack| == |outer| + 5 && stack[..|stack| - 1] == outer + words + [Word(t0)]
    ensures stack[|stack| - 2] == Word(t0) && stack[..|stack| - 5] == outer && stack[..|stack| - 2] == outer + words
  {
    var s := stack[..|stack| - 1];
    assert stack[|stack| - 2] == s[|stack| - 2] && stack[..|stack| - 5] == s[..|stack| - 5] == outer;
    assert stack[..|stack| - 2] == s[..|stack| - 2];
  }

  lemma ReadyLinked(stack: seq<Value>, t: int, env: seq<Home>, end: nat)
    requires Ready(stack, t, env, end)
    ensures Linked(stack, t)
  {
  }

  lemma PendingNormally(start: seq<Value>, env: seq<Home>, words: seq<Value>)
    ensures Pending(start, env, Normal, words) <==> |words| == 3 && words[2] == Word(NORMAL)
  {
  }

  /** The stack inside a try. */
  ghost function InTry(start: seq<Value>, t0: int, block: Value, returnAddress: nat): (r: seq<Value>)
    ensures start < r
  {
    start + [Word(0)] + [Word(0xbeef), Word(-0xdead), Word(NORMAL), Word(t0)] + [block, Bcp(returnAddress), FrameMarker]
  }

  lemma StackInTry(start: seq<Value>, t0: int, block: Value, returnAddress: nat)
    ensures InTry(start, t0, block, returnAddress) ==
      start + [Word(0)] + [Word(0xbeef), Word(-0xdead), Word(NORMAL), Word(t0)] + [block, Bcp(returnAddress), FrameMarker]
  {
  }

  /** What is below the frame of the body's call. */
  lemma BodyFrame(start: seq<Value>, t0: int, block: Value, returnAddress: nat) returns (words: seq<Value>)
    ensures |words| == 3 && words[2] == Word(NORMAL)
    ensures var inner := InTry(start, t0, block, returnAddress);
      && |inner| == |start| + 8 && TargetFrame(inner, |inner|, 1) && inner[|inner| - 2] == Bcp(returnAddress)
      && inner[..|inner| - 3] == start + [Word(0)] + words + [Word(t0)]
  {
    words := [Word(0xbeef), Word(-0xdead), Word(NORMAL)];
  }

  /** Inside a try every home, and the base, is beyond the new link. */
  lemma ReadyTry(start: seq<Value>, inner: seq<Value>, t0: int, env: seq<Home>, end: nat, last: nat)
    requires Ready(start, t0, env, end) && last + 1 < end
    requires inner == InTry(start, t0, ToBlock(|start| + 1), last + 1) && Linked(inner, |start| + 5)
    ensures Ready(inner, |start| + 5, AllThrough(env, |start| + 1), last)
  {
    hide Linked, AllThrough, TargetOk, Landing;
    var t, homes := |start| + 5, AllThrough(env, |start| + 1);
    ReadyThrough(start, inner, t0, env, end, last);
    assert inner[t - 1] == Word(t0) && inner[t + 1] == Bcp(last + 1);
    forall k | 0 <= k < |homes|
      ensures HomeOk(inner, t, homes[k]) && Landing(inner, homes[k]) > last
    {
      InsideTry(start, t0, env, end, k);
      TargetBeyond(inner, t, TargetOf(homes[k]));
    }
  }

  lemma InsideTry(start: seq<Value>, t0: int, env: seq<Home>, end: nat, k: nat)
    requires Ready(start, t0, env, end) && k < |env|
    ensures var home := AllThrough(env, |start| + 1)[k];
      home == Through(env[k], |start| + 1) && home.block.Some? && 0 <= TargetOf(home) <= |start| + 1
  {
    hide Linked, TargetOk, Landing;
    assert HomeOk(start, t0, env[k]);
  }

  lemma TargetBeyond(stack: seq<Value>, t: int, target: int)
    requires Linked(stack, t) && t != 0 && target <= t - 4 && TargetOk(stack, stack[t - 1].n, target)
    ensures TargetOk(stack, t, target)
  {
  }

  /** A body that does not complete normally has entered the finally. */
  lemma Interrupted(start: seq<Value>, inner: seq<Value>, t0: int, env: seq<Home>, end: nat, last: nat,
                    completion: Completion, outcome: Outcome, stack: seq<Value>, bcp: nat)
    returns (words: seq<Value>)
    requires Ready(start, t0, env, end) && inner == InTry(start, t0, ToBlock(|start| + 1), last + 1)
    requires !completion.Normal?
    requires Completed(inner, |start| + 5, AllThrough(env, |start| + 1), last, completion, outcome, stack, bcp)
    ensures bcp == last + 1 && Pending(start, env, completion, words)
    ensures |words| == 3 && |stack| == |start| + 6 && stack[..|start| + 5] == start + [Word(0)] + words + [Word(t0)]
  {
    hide Linked, AllThrough, TargetOk, Landing, HomeOk, ToBlock, Encode, TargetOf, ReasonOf, ResultOf;
    var t := |start| + 5;
    if completion.Exited? { InsideTry(start, t0, env, end, completion.level); }
    words := stack[t - 4..t - 1];
    assert inner[..t - 4] == start + [Word(0)] && inner[t - 1] == Word(t0) && inner[t] == ToBlock(|start| + 1);
    assert inner[t + 1] == Bcp(last + 1);
  }

  method ExecTry(i: Interpreter, c: Code, at: nat, env: seq<Home>, slot: int) returns (trace: seq<int>, outcome: Outcome)
    requires c.Try? && i.bcp == at && Closed(c, |env|) && slot < |i.stack|
    requires Ready(i.stack, i.trySp, env, at + Size(c))
    modifies i
    ensures i.trySp == old(i.trySp)
    ensures trace == Run(c, Local(old(i.stack), slot)).events
    ensures Completed(old(i.stack), i.trySp, env, at + Size(c), Run(c, Local(old(i.stack), slot)).completion,
                      outcome, i.stack, i.bcp)
    decreases c, 1
  {
    hide Ready, Completed, Local, Linked, Chain, Pending;
    ghost var start, t, b := i.stack, i.trySp, Run(c.body, Local(i.stack, slot)).completion;
    ReadyAbove(start, start, t, env, at + Size(c), at + Size(c.body) + 4);
    ghost var words;
    trace, words := ExecTryBody(i, c.body, at, env, slot);
    var more;
    more, outcome := ExecFinally(i, c, at + Size(c.body) + 2, env, start, b, words);
    trace := trace + more;
  }

  /** The finally, with its parameter, and the UNWIND at its end. */
  method ExecFinally(i: Interpreter, c: Code, at: nat, env: seq<Home>,
                     ghost start: seq<Value>, ghost b: Completion, ghost words: seq<Value>)
    returns (trace: seq<int>, outcome: Outcome)
    requires c.Try? && i.bcp == at && Closed(c, |env|)
    requires i.stack == start + [Word(0)] + words && Pending(start, env, b, words)
    requires Ready(start, i.trySp, env, at + Size(c.onException) + Size(c.otherwise) + 3)
    modifies i
    ensures i.trySp == old(i.trySp)
    ensures var f := if b.Thrown? then Run(c.onException, b.v) else Run(c.otherwise, NULL);
      && trace == f.events
      && Completed(start, i.trySp, env, at + Size(c.onException) + Size(c.otherwise) + 3,
                   if f.completion.Normal? then b else f.completion, outcome, i.stack, i.bcp)
    decreases c, 0
  {
    hide Ready, Completed, Linked, Pending, Encode;
    ghost var t, before := i.trySp, i.stack;
    var end := at + Size(c.onException) + Size(c.otherwise) + 3;
    PendingReason(start, env, b, words);
    var thrown := i.stack[|i.stack| - 1] == Word(THROWING);
    i.stack := i.stack + [if thrown then i.stack[|i.stack| - 3] else Object(NULL)];
    i.bcp := if thrown then at + 1 else at + 1 + Size(c.onException);
    var handler := if thrown then c.onException else c.otherwise;
    ghost var inner, f := i.stack, Run(handler, if b.Thrown? then b.v else NULL).completion;
    var last := i.bcp + Size(handler);
    ReadyAbove(start, inner, t, env, end, last);
    trace, outcome := Exec(i, handler, i.bcp, env, |i.stack| - 1);
    Continues(inner, t, env, last, f, outcome, i.stack, i.bcp);
    if outcome != Fatal && i.bcp == last {
      NormallyCompleted(inner, t, env, last, outcome, i.stack, i.bcp);
      i.Pop();
      assert i.stack == before;
      i.bcp := end - 2;
      outcome := ExecUnwind(i, env, end, start, b, words);
    } else {
      CompletedBelow(start, inner, t, env, end, last, f, outcome, i.stack, i.bcp);
    }
  }

  lemma PendingReason(start: seq<Value>, env: seq<Home>, completion: Completion, words: seq<Value>)
    requires Pending(start, env, completion, words)
    ensures |words| == 3 && (completion.Exited? ==> completion.level < |env|)
    ensures words[2] == Word(THROWING) <==> completion.Thrown?
    ensures words[2] == Word(NORMAL) <==> completion.Normal?
    ensures completion.Thrown? ==> words[0] == Object(completion.v)
  {
  }

  /** UNWIND, and the end of the try. */
  method ExecUnwind(i: Interpreter, ghost env: seq<Home>, end: nat,
                    ghost start: seq<Value>, ghost b: Completion, ghost words: seq<Value>)
    returns (outcome: Outcome)
    requires i.bcp + 2 == end && i.stack == start + [Word(0)] + words && Pending(start, env, b, words)
    requires Ready(start, i.trySp, env, end)
    modifies i
    ensures i.trySp == old(i.trySp)
    ensures Completed(start, i.trySp, env, end, b, outcome, i.stack, i.bcp)
  {
    hide Ready, Completed, Linked, Pending, Encode, Unwinding;
    ghost var t, outer := i.trySp, start + [Word(0)];
    PendingReason(start, env, b, words);
    assert i.stack[..|i.stack| - 3] == outer;
    if i.stack[|i.stack| - 1] == Word(NORMAL) {
      i.UnwindNormally();
      i.Pop();
      assert i.stack == start;
      i.bcp := end;
      outcome := FellThrough;
      NormallyCompleted(start, t, env, end, outcome, i.stack, i.bcp);
    } else {
      ghost var reason, target, result := Resumes(start, t, env, end, b, words);
      outcome := i.UnwindStep(reason, target, result);
      Resumed(start, t, env, end, b, reason, target, result, outcome, i.stack, i.bcp);
    }
  }

  /** Where the UNWIND at the end of a finally goes on to. */
  lemma Resumes(start: seq<Value>, t: int, env: seq<Home>, end: nat, completion: Completion, words: seq<Value>)
    returns (reason: Reason, target: int, result: Value)
    requires Ready(start, t, env, end) && Pending(start, env, completion, words) && !completion.Normal?
    ensures Unwinding(start + [Word(0)] + words, t, reason, target, result)
    ensures completion.Thrown? ==> reason == Throwing && target == 0 && result == Object(completion.v)
    ensures completion.Exited? ==>
      var home := Through(env[completion.level], |start| + 1);
      reason == ReasonOf(home) && target == TargetOf(home) && result == ResultOf(home, completion.v)
  {
    hide Linked, TargetOk, Encode, ToBlock, Landing;
    var outer := start + [Word(0)];
    assert (outer + words)[..|outer|] == outer;
    LinkedAbove(start, outer, t);
    if completion.Thrown? {
      reason, target, result := Throwing, 0, Object(completion.v);
      BaseIsTarget(outer, t);
    } else {
      ReadyThrough(start, outer, t, env, end, end);
      InsideTry(start, t, env, end, completion.level);
      var home := AllThrough(env, |start| + 1)[completion.level];
      assert HomeOk(outer, t, home);
      reason, target, result := ReasonOf(home), TargetOf(home), ResultOf(home, completion.v);
    }
  }

  lemma Resumed(start: seq<Value>, t: int, env: seq<Home>, end: nat, completion: Completion,
                reason: Reason, target: int, result: Value, outcome: Outcome, stack: seq<Value>, bcp: nat)
    requires Ready(start, t, env, end) && !completion.Normal? && (completion.Exited? ==> completion.level < |env|)
    requires completion.Thrown? ==> reason == Throwing && target == 0 && result == Object(completion.v)
    requires completion.Exited? ==>
      var home := Through(env[completion.level], |start| + 1);
      reason == ReasonOf(home) && target == TargetOf(home) && result == ResultOf(home, completion.v)
    requires var outer := start + [Word(0)];
      if target < t
      then LinkAt(outer, t) && outcome == EnteredHandler(t) && bcp == outer[t + 1].bcp
        && AtHandler(stack, outer, t, reason, target, result)
      else Arrived(outer, target, reason, result, outcome, stack, bcp)
    ensures Completed(start, t, env, end, completion, outcome, stack, bcp)
  {
    hide Linked, TargetOk, Encode, Landing;
    var outer := start + [Word(0)];
    assert start <= outer;
    LinkedUnfold(start, t);
    if completion.Thrown? {
      if t != 0 { HandlerBelow(start, outer, t); }
    } else {
      SameTarget(start, t, env, end, completion.level);
      var home := Through(env[completion.level], |start| + 1);
      ResumedHome(start, t, env[completion.level], completion.v, outcome, stack, bcp);
      if target < t { HandlerBelow(start, outer, t); }
    }
  }

  lemma ResumedHome(start: seq<Value>, t: int, home: Home, v: int, outcome: Outcome, stack: seq<Value>, bcp: nat)
    requires Linked(start, t) && HomeOk(start, t, home)
    ensures var through, outer := Through(home, |start| + 1), start + [Word(0)];
      Arrived(outer, TargetOf(through), ReasonOf(through), ResultOf(through, v), outcome, stack, bcp) ==>
        outcome == Transferred && Landed(start, home, v, stack, bcp)
  {
    hide Linked, TargetOk;
    var outer := start + [Word(0)];
    assert start <= outer;
    if home.Frame? {
      assert outer[..home.target - 2 - home.arity] == start[..home.target - 2 - home.arity];
    } else {
      assert outer[..home.depth] == start[..home.depth];
    }
  }

  /** A whole program: it does what its structure says and ends with an empty stack, unless an
      exception leaves it, which is fatal. */
  method RunProgram(c: Code) returns (trace: seq<int>, fatal: bool, i: Interpreter)
    requires Closed(c, 0)
    ensures trace == Run(c, NULL).events
    ensures fatal <==> Run(c, NULL).completion.Thrown?
    ensures !fatal ==> Run(c, NULL).completion == Normal && i.stack == [] && i.trySp == 0 && i.bcp == Size(c)
  {
    hide Run;
    i := new Interpreter([], 0, 0);
    var outcome;
    trace, outcome := Exec(i, c, 0, [], -1);
    fatal := outcome == Fatal;
  }
}
