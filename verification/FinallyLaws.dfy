/** What finally is for, said about traces only: between entering a try and leaving it lies
    exactly what its body does, and how a body completes survives the finally. */
module FinallyLaws {
  import opened Options
  import opened Unwind
  import opened TryFinally

  // ----- Marks ---------------------------------------------------------------------------------

  /** Every try has a number.  Three kinds of marks are emitted: before a try, first thing in its
      finally, and, for whatever a program emits, the try whose body that is in. */
  function Enter(id: nat): int { 3 * id + 1 }

  function Leave(id: nat): int { 3 * id + 2 }

  function Inside(id: nat): int { 3 * id + 3 }

  const NOTE: int := -1  // all values

  function Tries(c: Code): nat
  {
    match c
    case Seq(first, second) => Tries(first) + Tries(second)
    case Scope(_, body) => Tries(body)
    case Call(_, body) => Tries(body)
    case Try(body, onException, otherwise) => 1 + Tries(body) + Tries(onException) + Tries(otherwise)
    case _ => 0
  }

  /** The program with marks.  Its tries have the numbers from `next` on, and `inside` is that of the
      try around it. */
  function Marked(c: Code, next: nat, inside: nat): Code
  {
    match c
    case Skip => Skip
    case Emit(_) => Emit(Literal(Inside(inside)))
    case Seq(first, second) => Seq(Marked(first, next, inside), Marked(second, next + Tries(first), inside))
    case Throw(_) => Throw(Literal(NOTE))
    case Exit(level, _) => Exit(level, Literal(NOTE))
    case Scope(locals, body) => Scope(locals, Marked(body, next, inside))
    case Call(arity, body) => Call(arity, Marked(body, next, inside))
    case Try(body, onException, otherwise) =>
      var after := next + 1 + Tries(body);
      MarkedTry(next, Marked(body, next + 1, next), Marked(onException, after, inside),
                Marked(otherwise, after + Tries(onException), inside))
  }

  function MarkedTry(id: nat, body: Code, onException: Code, otherwise: Code): Code
  {
    var leave := Emit(Literal(Leave(id)));
    Seq(Emit(Literal(Enter(id))), Try(body, Seq(leave, onException), Seq(leave, otherwise)))
  }

  /** The exception that a finally sees. */
  function Caught(completion: Completion): int
  {
    if completion.Thrown? then completion.v else NULL
  }

  lemma RunMarkedTry(id: nat, body: Code, onException: Code, otherwise: Code, x: int)
    ensures var b := Run(body, x);
      var v := Caught(b.completion);
      var f := Run(if b.completion.Thrown? then onException else otherwise, v);
      Run(MarkedTry(id, body, onException, otherwise), x) ==
      Behaviour([Enter(id)] + (b.events + ([Leave(id)] + f.events)), if f.completion.Normal? then b.completion else f.completion)
  {
    var leave := Emit(Literal(Leave(id)));
    var b := Run(body, x);
    var v := Caught(b.completion);
    assert Run(leave, v) == Behaviour([Leave(id)], Normal);
    assert Run(Emit(Literal(Enter(id))), x) == Behaviour([Enter(id)], Normal);
    var h := if b.completion.Thrown? then onException else otherwise;
    assert Run(Seq(leave, h), v).events == [Leave(id)] + Run(h, v).events;
    assert Run(Try(body, Seq(leave, onException), Seq(leave, otherwise)), x).events == b.events + ([Leave(id)] + Run(h, v).events);
  }

  /** The tries that are open after some events, or nothing if a try is left that is not the innermost open one,
      or if something is emitted that does not belong to that one. */
  function OpenAfter(events: seq<int>, open: seq<nat>): Option<seq<nat>>
    decreases |events|
  {
    if events == [] then Some(open)
    else
      var last := |events| - 1;
      match OpenAfter(events[..last], open)
      case None => None
      case Some(now) =>
        var e := events[last];
        if e <= 0 then Some(now)
        else
          var id: nat := (e - 1) / 3;
          if e == Enter(id) then Some(now + [id])
          else if now == [] || now[|now| - 1] != id then None
          else if e == Leave(id) then Some(now[..|now| - 1])
          else Some(now)
  }

  lemma {:induction false} OpenAfterBoth(a: seq<int>, b: seq<int>, open: seq<nat>)
    ensures OpenAfter(a + b, open) ==
      match OpenAfter(a, open) { case None => None case Some(now) => OpenAfter(b, now) }
    decreases |b|
  {
    if b == [] {
      assert a + b == a;
    } else {
      var last := |b| - 1;
      assert (a + b)[..|a + b| - 1] == a + b[..last] && (a + b)[|a + b| - 1] == b[last];
      OpenAfterBoth(a, b[..last], open);
    }
  }

  lemma OneEvent(e: int, open: seq<nat>)
    ensures e <= 0 ==> OpenAfter([e], open) == Some(open)
    ensures forall id: nat :: e == Enter(id) ==> OpenAfter([e], open) == Some(open + [id])
    ensures forall id: nat :: e == Leave(id) && open != [] && open[|open| - 1] == id ==>
      OpenAfter([e], open) == Some(open[..|open| - 1])
    ensures forall id: nat :: e == Inside(id) && open != [] && open[|open| - 1] == id ==> OpenAfter([e], open) == Some(open)
  {
    assert [e][..0] == [];
  }

  /** A program that is left in any way has left all the tries that it entered. */
  ghost predicate Clean(b: Behaviour, open: seq<nat>)
  {
    && OpenAfter(b.events, open) == Some(open)
    && match b.completion
       case Normal => true
       case Thrown(v) => v <= 0
       case Exited(_, v) => v <= 0
  }

  lemma {:induction false} AllClean(c: Code, next: nat, open: seq<nat>, exception: int)
    requires open != []
    ensures Clean(Run(Marked(c, next, open[|open| - 1]), exception), open)
    decreases c
  {
    hide OpenAfter;
    var inside := open[|open| - 1];
    match c
    case Skip => NothingOpens(open);
    case Emit(_) => OneEvent(Inside(inside), open);
    case Seq(first, second) =>
      AllClean(first, next, open, exception);
      AllClean(second, next + Tries(first), open, exception);
      OpenAfterBoth(Run(Marked(first, next, inside), exception).events,
                    Run(Marked(second, next + Tries(first), inside), exception).events, open);
    case Throw(_) => NothingOpens(open);
    case Exit(_, _) => NothingOpens(open);
    case Scope(_, body) =>
      AllClean(body, next, open, exception);
    case Call(_, body) =>
      AllClean(body, next, open, exception);
      CallClean(Run(Marked(body, next, inside), exception), open);
    case Try(_, _, _) =>
      TryClean(c, next, open, exception);
  }

  lemma NothingOpens(open: seq<nat>)
    ensures OpenAfter([], open) == Some(open)
  {
  }

  lemma CallClean(b: Behaviour, open: seq<nat>)
    requires Clean(b, open)
    ensures forall v :: v <= 0 ==> OpenAfter(b.events + [v], open) == Some(open)
  {
    hide OpenAfter;
    forall v | v <= 0
      ensures OpenAfter(b.events + [v], open) == Some(open)
    {
      OpenAfterBoth(b.events, [v], open);
      OneEvent(v, open);
    }
  }

  lemma {:induction false} TryClean(c: Code, next: nat, open: seq<nat>, exception: int)
    requires c.Try? && open != []
    ensures Clean(Run(Marked(c, next, open[|open| - 1]), exception), open)
    decreases c, 0
  {
    hide OpenAfter, Run, MarkedTry;
    var inside, after := open[|open| - 1], next + 1 + Tries(c.body);
    var body, onException := Marked(c.body, next + 1, next), Marked(c.onException, after, inside);
    var otherwise := Marked(c.otherwise, after + Tries(c.onException), inside);
    var b := Run(body, exception);
    var v := Caught(b.completion);
    AllClean(c.body, next + 1, open + [next], exception);
    AllClean(c.onException, after, open, v);
    AllClean(c.otherwise, after + Tries(c.onException), open, v);
    var f := Run(if b.completion.Thrown? then onException else otherwise, v);
    RunMarkedTry(next, body, onException, otherwise, exception);
    AroundBody(next, b.events, f.events, open);
  }

  lemma AroundBody(id: nat, body: seq<int>, finally: seq<int>, open: seq<nat>)
    requires OpenAfter(body, open + [id]) == Some(open + [id]) && OpenAfter(finally, open) == Some(open)
    ensures OpenAfter([Enter(id)] + (body + ([Leave(id)] + finally)), open) == Some(open)
  {
    hide OpenAfter, Enter, Leave;
    OneEvent(Enter(id), open);
    OneEvent(Leave(id), open + [id]);
    assert (open + [id])[..|open|] == open;
    OpenAfterBoth([Enter(id)], body + ([Leave(id)] + finally), open);
    OpenAfterBoth(body, [Leave(id)] + finally, open + [id]);
    OpenAfterBoth([Leave(id)], finally, open + [id]);
  }

  // ----- Each try once ---------------------------------------------------------------------------

  /** A mark counts at most once, and only if it is of one of the tries with numbers from `from` up to `to`. */
  ghost predicate OnceWithin(events: seq<int>, from: nat, to: nat)
  {
    forall id: nat ::
      multiset(events)[Leave(id)] == multiset(events)[Enter(id)] <= if from <= id < to then 1 else 0
  }

  /** How a marked program completes: no value is a mark. */
  predicate Unmarked(completion: Completion)
  {
    completion == Normal || completion.v <= 0
  }

  lemma OnceBoth(a: seq<int>, b: seq<int>, from: nat, middle: nat, to: nat)
    requires from <= middle <= to && OnceWithin(a, from, middle) && OnceWithin(b, middle, to)
    ensures OnceWithin(a + b, from, to) && OnceWithin(a, from, to) && OnceWithin(b, from, to)
  {
    hide Enter, Leave;
    assert multiset(a + b) == multiset(a) + multiset(b);
  }

  lemma OnceAround(id: nat, body: seq<int>, finally: seq<int>, from: nat, to: nat)
    requires id + 1 <= from <= to && OnceWithin(body, id + 1, from) && OnceWithin(finally, from, to)
    ensures OnceWithin([Enter(id)] + (body + ([Leave(id)] + finally)), id, to)
  {
    var all := [Enter(id)] + (body + ([Leave(id)] + finally));
    assert multiset(all) == multiset([Enter(id)]) + (multiset(body) + (multiset([Leave(id)]) + multiset(finally)));
    forall k: nat
      ensures multiset(all)[Leave(k)] == multiset(all)[Enter(k)] <= if id <= k < to then 1 else 0
    {
      assert multiset(all)[Leave(k)] == multiset(body)[Leave(k)] + multiset(finally)[Leave(k)] + if k == id then 1 else 0;
      assert multiset(all)[Enter(k)] == multiset(body)[Enter(k)] + multiset(finally)[Enter(k)] + if k == id then 1 else 0;
    }
  }

  /** What a call adds is no mark. */
  lemma CallOnce(b: Behaviour, from: nat, to: nat)
    requires OnceWithin(b.events, from, to)
    ensures forall v :: v <= 0 ==> OnceWithin(b.events + [v], from, to)
  {
    hide OnceWithin;
    forall v | v <= 0
      ensures OnceWithin(b.events + [v], from, to)
    {
      OnceLow(b.events, v, from, to);
    }
  }

  lemma OnceLow(events: seq<int>, v: int, from: nat, to: nat)
    requires OnceWithin(events, from, to) && v <= 0
    ensures OnceWithin(events + [v], from, to)
  {
    var all := events + [v];
    assert multiset(all) == multiset(events) + multiset([v]);
    forall k: nat
      ensures multiset(all)[Leave(k)] == multiset(all)[Enter(k)] <= if from <= k < to then 1 else 0
    {
      assert multiset(all)[Leave(k)] == multiset(events)[Leave(k)];
      assert multiset(all)[Enter(k)] == multiset(events)[Enter(k)];
    }
  }

  lemma {:induction false} AllOnce(c: Code, next: nat, inside: nat, exception: int)
    ensures var b := Run(Marked(c, next, inside), exception);
      OnceWithin(b.events, next, next + Tries(c)) && Unmarked(b.completion)
    decreases c
  {
    hide OnceWithin, MarkedTry, Enter, Leave;
    match c
    case Skip => FewOnce(inside, next);
    case Emit(_) => FewOnce(inside, next);
    case Throw(_) => FewOnce(inside, next);
    case Exit(_, _) => FewOnce(inside, next);
    case Seq(first, second) =>
      AllOnce(first, next, inside, exception);
      AllOnce(second, next + Tries(first), inside, exception);
      OnceBoth(Run(Marked(first, next, inside), exception).events,
               Run(Marked(second, next + Tries(first), inside), exception).events,
               next, next + Tries(first), next + Tries(c));
    case Scope(_, body) =>
      AllOnce(body, next, inside, exception);
    case Call(_, body) =>
      AllOnce(body, next, inside, exception);
      CallOnce(Run(Marked(body, next, inside), exception), next, next + Tries(c));
    case Try(_, _, _) =>
      TryOnce(c, next, inside, exception);
  }

  lemma FewOnce(inside: nat, next: nat)
    ensures OnceWithin([], next, next) && OnceWithin([Inside(inside)], next, next)
  {
    forall k: nat
      ensures multiset([Inside(inside)])[Leave(k)] == 0 && multiset([Inside(inside)])[Enter(k)] == 0
    {
      assert multiset([Inside(inside)]) == multiset{Inside(inside)};
    }
  }

  lemma {:induction false} TryOnce(c: Code, next: nat, inside: nat, exception: int)
    requires c.Try?
    ensures var b := Run(Marked(c, next, inside), exception);
      OnceWithin(b.events, next, next + Tries(c)) && Unmarked(b.completion)
    decreases c, 0
  {
    hide OnceWithin, Run, MarkedTry;
    var after := next + 1 + Tries(c.body);
    var last := after + Tries(c.onException);
    var body := Marked(c.body, next + 1, next);
    var onException, otherwise := Marked(c.onException, after, inside), Marked(c.otherwise, last, inside);
    var v := Caught(Run(body, exception).completion);
    AllOnce(c.body, next + 1, next, exception);
    AllOnce(c.onException, after, inside, v);
    AllOnce(c.otherwise, last, inside, v);
    MarkedTryOnce(next, body, onException, otherwise, after, last, next + Tries(c), exception);
  }

  lemma MarkedTryOnce(id: nat, body: Code, onException: Code, otherwise: Code, after: nat, last: nat, end: nat, x: int)
    requires id < after <= last <= end
    requires OnceWithin(Run(body, x).events, id + 1, after) && Unmarked(Run(body, x).completion)
    requires var f := Run(onException, Caught(Run(body, x).completion));
      OnceWithin(f.events, after, last) && Unmarked(f.completion)
    requires var f := Run(otherwise, Caught(Run(body, x).completion));
      OnceWithin(f.events, last, end) && Unmarked(f.completion)
    ensures var b := Run(MarkedTry(id, body, onException, otherwise), x);
      OnceWithin(b.events, id, end) && Unmarked(b.completion)
  {
    hide OnceWithin, Run, MarkedTry;
    var b := Run(body, x);
    var v := Caught(b.completion);
    OnceBoth(Run(onException, v).events, Run(otherwise, v).events, after, last, end);
    RunMarkedTry(id, body, onException, otherwise, x);
    OnceAround(id, b.events, Run(if b.completion.Thrown? then onException else otherwise, v).events, after, end);
  }

  // ----- On the interpreter ------------------------------------------------------------------------

  lemma {:induction false} MarkedIsClosed(c: Code, next: nat, inside: nat, levels: nat)
    requires Closed(c, levels)
    ensures Closed(Marked(c, next, inside), levels)
    decreases c
  {
    match c
    case Seq(first, second) =>
      MarkedIsClosed(first, next, inside, levels);
      MarkedIsClosed(second, next + Tries(first), inside, levels);
    case Scope(_, body) => MarkedIsClosed(body, next, inside, levels + 1);
    case Call(_, body) => MarkedIsClosed(body, next, inside, levels + 1);
    case Try(body, onException, otherwise) =>
      var after := next + 1 + Tries(body);
      MarkedIsClosed(body, next + 1, next, levels);
      MarkedIsClosed(onException, after, inside, levels);
      MarkedIsClosed(otherwise, after + Tries(onException), inside, levels);
      ClosedTry(next, Marked(body, next + 1, next), Marked(onException, after, inside),
                Marked(otherwise, after + Tries(onException), inside), levels);
    case _ =>
  }

  lemma ClosedTry(id: nat, body: Code, onException: Code, otherwise: Code, levels: nat)
    requires Closed(body, levels) && Closed(onException, levels) && Closed(otherwise, levels)
    ensures Closed(MarkedTry(id, body, onException, otherwise), levels)
  {
    var leave := Emit(Literal(Leave(id)));
    ClosedParts(leave, onException, leave, levels);
    ClosedParts(leave, otherwise, leave, levels);
    ClosedParts(body, Seq(leave, onException), Seq(leave, otherwise), levels);
    ClosedParts(Emit(Literal(Enter(id))), Try(body, Seq(leave, onException), Seq(leave, otherwise)), leave, levels);
  }

  lemma ClosedParts(a: Code, b: Code, c: Code, levels: nat)
    requires Closed(a, levels) && Closed(b, levels) && Closed(c, levels)
    ensures Closed(Seq(a, b), levels) && Closed(Try(a, b, c), levels)
  {
  }

  /** Any program, with marks: each try that is entered is left, once, after everything that its body
      emits and before anything around it is emitted, however the body ends. */
  method RunMarked(c: Code) returns (trace: seq<int>, fatal: bool)
    requires Closed(c, 0)
    ensures OpenAfter(trace, [0]) == Some([0])
    ensures forall id: nat :: multiset(trace)[Leave(id)] == multiset(trace)[Enter(id)] <= 1
  {
    hide Run, OpenAfter, Marked;
    MarkedIsClosed(c, 1, 0, 0);
    AllClean(c, 1, [0], NULL);
    AllOnce(c, 1, 0, NULL);
    var i;
    trace, fatal, i := RunProgram(Marked(c, 1, 0));
  }

  // ----- How a body completes survives -----------------------------------------------------------

  /** Code inside some tries, the last of which is the outermost. */
  function InTries(handlers: seq<Code>, c: Code): Code
  {
    if handlers == [] then c
    else
      var last := |handlers| - 1;
      Try(InTries(handlers[..last], c), handlers[last], handlers[last])
  }

  /** A finally that always completes normally. */
  ghost predicate Quiet(h: Code)
  {
    forall x :: Run(h, x).completion == Normal
  }

  ghost predicate AllQuiet(handlers: seq<Code>)
  {
    forall k :: 0 <= k < |handlers| ==> Quiet(handlers[k])
  }

  /** What some finallys emit when the exception is `v`. */
  function AllEvents(handlers: seq<Code>, v: int): seq<int>
  {
    if handlers == [] then []
    else
      var last := |handlers| - 1;
      AllEvents(handlers[..last], v) + Run(handlers[last], v).events
  }

  /** However code completes, it still does so from inside tries, and behind it the finallys run, the
      innermost first. */
  lemma {:induction false} CompletionSurvives(handlers: seq<Code>, c: Code, x: int)
    requires AllQuiet(handlers)
    ensures var b, all := Run(c, x), Run(InTries(handlers, c), x);
      all.completion == b.completion && all.events == b.events + AllEvents(handlers, Caught(b.completion))
  {
    hide Run, Quiet;
    if handlers == [] {
    } else {
      var last := |handlers| - 1;
      CompletionSurvives(handlers[..last], c, x);
      assert Quiet(handlers[last]);
      QuietTry(InTries(handlers[..last], c), handlers[last], x);
    }
  }

  lemma QuietTry(body: Code, h: Code, x: int)
    requires Quiet(h)
    ensures var b := Run(body, x);
      Run(Try(body, h, h), x) == Behaviour(b.events + Run(h, Caught(b.completion)).events, b.completion)
  {
  }

  /** The two parts of a finally: one for exceptions, which it sees, and one for everything else. */
  lemma FinallySees(handlers: seq<Code>, c: Code, w: int, x: int)
    requires AllQuiet(handlers)
    ensures var b := Run(Try(InTries(handlers, c), Emit(Exception), Emit(Literal(w))), x);
      && b.events != []
      && b.events[|b.events| - 1] == match Run(c, x).completion { case Thrown(v) => v case _ => w }
      && b.completion == Run(c, x).completion
  {
    hide InTries, AllQuiet;
    CompletionSurvives(handlers, c, x);
    var v := Caught(Run(c, x).completion);
    assert Run(Emit(Exception), v) == Behaviour([v], Normal);
    assert Run(Emit(Literal(w)), NULL) == Behaviour([w], Normal);
  }

  /** A finally that leaves does so whatever its body does. */
  lemma FinallyOverrides(body: Code, level: nat, v: int, x: int)
    ensures var leave := Exit(level, Literal(v));
      Run(Try(body, leave, leave), x) == Behaviour(Run(body, x).events, Exited(level, v))
    ensures var throw := Throw(Literal(v));
      Run(Try(body, throw, throw), x) == Behaviour(Run(body, x).events, Thrown(v))
  {
    var b := Run(body, x);
    assert b.events + [] == b.events;
    assert Run(Exit(level, Literal(v)), Caught(b.completion)) == Behaviour([], Exited(level, v));
    assert Run(Throw(Literal(v)), Caught(b.completion)) == Behaviour([], Thrown(v));
  }

  /** A value that is returned through tries arrives at the caller. */
  lemma ReturnArrives(handlers: seq<Code>, arity: nat, v: int, x: int)
    requires AllQuiet(handlers)
    ensures var b := Run(Call(arity, InTries(handlers, Exit(0, Literal(v)))), x);
      b.completion == Normal && b.events != [] && b.events[|b.events| - 1] == v
  {
    hide InTries, AllQuiet;
    CompletionSurvives(handlers, Exit(0, Literal(v)), x);
  }

  /** A value that is thrown through tries arrives at the catch. */
  lemma ThrowArrives(handlers: seq<Code>, v: int, x: int)
    requires AllQuiet(handlers)
    ensures var b := Run(Catch(InTries(handlers, Throw(Literal(v)))), x);
      b.completion == Normal && b.events != [] && b.events[|b.events| - 1] == v
  {
    hide InTries, AllQuiet, Catch;
    CompletionSurvives(handlers, Throw(Literal(v)), x);
    CatchReturnsException(InTries(handlers, Throw(Literal(v))), x);
  }

  /** A branch out of a scope through tries continues behind that scope, and skips what is before. */
  lemma BranchArrives(handlers: seq<Code>, n: nat, m: nat, skipped: Code, rest: Code, v: int, x: int)
    requires AllQuiet(handlers)
    ensures var near := Scope(n, Seq(InTries(handlers, Exit(0, Literal(v))), skipped));
      Run(Seq(near, rest), x).events == Run(InTries(handlers, Exit(0, Literal(v))), x).events + Run(rest, x).events
    ensures var far := Scope(m, Seq(Scope(n, InTries(handlers, Exit(1, Literal(v)))), skipped));
      Run(Seq(far, rest), x).events == Run(InTries(handlers, Exit(1, Literal(v))), x).events + Run(rest, x).events
  {
    hide InTries, AllQuiet;
    CompletionSurvives(handlers, Exit(0, Literal(v)), x);
    CompletionSurvives(handlers, Exit(1, Literal(v)), x);
    var a, b := InTries(handlers, Exit(0, Literal(v))), InTries(handlers, Exit(1, Literal(v)));
    assert Run(Scope(n, Seq(a, skipped)), x) == Behaviour(Run(a, x).events, Normal);
    assert Run(Scope(n, b), x) == Behaviour(Run(b, x).events, Exited(0, v));
    assert Run(Scope(m, Seq(Scope(n, b), skipped)), x) == Behaviour(Run(b, x).events, Normal);
  }

  lemma {:induction false} InTriesClosed(handlers: seq<Code>, c: Code, levels: nat)
    requires Closed(c, levels) && forall k :: 0 <= k < |handlers| ==> Closed(handlers[k], levels)
    ensures Closed(InTries(handlers, c), levels)
  {
    if handlers == [] {
    } else {
      InTriesClosed(handlers[..|handlers| - 1], c, levels);
    }
  }

  /** The same on the interpreter. */
  method ReturnThroughTries(handlers: seq<Code>, arity: nat, v: int) returns (trace: seq<int>)
    requires AllQuiet(handlers) && forall k :: 0 <= k < |handlers| ==> Closed(handlers[k], 1)
    ensures trace != [] && trace[|trace| - 1] == v
  {
    hide Run, InTries, AllQuiet;
    InTriesClosed(handlers, Exit(0, Literal(v)), 1);
    ReturnArrives(handlers, arity, v, NULL);
    var fatal, i;
    trace, fatal, i := RunProgram(Call(arity, InTries(handlers, Exit(0, Literal(v)))));
  }

  method ReturnFromTry(a: int, b: int, c: int, d: int, v: int) returns (trace: seq<int>)
    ensures trace == [a, b, c, v]
  {
    var body := Seq(Emit(Literal(b)), Exit(0, Literal(v)));
    var try := Try(body, Skip, Emit(Literal(c)));
    assert Run(body, NULL) == Behaviour([b], Exited(0, v));
    assert Run(try, NULL) == Behaviour([b, c], Exited(0, v));
    assert Run(Seq(try, Emit(Literal(d))), NULL) == Behaviour([b, c], Exited(0, v));
    var program := Seq(Emit(Literal(a)), Seq(try, Emit(Literal(d))));
    assert Run(program, NULL) == Behaviour([a, b, c], Exited(0, v));
    ClosedParts(Emit(Literal(b)), Exit(0, Literal(v)), Skip, 1);
    ClosedParts(body, Skip, Emit(Literal(c)), 1);
    ClosedParts(try, Emit(Literal(d)), Skip, 1);
    ClosedParts(Emit(Literal(a)), Seq(try, Emit(Literal(d))), Skip, 1);
    var fatal, i;
    trace, fatal, i := RunProgram(Call(0, program));
  }

  method CatchFromTry(a: int, b: int, c: int, v: int) returns (trace: seq<int>)
    ensures trace == [a, v, v, c]
  {
    var body := Seq(Emit(Literal(a)), Throw(Literal(v)));
    var try := Try(body, Emit(Exception), Emit(Literal(b)));
    assert Run(body, NULL) == Behaviour([a], Thrown(v));
    assert Run(try, NULL) == Behaviour([a, v], Thrown(v));
    CatchReturnsException(try, NULL);
    CatchClosed(try);
    assert Run(Catch(try), NULL) == Behaviour([a, v, v], Normal);
    var fatal, i;
    trace, fatal, i := RunProgram(Seq(Catch(try), Emit(Literal(c))));
  }

  lemma CatchClosed(block: Code)
    requires Closed(block, 1)
    ensures Closed(Catch(block), 0)
  {
    assert Closed(Seq(block, Exit(0, Literal(NULL))), 1);
  }

  method BreakFromTry(a: int, b: int, c: int, n: nat) returns (trace: seq<int>)
    ensures trace == [a, c]
  {
    var try := Try(Exit(0, Literal(NULL)), Skip, Emit(Literal(a)));
    assert Run(try, NULL) == Behaviour([a], Exited(0, NULL));
    assert Run(Seq(try, Emit(Literal(b))), NULL) == Behaviour([a], Exited(0, NULL));
    var scope := Scope(n, Seq(try, Emit(Literal(b))));
    assert Run(scope, NULL) == Behaviour([a], Normal);
    ClosedParts(Exit(0, Literal(NULL)), Skip, Emit(Literal(a)), 1);
    ClosedParts(try, Emit(Literal(b)), Skip, 1);
    ClosedParts(scope, Emit(Literal(c)), Skip, 0);
    var fatal, i;
    trace, fatal, i := RunProgram(Seq(scope, Emit(Literal(c))));
  }
}
