/** The watermark that the interpreter compares its stack pointer with.  It is both the
    end of the usable stack and, when another thread sets it to the highest address, the
    request to stop.  All accesses of both threads are steps of their own here. */
module Preemption {
  import opened Options

  const MARKER: nat := 0xffff_ffff_ffff_ffff
  const RESERVED: nat := 3  // slots that are kept free for handling overflows

  datatype Result = PREEMPTED | YIELDED | TERMINATED

  /** Where the interpreter is. */
  datatype Pc =
    | Running
    | Loading(seen: nat, limit: nat)                // in the loop that installs a watermark
    | Storing(seen: nat, next: Option<Result>)      // in the loop that removes it
    | Handling                                      // the check found too little space
    | Consuming                                     // the marker was found
    | Leaving                                       // the marker was reset
    | Stopped(result: Result)

  datatype State = State(watermark: nat, pc: Pc, limit: Option<nat>)

  datatype Step =
    | Preempt                          // by another thread, at any time
    | StartLoad(limit: nat)
    | TryLoad
    | StartStore(result: Option<Result>)
    | TryStore
    | CheckStack(sp: nat, height: nat)
    | Handle
    | CheckPreempt
    | Consume
    | Leave

  function Watermark(limit: Option<nat>): nat
  {
    match limit
    case None => 0
    case Some(l) => l + RESERVED
  }

  predicate Enabled(s: State, step: Step)
  {
    match step
    case Preempt => true
    case StartLoad(limit) => (s.pc.Running? || s.pc.Stopped?) && s.limit.None? && limit + RESERVED < MARKER
    case TryLoad => s.pc.Loading?
    case StartStore(result) => s.pc.Running? && s.limit.Some? && result != Some(PREEMPTED)
    case TryStore => s.pc.Storing?
    case CheckStack(sp, height) => s.pc.Running? && s.limit.Some? && height <= sp < MARKER
    case Handle => s.pc.Handling?
    case CheckPreempt => s.pc.Running? && s.limit.Some?
    case Consume => s.pc.Consuming?
    case Leave => s.pc.Leaving?
  }

  function Stored(s: State, result: Option<Result>): State
  {
    s.(pc := if result.None? then Running else Stopped(result.value), limit := None)
  }

  function Next(s: State, step: Step): State
    requires Enabled(s, step)
  {
    match step
    case Preempt => s.(watermark := MARKER)
    case StartLoad(limit) => s.(pc := Loading(s.watermark, limit))
    case TryLoad =>
      if s.pc.seen == MARKER then s.(pc := Running, limit := Some(s.pc.limit))
      else if s.watermark == s.pc.seen then State(s.pc.limit + RESERVED, Running, Some(s.pc.limit))
      else s.(pc := Loading(s.watermark, s.pc.limit))
    case StartStore(result) => s.(pc := Storing(s.watermark, result))
    case TryStore =>
      if s.pc.seen == MARKER then Stored(s, s.pc.next)
      else if s.watermark == s.pc.seen then Stored(s.(watermark := 0), s.pc.next)
      else s.(pc := Storing(s.watermark, s.pc.next))
    case CheckStack(sp, height) => if sp - height < s.watermark then s.(pc := Handling) else s
    case Handle => s.(pc := if s.watermark == MARKER then Consuming else Running)
    case CheckPreempt => if s.watermark == MARKER then s.(pc := Consuming) else s
    case Consume => s.(watermark := 0, pc := Leaving)
    case Leave => s.(pc := Storing(s.watermark, Some(PREEMPTED)))
  }

  ghost predicate Run(states: seq<State>, steps: seq<Step>)
  {
    && |states| == |steps| + 1 && states[0] == State(0, Stopped(YIELDED), None)
    && forall i :: 0 <= i < |steps| ==> Enabled(states[i], steps[i]) && states[i + 1] == Next(states[i], steps[i])
  }

  // ----- What holds in every reachable state ------------------------------------------------

  /** Apart from the marker, the watermark is what the interpreter itself put there. */
  ghost predicate Inv(s: State)
  {
    && (s.limit.Some? ==> s.limit.value + RESERVED < MARKER)
    && (s.watermark != MARKER ==>
      match s.pc
      case Running => s.watermark == Watermark(s.limit)
      case Handling => s.watermark == Watermark(s.limit)
      case Loading(seen, _) => s.watermark == seen == 0
      case Storing(seen, _) => s.watermark == seen
      case Consuming => false
      case Leaving => s.watermark == 0
      case Stopped(_) => s.watermark == 0)
    && match s.pc
       case Loading(seen, limit) => s.limit == None && limit + RESERVED < MARKER && (seen == MARKER ==> s.watermark == MARKER)
       case Storing(seen, _) => s.limit.Some? && (seen == MARKER ==> s.watermark == MARKER)
       case Stopped(_) => s.limit == None
       case Running => true
       case _ => s.limit.Some?
  }

  lemma {:induction false} InvAlways(states: seq<State>, steps: seq<Step>, i: nat)
    requires Run(states, steps) && i < |states|
    ensures Inv(states[i])
  {
    if i == 0 {
    } else {
      InvAlways(states, steps, i - 1);
      assert Enabled(states[i - 1], steps[i - 1]) && states[i] == Next(states[i - 1], steps[i - 1]);
    }
  }

  /** A request once made stays until it is consumed, whatever else happens. */
  lemma {:induction false} MarkerStays(states: seq<State>, steps: seq<Step>, i: nat, j: nat)
    requires Run(states, steps) && i < j < |states| && steps[i].Preempt?
    requires forall k :: i < k < j ==> !steps[k].Consume?
    ensures states[j].watermark == MARKER
  {
    assert Enabled(states[j - 1], steps[j - 1]) && states[j] == Next(states[j - 1], steps[j - 1]);
    if i + 1 == j {
    } else {
      MarkerStays(states, steps, i, j - 1);
      InvAlways(states, steps, j - 1);
    }
  }

  /** It is consumed by the next check, of either kind. */
  lemma NoCheckMisses(states: seq<State>, steps: seq<Step>, i: nat)
    requires Run(states, steps) && i < |steps| && states[i].watermark == MARKER
    ensures steps[i].CheckStack? ==> states[i + 1].pc.Handling?
    ensures steps[i].Handle? || steps[i].CheckPreempt? ==> states[i + 1].pc.Consuming?
    ensures states[i].pc.Handling? || states[i].pc.Consuming? ==>
      steps[i].Preempt? || steps[i].Handle? || steps[i].Consume?
  {
    assert Enabled(states[i], steps[i]) && states[i + 1] == Next(states[i], steps[i]);
  }

  predicate IsCheck(step: Step)
  {
    step.CheckStack? || step.CheckPreempt?
  }

  /** From the first check after a request on, the interpreter does nothing else before it has
      consumed the request: at most it handles the failed check, once. */
  lemma {:induction false} CheckLeadsOut(states: seq<State>, steps: seq<Step>, i: nat, k: nat, j: nat)
    requires Run(states, steps) && i < k < j < |states| && steps[i].Preempt? && IsCheck(steps[k])
    requires forall l :: i < l < j ==> !steps[l].Consume?
    ensures states[j].pc.Handling? || states[j].pc.Consuming?
    ensures forall l :: k < l < j ==> steps[l].Preempt? || steps[l].Handle?
    ensures forall l :: k < l < j && steps[l].Handle? ==> states[j].pc.Consuming? && steps[k].CheckStack?
    ensures forall l, m :: k < l < m < j && steps[l].Handle? ==> !steps[m].Handle?
    ensures steps[k].CheckPreempt? ==> states[j].pc.Consuming?
  {
    MarkerStays(states, steps, i, j - 1);
    NoCheckMisses(states, steps, j - 1);
    if k + 1 == j {
    } else {
      CheckLeadsOut(states, steps, i, k, j - 1);
      assert Enabled(states[j - 1], steps[j - 1]) && states[j] == Next(states[j - 1], steps[j - 1]);
    }
  }

  ghost predicate OnTheWayOut(pc: Pc)
  {
    pc.Leaving? || (pc.Storing? && pc.next == Some(PREEMPTED)) || pc == Stopped(PREEMPTED)
  }

  /** After consuming a request the interpreter does nothing but stop with that result. */
  lemma {:induction false} ConsumedMeansPreempted(states: seq<State>, steps: seq<Step>, i: nat, j: nat)
    requires Run(states, steps) && i < j < |states| && steps[i].Consume?
    requires forall k :: i < k < j ==> !states[k].pc.Stopped?
    ensures OnTheWayOut(states[j].pc)
  {
    assert Enabled(states[j - 1], steps[j - 1]) && states[j] == Next(states[j - 1], steps[j - 1]);
    if i + 1 == j {
    } else {
      ConsumedMeansPreempted(states, steps, i, j - 1);
    }
  }

  /** A request is consumed once: each time it takes another one. */
  lemma {:induction false} MarkerHasCause(states: seq<State>, steps: seq<Step>, j: nat) returns (i: nat)
    requires Run(states, steps) && j < |states| && states[j].watermark == MARKER
    ensures i < j && steps[i].Preempt? && forall k :: i < k < j ==> !steps[k].Consume?
  {
    InvAlways(states, steps, j - 1);
    assert Enabled(states[j - 1], steps[j - 1]) && states[j] == Next(states[j - 1], steps[j - 1]);
    if steps[j - 1].Preempt? {
      i := j - 1;
    } else {
      i := MarkerHasCause(states, steps, j - 1);
    }
  }

  lemma ConsumedOnce(states: seq<State>, steps: seq<Step>, first: nat, second: nat) returns (i: nat)
    requires Run(states, steps) && first < second < |steps| && steps[first].Consume? && steps[second].Consume?
    ensures first < i < second && steps[i].Preempt?
  {
    InvAlways(states, steps, second);
    assert Enabled(states[second], steps[second]);
    i := MarkerHasCause(states, steps, second);
  }

  /** Without a request, the check compares with the end of the usable stack. */
  lemma CheckIsExact(states: seq<State>, steps: seq<Step>, i: nat)
    requires Run(states, steps) && i < |steps| && steps[i].CheckStack? && states[i].watermark != MARKER
    ensures states[i + 1].pc.Handling? <==> steps[i].sp - steps[i].height < states[i].limit.value + RESERVED
  {
    InvAlways(states, steps, i);
    assert Enabled(states[i], steps[i]) && states[i + 1] == Next(states[i], steps[i]);
  }

  /** The loops make at most one more attempt after a failed one: only a request can make
      an attempt fail, and then the watermark is left alone. */
  lemma LoopsEnd(states: seq<State>, steps: seq<Step>, i: nat)
    requires Run(states, steps) && i < |steps|
    requires steps[i].TryLoad? || steps[i].TryStore?
    requires states[i + 1].pc.Loading? || states[i + 1].pc.Storing?
    ensures states[i].watermark == MARKER && states[i + 1].pc.seen == MARKER
  {
    InvAlways(states, steps, i);
    assert Enabled(states[i], steps[i]) && states[i + 1] == Next(states[i], steps[i]);
  }

  /** One more step, from the last state `s` of a run. */
  lemma RunOn(states: seq<State>, steps: seq<Step>, s: State, step: Step, next: State)
    requires Run(states, steps) && states[|steps|] == s && Enabled(s, step) && next == Next(s, step)
    ensures Run(states + [next], steps + [step]) && (states + [next])[|steps| + 1] == next
  {
    hide Enabled, Next;
    var all, done := states + [next], steps + [step];
    forall i | 0 <= i < |done|
      ensures Enabled(all[i], done[i]) && all[i + 1] == Next(all[i], done[i])
    {
      assert i < |steps| ==> all[i] == states[i] && all[i + 1] == states[i + 1] && done[i] == steps[i];
    }
  }

  /** A running interpreter can always be stopped: a request, a check, and the way out. */
  lemma CanBePreempted(states: seq<State>, steps: seq<Step>) returns (later: seq<State>)
    requires Run(states, steps) && states[|steps|].pc == Running && states[|steps|].limit.Some?
    ensures Run(states + later, steps + [Preempt, CheckPreempt, Consume, Leave, TryStore])
    ensures |later| == 5 && later[4] == State(0, Stopped(PREEMPTED), None)
  {
    var s := states[|steps|];
    var a, b, c := State(MARKER, Running, s.limit), State(MARKER, Consuming, s.limit), State(0, Leaving, s.limit);
    var d, e := State(0, Storing(0, Some(PREEMPTED)), s.limit), State(0, Stopped(PREEMPTED), None);
    later := [a, b, c, d, e];
    hide Run;
    RunOn(states, steps, s, Preempt, a);
    RunOn(states + [a], steps + [Preempt], a, CheckPreempt, b);
    RunOn(states + [a] + [b], steps + [Preempt] + [CheckPreempt], b, Consume, c);
    RunOn(states + [a] + [b] + [c], steps + [Preempt] + [CheckPreempt] + [Consume], c, Leave, d);
    RunOn(states + [a] + [b] + [c] + [d], steps + [Preempt] + [CheckPreempt] + [Consume] + [Leave], d, TryStore, e);
    assert states + [a] + [b] + [c] + [d] + [e] == states + later;
    assert steps + [Preempt] + [CheckPreempt] + [Consume] + [Leave] + [TryStore] ==
      steps + [Preempt, CheckPreempt, Consume, Leave, TryStore];
  }

  /** A stopped one can always be started: then the watermark is that of its stack. */
  lemma CanBeStarted(states: seq<State>, steps: seq<Step>, limit: nat) returns (later: seq<State>)
    requires Run(states, steps) && states[|steps|].pc.Stopped? && states[|steps|].watermark != MARKER
    requires limit + RESERVED < MARKER
    ensures Run(states + later, steps + [StartLoad(limit), TryLoad])
    ensures |later| == 2 && later[1] == State(limit + RESERVED, Running, Some(limit))
  {
    InvAlways(states, steps, |steps|);
    var a, b := State(0, Loading(0, limit), None), State(limit + RESERVED, Running, Some(limit));
    later := [a, b];
    RunOn(states, steps, states[|steps|], StartLoad(limit), a);
    RunOn(states + [a], steps + [StartLoad(limit)], a, TryLoad, b);
    assert states + [a] + [b] == states + later;
    assert steps + [StartLoad(limit)] + [TryLoad] == steps + [StartLoad(limit), TryLoad];
  }
}
