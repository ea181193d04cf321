/** Scoped locks on mutexes with levels, as a protocol between any number of threads.
    Levels are what keeps threads from waiting for each other in a circle. */
module Locking {
  type Thread = nat
  type Mutex = nat

  /** Of every thread, the mutexes of its chain of lockers (innermost last), the mutex
      that it is about to lock, and the one that it is about to unlock. */
  datatype State = State(
    chains: map<Thread, seq<Mutex>>, waiting: map<Thread, Mutex>, releasing: map<Thread, Mutex>,
    owner: map<Mutex, Thread>, fatal: bool)

  datatype Step =
    | Enter(t: Thread, m: Mutex)    // check the level
    | Acquire(t: Thread)            // get the lock, and link the locker in
    | Leave(t: Thread, index: nat)  // unlink the locker at this place of the chain
    | Release(t: Thread)            // unlock

  /** What a thread may do; the one thing it may have to wait for is a free mutex. */
  predicate Enabled(s: State, step: Step)
  {
    && !s.fatal && step.t in s.chains
    && match step
       case Enter(t, _) => t !in s.waiting && t !in s.releasing
       case Acquire(t) => t in s.waiting && s.waiting[t] !in s.owner
       case Leave(t, index) => t !in s.waiting && t !in s.releasing && index < |s.chains[t]|
       case Release(t) => t in s.releasing
  }

  function Next(level: Mutex -> int, s: State, step: Step): State
    requires Enabled(s, step)
  {
    var t, chain := step.t, s.chains[step.t];
    match step
    case Enter(_, m) =>
      if chain != [] && level(m) <= level(chain[|chain| - 1]) then s.(fatal := true)
      else s.(waiting := s.waiting[t := m])
    case Acquire(_) =>
      var m := s.waiting[t];
      s.(chains := s.chains[t := chain + [m]], waiting := s.waiting - {t}, owner := s.owner[m := t])
    case Leave(_, index) =>
      var last := |chain| - 1;
      if index != last then s.(fatal := true)
      else s.(chains := s.chains[t := chain[..last]], releasing := s.releasing[t := chain[last]])
    case Release(_) =>
      s.(releasing := s.releasing - {t}, owner := s.owner - {s.releasing[t]})
  }

  ghost predicate Initial(s: State)
  {
    && s.waiting == map[] && s.releasing == map[] && s.owner == map[] && !s.fatal
    && forall t :: t in s.chains ==> s.chains[t] == []
  }

  /** A run, as the states that it goes through. */
  ghost predicate Run(level: Mutex -> int, states: seq<State>, steps: seq<Step>)
  {
    && |states| == |steps| + 1 && Initial(states[0])
    && forall i :: 0 <= i < |steps| ==> Enabled(states[i], steps[i]) && states[i + 1] == Next(level, states[i], steps[i])
  }

  // ----- What holds in every reachable state ------------------------------------------------

  ghost predicate Ascending(level: Mutex -> int, chain: seq<Mutex>)
  {
    forall i, j :: 0 <= i < j < |chain| ==> level(chain[i]) < level(chain[j])
  }

  ghost predicate Above(level: Mutex -> int, m: Mutex, chain: seq<Mutex>)
  {
    forall i :: 0 <= i < |chain| ==> level(chain[i]) < level(m)
  }

  ghost predicate Holds(s: State, t: Thread, m: Mutex)
  {
    t in s.chains && (m in s.chains[t] || (t in s.releasing && s.releasing[t] == m))
  }

  ghost predicate Orderly(level: Mutex -> int, s: State, t: Thread)
    requires t in s.chains
  {
    && Ascending(level, s.chains[t])
    && (t in s.waiting ==> t !in s.releasing && Above(level, s.waiting[t], s.chains[t]))
    && (t in s.releasing ==> Above(level, s.releasing[t], s.chains[t]))
  }

  ghost predicate Inv(level: Mutex -> int, s: State)
  {
    && (forall t :: t in s.chains ==> Orderly(level, s, t))
    && s.waiting.Keys <= s.chains.Keys && s.releasing.Keys <= s.chains.Keys
    && (forall m, t :: Holds(s, t, m) <==> m in s.owner && s.owner[m] == t)
  }

  lemma EnterKeepsInv(level: Mutex -> int, s: State, step: Step)
    requires Inv(level, s) && Enabled(s, step) && step.Enter?
    ensures Inv(level, Next(level, s, step))
  {
    var s' := Next(level, s, step);
    assert forall m, t :: Holds(s', t, m) <==> Holds(s, t, m);
    forall t | t in s'.chains ensures Orderly(level, s', t) {
      assert Orderly(level, s, t);
    }
  }

  lemma AcquireKeepsInv(level: Mutex -> int, s: State, step: Step)
    requires Inv(level, s) && Enabled(s, step) && step.Acquire?
    ensures Inv(level, Next(level, s, step))
  {
    var s' := Next(level, s, step);
    var mine := s.waiting[step.t];
    assert Orderly(level, s, step.t);
    forall m, t ensures Holds(s', t, m) <==> m in s'.owner && s'.owner[m] == t {
      assert Holds(s', t, m) <==> Holds(s, t, m) || (t == step.t && m == mine);
    }
    forall t | t in s'.chains ensures Orderly(level, s', t) {
      assert Orderly(level, s, t);
    }
  }

  lemma LeaveKeepsInv(level: Mutex -> int, s: State, step: Step)
    requires Inv(level, s) && Enabled(s, step) && step.Leave?
    ensures Inv(level, Next(level, s, step))
  {
    var s' := Next(level, s, step);
    var chain := s.chains[step.t];
    assert Orderly(level, s, step.t);
    assert chain == chain[..|chain| - 1] + [chain[|chain| - 1]];
    forall m, t ensures Holds(s', t, m) <==> Holds(s, t, m) {
    }
    forall t | t in s'.chains ensures Orderly(level, s', t) {
      assert Orderly(level, s, t);
    }
  }

  lemma ReleaseKeepsInv(level: Mutex -> int, s: State, step: Step)
    requires Inv(level, s) && Enabled(s, step) && step.Release?
    ensures Inv(level, Next(level, s, step))
  {
    var s' := Next(level, s, step);
    var mine := s.releasing[step.t];
    assert Orderly(level, s, step.t);
    assert mine !in s.chains[step.t];
    assert Holds(s, step.t, mine);
    forall m, t ensures Holds(s', t, m) <==> m in s'.owner && s'.owner[m] == t {
      assert Holds(s', t, m) <==> Holds(s, t, m) && m != mine;
    }
    forall t | t in s'.chains ensures Orderly(level, s', t) {
      assert Orderly(level, s, t);
    }
  }

  /** Every state of every run is orderly, however the threads are interleaved. */
  lemma {:induction false} InvAlways(level: Mutex -> int, states: seq<State>, steps: seq<Step>, i: nat)
    requires Run(level, states, steps) && i < |states|
    ensures Inv(level, states[i])
  {
    if i == 0 {
      forall t | t in states[0].chains ensures Orderly(level, states[0], t) {
      }
    } else {
      InvAlways(level, states, steps, i - 1);
      var s, step := states[i - 1], steps[i - 1];
      match step
      case Enter(_, _) => EnterKeepsInv(level, s, step);
      case Acquire(_) => AcquireKeepsInv(level, s, step);
      case Leave(_, _) => LeaveKeepsInv(level, s, step);
      case Release(_) => ReleaseKeepsInv(level, s, step);
    }
  }

  /** Comparing with the innermost locker is as good as comparing with all of them. */
  lemma FatalIff(level: Mutex -> int, s: State, step: Step)
    requires Inv(level, s) && Enabled(s, step) && step.Enter?
    ensures Next(level, s, step).fatal <==>
      exists i :: 0 <= i < |s.chains[step.t]| && level(step.m) <= level(s.chains[step.t][i])
  {
    assert Orderly(level, s, step.t);
    var chain := s.chains[step.t];
    if chain != [] {
      var last := chain[|chain| - 1];
      assert level(step.m) <= level(last) || level(last) < level(step.m);
    }
  }

  // ----- No deadlock ------------------------------------------------------------------------

  ghost predicate WaitsFor(s: State, t: Thread, u: Thread)
  {
    t in s.waiting && s.waiting[t] in s.owner && s.owner[s.waiting[t]] == u
  }

  ghost predicate Blocked(s: State, t: Thread)
  {
    t in s.waiting && s.waiting[t] in s.owner
  }

  /** A thread that waits for one that waits is after the lower mutex of the two. */
  lemma WaitingClimbs(level: Mutex -> int, s: State, t: Thread, u: Thread)
    requires Inv(level, s) && WaitsFor(s, t, u) && u in s.waiting
    ensures level(s.waiting[t]) < level(s.waiting[u])
  {
    assert Holds(s, u, s.waiting[t]);
    assert Orderly(level, s, u);
  }

  lemma {:induction false} ChainClimbs(level: Mutex -> int, s: State, path: seq<Thread>)
    requires Inv(level, s) && |path| > 1
    requires forall i :: 0 <= i < |path| - 1 ==> WaitsFor(s, path[i], path[i + 1])
    requires path[|path| - 1] in s.waiting
    ensures path[0] in s.waiting && level(s.waiting[path[0]]) < level(s.waiting[path[|path| - 1]])
  {
    var last := |path| - 1;
    assert WaitsFor(s, path[last - 1], path[last]);
    WaitingClimbs(level, s, path[last - 1], path[last]);
    if |path| <= 2 {
    } else {
      ChainClimbs(level, s, path[..last]);
    }
  }

  /** No thread waits for itself, directly or through others. */
  lemma NoCycle(level: Mutex -> int, s: State, path: seq<Thread>)
    requires Inv(level, s) && |path| > 1
    requires forall i :: 0 <= i < |path| - 1 ==> WaitsFor(s, path[i], path[i + 1])
    ensures path[0] != path[|path| - 1]
  {
    if path[|path| - 1] in s.waiting {
      ChainClimbs(level, s, path);
    } else {
      assert WaitsFor(s, path[0], path[1]);
    }
  }

  /** Following those that are waited for leads to a holder of a lock that can go on. */
  lemma {:induction false} SomeHolderRuns(level: Mutex -> int, s: State, t: Thread, candidates: set<Thread>)
    returns (u: Thread)
    requires Inv(level, s) && Blocked(s, t)
    requires forall v :: Blocked(s, v) && level(s.waiting[v]) >= level(s.waiting[t]) ==> v in candidates
    ensures u in s.chains && !Blocked(s, u) && exists m :: m in s.owner && s.owner[m] == u
    decreases |candidates|
  {
    u := s.owner[s.waiting[t]];
    assert Holds(s, u, s.waiting[t]);
    if !Blocked(s, u) {
    } else {
      WaitingClimbs(level, s, t, u);
      assert t in candidates;
      u := SomeHolderRuns(level, s, u, candidates - {t});
    }
  }

  /** Whenever a thread is blocked, some thread that holds a lock has a step to take. */
  lemma Progress(level: Mutex -> int, states: seq<State>, steps: seq<Step>, i: nat, t: Thread) returns (step: Step)
    requires Run(level, states, steps) && i < |states| && !states[i].fatal && Blocked(states[i], t)
    ensures Enabled(states[i], step) && exists m :: m in states[i].owner && states[i].owner[m] == step.t
  {
    InvAlways(level, states, steps, i);
    var s := states[i];
    var u := SomeHolderRuns(level, s, t, s.waiting.Keys);
    var m :| m in s.owner && s.owner[m] == u;
    assert Holds(s, u, m);
    if u in s.waiting {
      step := Acquire(u);
    } else if u in s.releasing {
      step := Release(u);
    } else {
      step := Leave(u, |s.chains[u]| - 1);
    }
  }
}
