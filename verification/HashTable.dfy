/** The open-addressing invariant of the hash index, and the rebuild primitive. */
module HashTable {
  import opened Options
  import opened Words
  import opened Probing

  const HASH_SIZE: nat := 0x1000  // 1 << HASH_SHIFT_

  ghost predicate PowerOfTwo(n: nat)
  {
    exists m: nat :: n == Pow2(m)
  }

  // ----- Probe paths --------------------------------------------------------------

  /** The first `j` probed slots are all in use. */
  ghost predicate Path(index: seq<int>, home: int, j: nat)
    requires |index| > 0
  {
    forall i: nat :: i < j ==> index[Probe(home, i, |index|)] != 0
  }

  /** The slot is found from `home` through slots in use only. */
  ghost predicate Reachable(index: seq<int>, home: int, slot: nat)
    requires |index| > 0
  {
    exists j: nat :: Probe(home, j, |index|) == slot && Path(index, home, j)
  }

  /** Every entry can be found from its own home slot, which its low bits name. */
  ghost predicate WellPlaced(index: seq<int>)
  {
    forall s :: 0 <= s < |index| && index[s] != 0 ==> Reachable(index, index[s], s)
  }

  /** Filling a free slot lengthens no path and cuts none. */
  lemma FillKeepsPath(index: seq<int>, home: int, j: nat, slot: nat, e: int)
    requires slot < |index| && e != 0 && Path(index, home, j)
    ensures Path(index[slot := e], home, j)
  {
    hide Probe;
  }

  lemma FillKeepsReachable(index: seq<int>, home: int, s: nat, slot: nat, e: int)
    requires slot < |index| && e != 0 && Reachable(index, home, s)
    ensures Reachable(index[slot := e], home, s)
  {
    hide Probe, Path;
    var j: nat :| Probe(home, j, |index|) == s && Path(index, home, j);
    FillKeepsPath(index, home, j, slot, e);
  }

  /** Putting an entry where its probe sequence first meets a free slot keeps every
      entry reachable. */
  lemma InsertWellPlaced(index: seq<int>, e: int, j: nat)
    requires |index| > 0 && e != 0 && WellPlaced(index)
    requires Path(index, e, j) && index[Probe(e, j, |index|)] == 0
    ensures WellPlaced(index[Probe(e, j, |index|) := e])
  {
    hide Probe, Path;
    var slot := Probe(e, j, |index|);
    var after := index[slot := e];
    forall s | 0 <= s < |after| && after[s] != 0
      ensures Reachable(after, after[s], s)
    {
      if s == slot {
        FillKeepsPath(index, e, j, slot, e);
      } else {
        FillKeepsReachable(index, index[s], s, slot, e);
      }
    }
  }

  // ----- Counting -----------------------------------------------------------------

  function CountUsed(index: seq<int>): (c: nat)
    ensures c <= |index|
    ensures c == |index| ==> forall s :: 0 <= s < |index| ==> index[s] != 0
  {
    if index == [] then 0
    else CountUsed(index[..|index| - 1]) + if index[|index| - 1] != 0 then 1 else 0
  }

  lemma {:induction false} CountUsedUpdate(index: seq<int>, slot: nat, e: int)
    requires slot < |index|
    ensures CountUsed(index[slot := e])
         == CountUsed(index) - (if index[slot] != 0 then 1 else 0) + (if e != 0 then 1 else 0)
    decreases |index|
  {
    var n := |index| - 1;
    if slot == n {
      assert index[slot := e][..n] == index[..n];
    } else {
      CountUsedUpdate(index[..n], slot, e);
      assert index[slot := e][..n] == index[..n][slot := e];
    }
  }

  lemma {:induction false} FreeSlotExists(index: seq<int>) returns (s: nat)
    requires CountUsed(index) < |index|
    ensures s < |index| && index[s] == 0
    decreases |index|
  {
    var n := |index| - 1;
    if index[n] == 0 {
      s := n;
    } else {
      s := FreeSlotExists(index[..n]);
    }
  }

  lemma {:induction false} CountUsedZero(index: seq<int>)
    requires forall s :: 0 <= s < |index| ==> index[s] == 0
    ensures CountUsed(index) == 0
  {
    if index == [] {
    } else {
      CountUsedZero(index[..|index| - 1]);
    }
  }

  /** The probe loop meets a free slot exactly if there is one. */
  lemma ProbingEndsIff(index: seq<int>, home: int, m: nat)
    requires |index| == Pow2(m)
    ensures (exists j: nat :: index[Probe(home, j, |index|)] == 0) <==> CountUsed(index) < |index|
  {
    hide Probe, Pow2;
    if CountUsed(index) < |index| {
      var free := FreeSlotExists(index);
      var j := AllVisited(home, free, m);
      assert index[Probe(home, j, |index|)] == 0;
    }
  }

  // ----- Rebuilding ------------------------------------------------------------------

  /** Finds the first free slot of a probe sequence: the inner loop of the rebuild. */
  method FirstFree(index: array<int>, home: int, ghost m: nat) returns (slot: nat, ghost j: nat)
    requires index.Length == Pow2(m)
    requires CountUsed(index[..]) < index.Length
    ensures slot == Probe(home, j, index.Length) && index[slot] == 0 && Path(index[..], home, j)
  {
    hide Probe, CountUsed, Pow2;
    ghost var n := index.Length;
    ghost var free := FreeSlotExists(index[..]);
    ghost var last := AllVisited(home, free, m);
    slot := home % index.Length;
    HomeProbe(home, n);
    var step := 1;
    j := 0;
    while index[slot] != 0
      invariant step == j + 1 && j <= last
      invariant slot == Probe(home, j, n) && Path(index[..], home, j)
      decreases last - j
    {
      NextProbe(home, j, n);
      slot := (slot + step) % index.Length;
      step := step + 1;
      j := j + 1;
    }
  }

  lemma HomeProbe(home: int, n: nat)
    requires n > 0
    ensures home % n == Probe(home, 0, n)
  {
  }

  /** How often each entry occurs. */
  ghost predicate SameEntries(a: seq<int>, b: seq<int>)
  {
    forall e: int :: e != 0 ==> multiset(a)[e] == multiset(b)[e]
  }

  lemma SameEntriesStep(after: seq<int>, slot: nat, done: seq<int>, e: int)
    requires slot < |after| && after[slot] == 0 && SameEntries(after, done)
    ensures SameEntries(after[slot := e], done + [e])
  {
    assert multiset(after[slot := e]) == multiset(after) - multiset{after[slot]} + multiset{e};
  }

  /** Enters everything in `oldIndex` into the empty index `newIndex`.  Free slots of the old
      index are entered too, as the zeros they are, so even for the last of them a
      free slot must remain: that is exactly when the loops end. */
  method RebuildHashIndex(oldIndex: array<int>, newIndex: array<int>, ghost m: nat)
    requires oldIndex != newIndex && newIndex.Length == Pow2(m)
    requires forall s :: 0 <= s < newIndex.Length ==> newIndex[s] == 0
    requires forall i :: 0 <= i < oldIndex.Length ==> CountUsed(oldIndex[..i]) < newIndex.Length
    modifies newIndex
    ensures SameEntries(newIndex[..], oldIndex[..])
    ensures WellPlaced(newIndex[..])
    ensures CountUsed(newIndex[..]) == CountUsed(oldIndex[..])
  {
    hide Probe, CountUsed, Pow2, Reachable, Path;
    CountUsedZero(newIndex[..]);
    EmptyRebuild(newIndex[..]);
    for i := 0 to oldIndex.Length
      invariant oldIndex[..] == old(oldIndex[..])
      invariant CountUsed(newIndex[..]) == CountUsed(oldIndex[..i])
      invariant WellPlaced(newIndex[..])
      invariant SameEntries(newIndex[..], oldIndex[..i])
    {
      var hashAndPosition := oldIndex[i];
      var slot, j := FirstFree(newIndex, hashAndPosition, m);
      ghost var before := newIndex[..];
      RebuildStep(before, oldIndex[..i], hashAndPosition, slot, j);
      newIndex[slot] := hashAndPosition;
      assert newIndex[..] == before[slot := hashAndPosition];
      assert oldIndex[..i + 1] == oldIndex[..i] + [hashAndPosition];
    }
    assert oldIndex[..oldIndex.Length] == oldIndex[..];
  }

  // ----- When the loops of a rebuild end --------------------------------------------------

  /** A probe loop that gives up after a number of attempts.  In a table without a free slot
      no number is enough; otherwise the size of the table is. */
  method FirstFreeWithin(index: array<int>, home: int, attempts: nat, ghost m: nat)
    returns (slot: Option<nat>, ghost j: nat)
    requires index.Length == Pow2(m)
    ensures slot.Some? ==>
      slot.value == Probe(home, j, index.Length) && index[slot.value] == 0 && Path(index[..], home, j)
    ensures slot.Some? ==> CountUsed(index[..]) < index.Length
    ensures CountUsed(index[..]) < index.Length <= attempts ==> slot.Some?
  {
    hide Probe, CountUsed, Pow2;
    ghost var n := index.Length;
    ghost var last := LastAttempt(index[..], home, m);
    var s := home % index.Length;
    HomeProbe(home, n);
    var step := 1;
    j := 0;
    while index[s] != 0
      invariant step == j + 1 && j <= attempts
      invariant s == Probe(home, j, n) && Path(index[..], home, j)
      invariant CountUsed(index[..]) < n ==> j <= last
      decreases attempts - j
    {
      if step > attempts {
        return None, j;
      }
      NextProbe(home, j, n);
      s := (s + step) % index.Length;
      step := step + 1;
      j := j + 1;
    }
    ProbingEndsIff(index[..], home, m);
    slot := Some(s);
  }

  lemma LastAttempt(index: seq<int>, home: int, m: nat) returns (j: nat)
    requires |index| == Pow2(m)
    ensures CountUsed(index) < |index| ==> j < |index| && index[Probe(home, j, |index|)] == 0
  {
    hide Probe, CountUsed, Pow2;
    j := 0;
    if CountUsed(index) < |index| {
      var free := FreeSlotExists(index);
      j := AllVisited(home, free, m);
    }
  }

  /** For every slot of the old index, even a free one, there is a free slot in the new one. */
  ghost predicate Fits(oldIndex: seq<int>, n: nat)
  {
    forall i :: 0 <= i < |oldIndex| ==> CountUsed(oldIndex[..i]) < n
  }

  /** The rebuild with loops that give up after a number of attempts: it comes to an end
      exactly if the old index fits. */
  method RebuildWithin(oldIndex: array<int>, newIndex: array<int>, attempts: nat, ghost m: nat) returns (done: bool)
    requires oldIndex != newIndex && newIndex.Length == Pow2(m)
    requires forall s :: 0 <= s < newIndex.Length ==> newIndex[s] == 0
    modifies newIndex
    ensures done ==> Fits(oldIndex[..], newIndex.Length)
    ensures Fits(oldIndex[..], newIndex.Length) && attempts >= newIndex.Length ==> done
  {
    hide Probe, CountUsed, Pow2, Reachable, Path;
    CountUsedZero(newIndex[..]);
    EmptyRebuild(newIndex[..]);
    for i := 0 to oldIndex.Length
      invariant oldIndex[..] == old(oldIndex[..])
      invariant CountUsed(newIndex[..]) == CountUsed(oldIndex[..i])
      invariant WellPlaced(newIndex[..]) && SameEntries(newIndex[..], oldIndex[..i])
      invariant forall k :: 0 <= k < i ==> CountUsed(oldIndex[..][..k]) < newIndex.Length
    {
      assert oldIndex[..][..i] == oldIndex[..i];
      var hashAndPosition := oldIndex[i];
      var slot, j := FirstFreeWithin(newIndex, hashAndPosition, attempts, m);
      if slot.None? {
        return false;
      }
      ghost var before := newIndex[..];
      RebuildStep(before, oldIndex[..i], hashAndPosition, slot.value, j);
      newIndex[slot.value] := hashAndPosition;
      assert newIndex[..] == before[slot.value := hashAndPosition];
      assert oldIndex[..i + 1] == oldIndex[..i] + [hashAndPosition];
    }
    done := true;
  }

  lemma EmptyRebuild(index: seq<int>)
    requires forall s :: 0 <= s < |index| ==> index[s] == 0
    ensures CountUsed([]) == 0 && SameEntries(index, []) && WellPlaced(index)
  {
  }

  lemma RebuildStep(index: seq<int>, done: seq<int>, e: int, slot: nat, j: nat)
    requires |index| > 0 && slot == Probe(e, j, |index|) && index[slot] == 0 && Path(index, e, j)
    requires WellPlaced(index) && SameEntries(index, done) && CountUsed(index) == CountUsed(done)
    ensures var after := index[slot := e];
      WellPlaced(after) && SameEntries(after, done + [e]) && CountUsed(after) == CountUsed(done + [e])
  {
    hide Probe, Path, WellPlaced, SameEntries;
    SameEntriesStep(index, slot, done, e);
    CountUsedUpdate(index, slot, e);
    assert (done + [e])[..|done|] == done;
    if e != 0 {
      InsertWellPlaced(index, e, j);
    } else {
      assert index[slot := e] == index;
    }
  }
}
