/** Iterating a hashed collection: the backing is walked with a stride, and tombstones
    may tell how far to skip.  `hash_do` is the bytecode's part, the rest is what the
    collection does when the bytecode bails out. */
module HashDo {
  import opened Options
  import opened Collections

  const MANY: nat := 10

  // ----- Strides and skips -----------------------------------------------------------

  /** 1 for sets, 2 for maps, negative when going backwards. */
  type Step = s: int | s in {-2, -1, 1, 2} witness 1

  function Stride(step: Step): (s: int)
    ensures s == 1 || s == 2
  {
    if step < 0 then -(step as int) else step
  }

  predicate OnStride(t: int, step: Step)
  {
    Stride(step) == 1 || t % 2 == 0
  }

  predicate Between(from: int, to: int, t: int)
  {
    from <= t < to || to < t <= from
  }

  /** From `from` up to but without `to`, in either direction, only tombstones lie on
      the stride. */
  ghost predicate AllTombs<K, V>(entries: seq<Item<K, V>>, step: Step, from: int, to: int)
  {
    forall t :: 0 <= t < |entries| && Between(from, to, t) && OnStride(t, step) ==> entries[t].Tombstone?
  }

  ghost predicate SkipOk<K, V>(entries: seq<Item<K, V>>, step: Step, i: nat)
    requires i < |entries|
  {
    entries[i].Tombstone? && entries[i].skip != 0 ==>
      && OnStride(i, step) && OnStride(entries[i].skip, step)
      && AllTombs(entries, step, i, i + entries[i].skip) && i + entries[i].skip <= |entries|
  }

  /** Skip distances never jump over an entry or past the end, and in a map a key is a tombstone exactly
      if its value is. */
  ghost predicate Valid<K, V>(entries: seq<Item<K, V>>, step: Step)
  {
    (forall i :: 0 <= i < |entries| ==> SkipOk(entries, step, i)) && Paired(entries, step)
  }

  ghost predicate Paired<K, V>(entries: seq<Item<K, V>>, step: Step)
  {
    Stride(step) == 2 ==>
      && |entries| % 2 == 0
      && forall i :: 0 <= i < |entries| - 1 && i % 2 == 0 ==> (entries[i].Tombstone? <==> entries[i + 1].Tombstone?)
  }

  /** The same entries at the same places; only skip distances may differ. */
  ghost predicate SameItems<K, V>(a: seq<Item<K, V>>, b: seq<Item<K, V>>)
  {
    |a| == |b| && forall i :: 0 <= i < |a| ==> !a[i].Tombstone? || !b[i].Tombstone? ==> a[i] == b[i]
  }

  // ----- The plain strided scan ----------------------------------------------------------

  /** What the block is called with: a key and, in a map, the value behind it. */
  type Arguments<K, V> = seq<Item<K, V>>

  function ArgumentsAt<K, V>(entries: seq<Item<K, V>>, c: nat, step: Step): Arguments<K, V>
    requires c < |entries|
  {
    if Stride(step) == 2 && c + 1 < |entries| then [entries[c], entries[c + 1]] else [entries[c]]
  }

  function LiveFrom<K, V>(entries: seq<Item<K, V>>, c: int, step: Step): seq<Arguments<K, V>>
    decreases if step > 0 then |entries| - c else c + 1
  {
    if !(0 <= c < |entries|) then []
    else if !entries[c].Tombstone? then [ArgumentsAt(entries, c, step)] + LiveFrom(entries, c + step, step)
    else LiveFrom(entries, c + step, step)
  }

  function StartOf(length: nat, step: Step): int
  {
    if step > 0 then 0 else length + step
  }

  /** `c` is on the stride, and not before the start of the walk. */
  predicate OnWalk(length: nat, c: int, step: Step)
  {
    OnStride(c, step) && if step > 0 then 0 <= c else c < length
  }

  predicate Ahead(c: int, to: int, step: Step)
  {
    if step > 0 then c <= to else to <= c
  }

  /** Skipping over tombstones loses nothing. */
  lemma {:induction false} LiveFromSkip<K, V>(entries: seq<Item<K, V>>, c: int, to: int, step: Step)
    requires OnWalk(|entries|, c, step) && OnStride(to, step) && Ahead(c, to, step)
    requires AllTombs(entries, step, c, to)
    ensures LiveFrom(entries, c, step) == LiveFrom(entries, to, step)
    decreases if step > 0 then to - c else c - to
  {
    if c == to || !(0 <= c < |entries|) {
    } else {
      assert entries[c].Tombstone?;
      LiveFromSkip(entries, c + step, to, step);
    }
  }

  lemma {:induction false} LiveFromSame<K, V>(a: seq<Item<K, V>>, b: seq<Item<K, V>>, c: int, step: Step)
    requires SameItems(a, b) && Valid(a, step) && OnStride(c, step)
    ensures LiveFrom(a, c, step) == LiveFrom(b, c, step)
    decreases if step > 0 then |a| - c else c + 1
  {
    if !(0 <= c < |a|) {
    } else {
      LiveFromSame(a, b, c + step, step);
    }
  }

  /** Recording a longer distance is safe if only tombstones are jumped. */
  lemma SetSkip<K, V>(entries: seq<Item<K, V>>, step: Step, i: nat, d: int)
    requires Valid(entries, step) && i < |entries| && entries[i].Tombstone? && d != 0
    requires OnStride(i, step) && OnStride(d, step) && AllTombs(entries, step, i, i + d) && i + d <= |entries|
    ensures Valid(entries[i := Tombstone(d)], step) && SameItems(entries[i := Tombstone(d)], entries)
  {
    var after := entries[i := Tombstone(d)];
    forall k | 0 <= k < |after|
      ensures SkipOk(after, step, k)
    {
      assert SkipOk(entries, step, k);
      TombsStay(entries, after, step, k, k + if after[k].Tombstone? then after[k].skip else 0);
    }
  }

  lemma TombsStay<K, V>(entries: seq<Item<K, V>>, after: seq<Item<K, V>>, step: Step, from: int, to: int)
    requires |after| == |entries| && forall t :: 0 <= t < |entries| ==> entries[t].Tombstone? ==> after[t].Tombstone?
    ensures AllTombs(entries, step, from, to) ==> AllTombs(after, step, from, to)
  {
  }

  lemma TombsJoin<K, V>(entries: seq<Item<K, V>>, step: Step, a: int, b: int, c: int)
    requires AllTombs(entries, step, a, b) && AllTombs(entries, step, b, c)
    requires (a <= b <= c) || (c <= b <= a)
    ensures AllTombs(entries, step, a, c)
  {
    forall t | 0 <= t < |entries| && Between(a, c, t) && OnStride(t, step)
      ensures entries[t].Tombstone?
    {
      assert Between(a, b, t) || Between(b, c, t);
    }
  }

  // ----- Changes between iterations ----------------------------------------------------------

  /** Removing a key (and its value) leaves every recorded distance right. */
  lemma RemoveKeepsValid<K, V>(entries: seq<Item<K, V>>, step: Step, i: nat)
    requires Valid(entries, step) && i < |entries| && OnStride(i, step)
    ensures Valid(Removed(entries, i, step), step)
  {
    var after := Removed(entries, i, step);
    forall k | 0 <= k < |after|
      ensures SkipOk(after, step, k)
    {
      assert SkipOk(entries, step, k);
      if after[k].Tombstone? {
        TombsStay(entries, after, step, k, k + after[k].skip);
      }
    }
  }

  function Removed<K, V>(entries: seq<Item<K, V>>, i: nat, step: Step): (r: seq<Item<K, V>>)
    requires i < |entries| && (Stride(step) == 2 ==> i + 1 < |entries|)
    ensures |r| == |entries|
  {
    if Stride(step) == 2 then entries[i := Tombstone(0)][i + 1 := Tombstone(0)] else entries[i := Tombstone(0)]
  }

  /** Appending does too, because no distance leads past the end. */
  lemma AppendKeepsValid<K, V>(entries: seq<Item<K, V>>, more: seq<Item<K, V>>, step: Step)
    requires Valid(entries, step)
    requires |more| == Stride(step) && forall k :: 0 <= k < |more| ==> !more[k].Tombstone?
    ensures Valid(entries + more, step)
  {
    forall k | 0 <= k < |entries + more|
      ensures SkipOk(entries + more, step, k)
    {
      if k < |entries| {
        assert SkipOk(entries, step, k);
      }
    }
  }

  // ----- One activation of the bytecode ------------------------------------------------------

  datatype Outcome<K, V> = CallBlock(at: int, arguments: Arguments<K, V>) | Done | BailOut(from: int)

  /** Passes over tombstones until an entry is found or the backing ends: the loop of
      `hash_do`.  If a tombstone was passed at all, the first of them is at `start`. */
  method PassTombs<K, V>(entries: seq<Item<K, V>>, start: int, step: Step) returns (c: int, tombstonesSkipped: int)
    requires Valid(entries, step) && OnWalk(|entries|, start, step)
    ensures OnStride(c, step) && Ahead(start, c, step) && AllTombs(entries, step, start, c)
    ensures 0 <= c < |entries| ==> !entries[c].Tombstone?
    ensures c != start ==> 0 <= start < |entries| && entries[start].Tombstone?
  {
    hide AllTombs;
    c := start;
    tombstonesSkipped := 0;
    NoTombs(entries, step, c);
    while 0 <= c < |entries| && entries[c].Tombstone?
      invariant OnStride(c, step) && Ahead(start, c, step) && AllTombs(entries, step, start, c)
      invariant c != start ==> 0 <= start < |entries| && entries[start].Tombstone?
      decreases if step > 0 then |entries| - c else c + 1
    {
      if c != start {
        tombstonesSkipped := tombstonesSkipped + 1;
      }
      var distance := entries[c].skip;
      assert SkipOk(entries, step, c);
      if distance != 0 && (distance > 0 <==> step > 0) {
        TombsJoin(entries, step, start, c, c + distance);
        c := c + distance;
      } else {
        OneTomb(entries, step, c);
        TombsJoin(entries, step, start, c, c + step);
        c := c + step;
      }
    }
  }

  /** Goes on from the entry handled last, or starts the walk. */
  method HashDo<K, V>(b: Collection<K, V>, current: Option<int>, step: Step) returns (r: Outcome<K, V>)
    requires Valid(b.backing, step)
    requires current.Some? ==> OnWalk(|b.backing|, current.value + step, step)
    modifies b`backing
    ensures Valid(b.backing, step) && SameItems(b.backing, old(b.backing)) && |b.backing| == |old(b.backing)|
    ensures var c := if current.Some? then current.value + step else StartOf(|b.backing|, step);
      && LiveFrom(b.backing, c, step) == LiveFrom(old(b.backing), c, step)
      && match r
         case CallBlock(at, arguments) =>
           && 0 <= at < |b.backing| && !b.backing[at].Tombstone? && arguments == ArgumentsAt(b.backing, at, step)
           && OnStride(at, step) && Ahead(c, at, step)
           && LiveFrom(b.backing, c, step) == [arguments] + LiveFrom(b.backing, at + step, step)
           && (b.backing == old(b.backing)
             || (0 <= c < |b.backing| && old(b.backing)[c].Tombstone? && b.backing == old(b.backing)[c := Tombstone(at - c)]))
         case Done => LiveFrom(b.backing, c, step) == [] && b.backing == old(b.backing)
         case BailOut(from) =>
           && from == c && OnWalk(|b.backing|, c, step) && 0 <= c < |b.backing|
           && b.backing[c] == Tombstone(0) && b.backing == old(b.backing)
  {
    hide AllTombs, SkipOk, SameItems;
    SameAsSelf(b.backing);
    var start := if current.Some? then current.value + step else StartOf(|b.backing|, step);
    var c, tombstonesSkipped := PassTombs(b.backing, start, step);
    LiveFromSkip(b.backing, start, c, step);
    if !(0 <= c < |b.backing|) {
      return Done;
    }
    if c != start && tombstonesSkipped > MANY {
      if b.backing[start].skip == 0 {
        return BailOut(start);
      }
      RecordSkip(b, start, c, step);
    }
    return CallBlock(c, ArgumentsAt(b.backing, c, step));
  }

  /** The first tombstone passed learns the whole distance. */
  method RecordSkip<K, V>(b: Collection<K, V>, start: int, c: int, step: Step)
    requires Valid(b.backing, step) && OnStride(start, step) && OnStride(c, step) && start != c <= |b.backing|
    requires 0 <= start < |b.backing| && b.backing[start].Tombstone? && AllTombs(b.backing, step, start, c)
    modifies b`backing
    ensures Valid(b.backing, step) && SameItems(b.backing, old(b.backing))
    ensures b.backing == old(b.backing)[start := Tombstone(c - start)]
    ensures forall k: int :: OnStride(k, step) ==> LiveFrom(b.backing, k, step) == LiveFrom(old(b.backing), k, step)
  {
    SetSkip(b.backing, step, start, c - start);
    b.backing := b.backing[start := Tombstone(c - start)];
    forall k: int | OnStride(k, step)
      ensures LiveFrom(b.backing, k, step) == LiveFrom(old(b.backing), k, step)
    {
      LiveFromSame(b.backing, old(b.backing), k, step);
    }
  }

  // ----- Whole iterations ------------------------------------------------------------------

  /** `skip`: distances that lead backwards are ignored. */
  function ForwardSkip(skip: int): int
  {
    if skip < 1 then 1 else skip
  }

  /** `skip_backwards`: distances that lead forwards are ignored. */
  function BackwardSkip(skip: int, step: Step): int
  {
    if skip > -1 then step else skip
  }

  method SkipForward<K, V>(b: Collection<K, V>, i: nat, step: Step) returns (next: int)
    requires Valid(b.backing, step) && step > 0
    requires i < |b.backing| && b.backing[i].Tombstone? && OnStride(i, step)
    modifies b`backing
    ensures Valid(b.backing, step) && SameItems(b.backing, old(b.backing))
    ensures forall k: int :: OnStride(k, step) ==> LiveFrom(b.backing, k, step) == LiveFrom(old(b.backing), k, step)
    ensures i < next && OnStride(next, step)
    ensures LiveFrom(b.backing, i, step) == LiveFrom(b.backing, next, step)
  {
    hide AllTombs, SameItems, LiveFrom;
    var skip := 0;
    next := i;
    NoTombs(b.backing, step, i);
    SameAsSelf(b.backing);
    while next < |b.backing| && b.backing[next].Tombstone?
      invariant b.backing == old(b.backing)
      invariant i <= next == i + skip <= |b.backing| && AllTombs(b.backing, step, i, next)
      invariant skip == 0 ==> next == i
      invariant OnStride(next, step) || (next < |b.backing| && b.backing[next].Tombstone? && OnStride(next + 1, step))
      decreases |b.backing| - next
    {
      assert SkipOk(b.backing, step, next);
      var nextSkip := ForwardSkip(b.backing[next].skip);
      SkipIsSafe(b.backing, step, next, nextSkip);
      TombsJoin(b.backing, step, i, next, next + nextSkip);
      skip := skip + nextSkip;
      next := next + nextSkip;
    }
    LiveFromSkip(b.backing, i, next, step);
    if skip > MANY {
      RecordSkip(b, i, next, step);
    }
  }

  lemma SkipIsSafe<K, V>(entries: seq<Item<K, V>>, step: Step, i: nat, d: int)
    requires i < |entries| && entries[i].Tombstone? && SkipOk(entries, step, i)
    requires d == entries[i].skip || (d == 1 && step > 0)
    ensures AllTombs(entries, step, i, i + d)
  {
  }

  method SkipBackward<K, V>(b: Collection<K, V>, i: nat, step: Step) returns (next: int)
    requires Valid(b.backing, step) && step < 0
    requires i < |b.backing| && b.backing[i].Tombstone? && OnStride(i, step)
    modifies b`backing
    ensures Valid(b.backing, step) && SameItems(b.backing, old(b.backing))
    ensures forall k: int :: OnStride(k, step) ==> LiveFrom(b.backing, k, step) == LiveFrom(old(b.backing), k, step)
    ensures next < i && OnStride(next, step)
    ensures LiveFrom(b.backing, i, step) == LiveFrom(b.backing, next, step)
  {
    hide AllTombs, SameItems, LiveFrom;
    var skip := 0;
    next := i;
    NoTombs(b.backing, step, i);
    SameAsSelf(b.backing);
    while next >= 0 && b.backing[next].Tombstone?
      invariant b.backing == old(b.backing)
      invariant next == i + skip && next <= i && AllTombs(b.backing, step, i, next)
      invariant skip == 0 ==> next == i
      invariant OnStride(next, step)
      decreases next + 1
    {
      assert SkipOk(b.backing, step, next);
      var nextSkip := BackwardSkip(b.backing[next].skip, step);
      if nextSkip == step {
        OneTomb(b.backing, step, next);
      }
      TombsJoin(b.backing, step, i, next, next + nextSkip);
      skip := skip + nextSkip;
      next := next + nextSkip;
    }
    LiveFromSkip(b.backing, i, next, step);
    if skip < -(MANY as int) {
      RecordSkip(b, i, next, step);
    }
  }

  /** One round of the loop in the collection: an entry, or a stretch of tombstones. */
  method Visit<K, V>(b: Collection<K, V>, i: nat, step: Step) returns (found: seq<Arguments<K, V>>, next: int)
    requires Valid(b.backing, step) && i < |b.backing| && OnWalk(|b.backing|, i, step)
    modifies b`backing
    ensures Valid(b.backing, step) && SameItems(b.backing, old(b.backing)) && |b.backing| == |old(b.backing)|
    ensures OnWalk(|b.backing|, next, step) && if step > 0 then i < next else next < i
    ensures LiveFrom(old(b.backing), i, step) == found + LiveFrom(b.backing, next, step)
  {
    hide Valid, SameItems, LiveFrom;
    SameAsSelf(b.backing);
    LiveFromHere(b.backing, i, step);
    if !b.backing[i].Tombstone? {
      found, next := [ArgumentsAt(b.backing, i, step)], i + step;
    } else if step > 0 {
      found := [];
      next := SkipForward(b, i, step);
      SameLength(b.backing, old(b.backing));
    } else {
      found := [];
      next := SkipBackward(b, i, step);
      SameLength(b.backing, old(b.backing));
    }
    assert [] + LiveFrom(b.backing, next, step) == LiveFrom(b.backing, next, step);
  }

  lemma LiveFromHere<K, V>(entries: seq<Item<K, V>>, c: nat, step: Step)
    requires c < |entries|
    ensures !entries[c].Tombstone? ==>
      LiveFrom(entries, c, step) == [ArgumentsAt(entries, c, step)] + LiveFrom(entries, c + step, step)
  {
  }

  lemma LiveFromEnd<K, V>(entries: seq<Item<K, V>>, c: int, step: Step)
    requires !(0 <= c < |entries|)
    ensures LiveFrom(entries, c, step) == []
  {
  }

  lemma SameLength<K, V>(a: seq<Item<K, V>>, b: seq<Item<K, V>>)
    requires SameItems(a, b)
    ensures |a| == |b|
  {
  }

  lemma Regroup<T>(a: seq<T>, b: seq<T>, c: seq<T>)
    ensures a + (b + c) == (a + b) + c
  {
  }

  /** The loop in the collection that takes over where the bytecode bailed out. */
  method Continue<K, V>(b: Collection<K, V>, from: int, step: Step) returns (delivered: seq<Arguments<K, V>>)
    requires Valid(b.backing, step) && OnWalk(|b.backing|, from, step)
    modifies b`backing
    ensures Valid(b.backing, step) && SameItems(b.backing, old(b.backing))
    ensures delivered == LiveFrom(old(b.backing), from, step)
  {
    hide Valid, SameItems, LiveFrom, OnWalk;
    SameAsSelf(b.backing);
    var i := from;
    delivered := [];
    while 0 <= i < |b.backing|
      invariant Valid(b.backing, step) && SameItems(b.backing, old(b.backing)) && |b.backing| == |old(b.backing)|
      invariant OnWalk(|b.backing|, i, step)
      invariant delivered + LiveFrom(b.backing, i, step) == LiveFrom(old(b.backing), from, step)
      decreases if step > 0 then |b.backing| - i else i + 1
    {
      ghost var before := b.backing;
      var found;
      found, i := Visit(b, i, step);
      SameTransitive(b.backing, before, old(b.backing));
      Regroup(delivered, found, LiveFrom(b.backing, i, step));
      delivered := delivered + found;
    }
    LiveFromEnd(b.backing, i, step);
  }

  lemma SameTransitive<K, V>(a: seq<Item<K, V>>, b: seq<Item<K, V>>, c: seq<Item<K, V>>)
    requires SameItems(a, b) && SameItems(b, c)
    ensures SameItems(a, c) && |a| == |c|
  {
  }

  /** One activation of the bytecode and what follows it: a call of the block, or the rest of
      the walk. */
  method Activate<K, V>(b: Collection<K, V>, current: Option<int>, step: Step)
    returns (found: seq<Arguments<K, V>>, next: Option<int>)
    requires Valid(b.backing, step)
    requires current.Some? ==> OnWalk(|b.backing|, current.value + step, step)
    modifies b`backing
    ensures Valid(b.backing, step) && SameItems(b.backing, old(b.backing)) && |b.backing| == |old(b.backing)|
    ensures var c := if current.Some? then current.value + step else StartOf(|b.backing|, step);
      LiveFrom(old(b.backing), c, step) == found + if next.Some? then LiveFrom(b.backing, next.value + step, step) else []
    ensures next.Some? ==>
      && OnWalk(|b.backing|, next.value + step, step) && 0 <= next.value < |b.backing|
      && Ahead(if current.Some? then current.value + step else StartOf(|b.backing|, step), next.value, step)
  {
    hide Valid, SameItems, LiveFrom;
    var r := HashDo(b, current, step);
    match r {
      case CallBlock(at, arguments) =>
        found, next := [arguments], Some(at);
      case Done =>
        found, next := [], None;
      case BailOut(from) =>
        ghost var middle := b.backing;
        found := Continue(b, from, step);
        SameTransitive(b.backing, middle, old(b.backing));
        next := None;
    }
  }

  /** A whole `do`, forwards or backwards: the block sees exactly the entries that a
      plain strided scan would see, in that order, whatever the skip distances are. */
  method Do<K, V>(b: Collection<K, V>, step: Step) returns (delivered: seq<Arguments<K, V>>)
    requires Valid(b.backing, step)
    modifies b`backing
    ensures Valid(b.backing, step) && SameItems(b.backing, old(b.backing))
    ensures delivered == LiveFrom(old(b.backing), StartOf(|old(b.backing)|, step), step)
  {
    hide Valid, SameItems, LiveFrom, OnWalk;
    SameAsSelf(b.backing);
    ghost var all := LiveFrom(b.backing, StartOf(|b.backing|, step), step);
    var current: Option<int>;
    delivered, current := Activate(b, None, step);
    while current.Some?
      invariant Valid(b.backing, step) && SameItems(b.backing, old(b.backing)) && |b.backing| == |old(b.backing)|
      invariant current.Some? ==> OnWalk(|b.backing|, current.value + step, step) && 0 <= current.value < |b.backing|
      invariant delivered + (if current.Some? then LiveFrom(b.backing, current.value + step, step) else []) == all
      decreases current.Some?, if current.None? then 0 else if step > 0 then |b.backing| - current.value else current.value + 1
    {
      ghost var before := b.backing;
      var found;
      found, current := Activate(b, current, step);
      SameTransitive(b.backing, before, old(b.backing));
      Regroup(delivered, found, if current.Some? then LiveFrom(b.backing, current.value + step, step) else []);
      delivered := delivered + found;
    }
  }

  lemma NoTombs<K, V>(entries: seq<Item<K, V>>, step: Step, c: int)
    ensures AllTombs(entries, step, c, c)
  {
  }

  lemma OneTomb<K, V>(entries: seq<Item<K, V>>, step: Step, c: int)
    requires 0 <= c < |entries| && entries[c].Tombstone? && OnStride(c, step)
    ensures AllTombs(entries, step, c, c + step)
  {
  }

  lemma SameAsSelf<K, V>(entries: seq<Item<K, V>>)
    ensures SameItems(entries, entries)
  {
  }
}
