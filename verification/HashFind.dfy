/** The HASH_FIND bytecode: a search of the hash index that suspends itself at every
    block call and is restarted with the block's result. */
module HashFind {
  import opened Options
  import opened Words
  import opened Probing
  import opened HashTable
  import opened Collections

  const APPEND: int := -1
  const INVALID_SLOT: int := -1

  // ----- Index entries --------------------------------------------------------------

  /** The position plus one, and the low bits of the hash. */
  function EntryOf(position: nat, hash: int): (e: int)
    ensures e > 0
  {
    (position + 1) * HASH_SIZE + hash % HASH_SIZE
  }

  function PositionOf(e: int): int
  {
    e / HASH_SIZE - 1
  }

  lemma EntryParts(p: nat, h: int)
    ensures PositionOf(EntryOf(p, h)) == p
    ensures EntryOf(p, h) % HASH_SIZE == h % HASH_SIZE
  {
  }

  lemma EntryFromParts(e: int, p: nat, h: int)
    requires PositionOf(e) == p && e % HASH_SIZE == h % HASH_SIZE
    ensures e == EntryOf(p, h)
  {
  }

  // ----- The table --------------------------------------------------------------------

  ghost predicate EntriesOk<K, V>(index: seq<int>, backing: seq<Item<K, V>>)
  {
    forall s :: 0 <= s < |index| && index[s] != 0 ==>
      0 <= PositionOf(index[s]) < |backing| && !backing[PositionOf(index[s])].Value?
  }

  /** The probe sequence of the hash leads to the entry through slots in use only. */
  ghost predicate Entered(index: seq<int>, p: nat, h: int)
    requires |index| > 0
  {
    exists j: nat :: index[Probe(h, j, |index|)] == EntryOf(p, h) && Path(index, h, j)
  }

  /** Every live key is entered, except possibly the one at `except`. */
  ghost predicate AllEntered<K, V>(index: seq<int>, backing: seq<Item<K, V>>, hash: K -> int, except: int)
    requires |index| > 0
  {
    forall p :: Live(backing, p) && p != except ==> Entered(index, p, hash(backing[p].key))
  }

  ghost predicate Table<K, V>(index: seq<int>, backing: seq<Item<K, V>>, hash: K -> int, except: int)
  {
    |index| > 0 && PowerOfTwo(|index|) && EntriesOk(index, backing) && AllEntered(index, backing, hash, except)
  }

  /** The slot holds a live key with the right hash bits that compares equal. */
  ghost predicate Match<K, V>(index: seq<int>, backing: seq<Item<K, V>>, key: K, h: int, compare: (K, K) -> bool, s: nat)
    requires s < |index| && EntriesOk(index, backing)
  {
    && index[s] != 0 && index[s] % HASH_SIZE == h % HASH_SIZE
    && var item := backing[PositionOf(index[s])];
    && item.Key? && compare(key, item.key)
  }

  ghost predicate Unmatched<K, V>(index: seq<int>, backing: seq<Item<K, V>>, key: K, h: int, compare: (K, K) -> bool, j: nat)
    requires |index| > 0 && EntriesOk(index, backing)
  {
    forall i: nat :: i < j ==> !Match(index, backing, key, h, compare, Probe(h, i, |index|))
  }

  /** Keys that compare equal have equal hashes. */
  ghost predicate Consistent<K, V>(backing: seq<Item<K, V>>, hash: K -> int, key: K, h: int, compare: (K, K) -> bool)
  {
    forall p :: Live(backing, p) && compare(key, backing[p].key) ==> hash(backing[p].key) == h
  }

  ghost predicate NoEqual<K, V>(backing: seq<Item<K, V>>, key: K, compare: (K, K) -> bool, except: int)
  {
    forall p :: Live(backing, p) && p != except ==> !compare(key, backing[p].key)
  }

  /** The probe sequence has come to its end: at a free slot, or back at its start. */
  ghost predicate AtEnd(index: seq<int>, h: int, j: nat)
    requires |index| > 0
  {
    index[Probe(h, j, |index|)] == 0 || j == 2 * |index| - 1
  }

  /** A live entry, if it exists, is met before the end of the probe sequence. */
  lemma EnteredIsProbed(index: seq<int>, p: nat, h: int, j: nat) returns (i: nat)
    requires |index| > 0 && PowerOfTwo(|index|) && Entered(index, p, h)
    requires Path(index, h, j) && AtEnd(index, h, j)
    ensures i < j && index[Probe(h, i, |index|)] == EntryOf(p, h)
  {
    hide Probe;
    var n := |index|;
    var k: nat :| index[Probe(h, k, n)] == EntryOf(p, h) && Path(index, h, k);
    if index[Probe(h, j, n)] == 0 {
      i := k;
    } else {
      var m: nat :| n == Pow2(m);
      i := AllVisited(h, Probe(h, k, n), m);
    }
  }

  /** A search that ends without a match has excluded every live key. */
  lemma NotThere<K, V>(index: seq<int>, backing: seq<Item<K, V>>, hash: K -> int, except: int,
                    key: K, h: int, compare: (K, K) -> bool, j: nat)
    requires Table(index, backing, hash, except) && Consistent(backing, hash, key, h, compare)
    requires Path(index, h, j) && Unmatched(index, backing, key, h, compare, j) && AtEnd(index, h, j)
    ensures NoEqual(backing, key, compare, except)
  {
    hide Probe, Path, AtEnd, Entered, PowerOfTwo, EntryOf, PositionOf;
    forall p | Live(backing, p) && p != except
      ensures !compare(key, backing[p].key)
    {
      if compare(key, backing[p].key) {
        var i := EnteredIsProbed(index, p, h, j);
        EntryParts(p, h);
      }
    }
  }

  // ----- Entering a key -----------------------------------------------------------------

  /** The slot may take a new entry: it is free, or its entry belongs to a tombstone. */
  ghost predicate Replaceable<K, V>(index: seq<int>, backing: seq<Item<K, V>>, s: nat)
    requires s < |index| && EntriesOk(index, backing)
  {
    index[s] == 0 || backing[PositionOf(index[s])].Tombstone?
  }

  /** None of the first slots of the probe sequence may take a new entry. */
  ghost predicate NoneReplaceable<K, V>(index: seq<int>, backing: seq<Item<K, V>>, h: int, j: nat)
    requires |index| > 0 && EntriesOk(index, backing)
  {
    forall i: nat :: i < j ==> !Replaceable(index, backing, Probe(h, i, |index|))
  }

  /** The slot is the first of the probe sequence that may take a new entry. */
  ghost predicate FirstReplaceable<K, V>(index: seq<int>, backing: seq<Item<K, V>>, h: int, j: nat, s: int)
    requires |index| > 0 && EntriesOk(index, backing)
  {
    s == Probe(h, j, |index|) && Replaceable(index, backing, s) && NoneReplaceable(index, backing, h, j)
  }

  lemma InsertKeepsEntered<K, V>(index: seq<int>, backing: seq<Item<K, V>>, slot: nat, e: int, p: nat, h: int)
    requires slot < |index| && e != 0 && EntriesOk(index, backing) && Replaceable(index, backing, slot)
    requires Live(backing, p) && Entered(index, p, h)
    ensures Entered(index[slot := e], p, h)
  {
    hide Probe, Path, EntryOf, PositionOf;
    var j: nat :| index[Probe(h, j, |index|)] == EntryOf(p, h) && Path(index, h, j);
    FillKeepsPath(index, h, j, slot, e);
    EntryParts(p, h);
    assert Probe(h, j, |index|) != slot;
    assert index[slot := e][Probe(h, j, |index|)] == EntryOf(p, h);
  }

  /** Entering the missing key at a replaceable slot of its probe sequence makes the
      table complete: nothing that was findable is lost. */
  lemma InsertCompletes<K, V>(index: seq<int>, backing: seq<Item<K, V>>, hash: K -> int, p: nat, j: nat)
    requires Table(index, backing, hash, p) && Live(backing, p)
    requires Path(index, hash(backing[p].key), j)
    requires Replaceable(index, backing, Probe(hash(backing[p].key), j, |index|))
    ensures var h := hash(backing[p].key);
      Table(index[Probe(h, j, |index|) := EntryOf(p, h)], backing, hash, -1)
  {
    hide Probe, Path, EntryOf, PositionOf, Entered, PowerOfTwo;
    var h := hash(backing[p].key);
    var slot, e := Probe(h, j, |index|), EntryOf(p, h);
    var after := index[slot := e];
    EntryParts(p, h);
    forall q | Live(backing, q)
      ensures Entered(after, q, hash(backing[q].key))
    {
      if q == p {
        FillKeepsPath(index, h, j, slot, e);
        EnteredHere(after, p, h, j);
      } else {
        InsertKeepsEntered(index, backing, slot, e, q, hash(backing[q].key));
      }
    }
  }

  lemma EnteredHere(index: seq<int>, p: nat, h: int, j: nat)
    requires |index| > 0 && index[Probe(h, j, |index|)] == EntryOf(p, h) && Path(index, h, j)
    ensures Entered(index, p, h)
  {
  }

  // ----- The restartable search ----------------------------------------------------------

  datatype State = START | NOT_FOUND | REBUILD | AFTER_COMPARE

  /** The value a restart finds on the stack: nothing yet, or a block's result. */
  datatype BlockResult = Nothing | Position(position: nat) | Truth(truth: bool)

  /** How one activation of the bytecode ends. */
  datatype Call<K> =
    | CallNotFound
    | CallRebuild(oldSize: int)
    | CallCompare(candidate: K)
    | Restart(result: BlockResult)
    | Return(value: int)

  /** The bytecode's locals and parameters, kept on the stack between activations. */
  class Frame<K, V> {
    const key: K
    const hash: int
    var state: State
    var oldSize: int
    var deletedSlot: int
    var slot: nat
    var position: int
    var slotStep: nat
    var startingSlot: nat
    var appendPosition: Option<nat>
    ghost var examined: nat  // how many slots have been passed over

    constructor (key: K, hash: int, appendPosition: Option<nat>)
      ensures this.key == key && this.hash == hash && this.appendPosition == appendPosition
      ensures state == START
    {
      this.key, this.hash, this.appendPosition := key, hash, appendPosition;
      state, oldSize, deletedSlot, slot, position, slotStep, startingSlot := START, 0, 0, 0, 0, 0, 0;
    }

    /** The slot of the first tombstone met, if any. */
    ghost predicate DeletedOk(index: seq<int>, backing: seq<Item<K, V>>)
      requires |index| > 0 && EntriesOk(index, backing)
      reads `deletedSlot, `examined
    {
      if deletedSlot == INVALID_SLOT then NoneReplaceable(index, backing, hash, examined)
      else exists d: nat :: d < examined && FirstReplaceable(index, backing, hash, d, deletedSlot)
    }

    /** The slots passed over were in use and held no equal key. */
    ghost predicate Passed(index: seq<int>, backing: seq<Item<K, V>>, compare: (K, K) -> bool)
      reads `deletedSlot, `examined
    {
      && |index| > 0 && EntriesOk(index, backing)
      && Path(index, hash, examined)
      && Unmatched(index, backing, key, hash, compare, examined)
      && DeletedOk(index, backing)
    }

    /** Waiting for the comparison with the key that the current slot refers to. */
    ghost predicate AtCandidate(index: seq<int>, backing: seq<Item<K, V>>, compare: (K, K) -> bool)
      reads this
    {
      && Passed(index, backing, compare)
      && examined < 2 * |index| - 1
      && slot == Probe(hash, examined, |index|) && slotStep == examined + 1 && startingSlot == Probe(hash, 0, |index|)
      && index[slot] != 0 && index[slot] % HASH_SIZE == hash % HASH_SIZE
      && position == PositionOf(index[slot]) && backing[position].Key?
    }

    /** The search has missed.  Next the key is entered, or first the index is rebuilt. */
    ghost predicate Missed(index: seq<int>, backing: seq<Item<K, V>>, compare: (K, K) -> bool, spacesLeft: int, size: int)
      reads this
    {
      && Passed(index, backing, compare)
      && AtEnd(index, hash, examined)
      && (state == NOT_FOUND ==> AtFreeSlot(index) && spacesLeft != 0)
      && (state == REBUILD ==> (spacesLeft == 0 || CountUsed(index) == |index|) && oldSize == size)
      && (state == NOT_FOUND || state == REBUILD)
    }

    ghost predicate AtFreeSlot(index: seq<int>)
      requires |index| > 0
      reads `slot, `examined
    {
      slot == Probe(hash, examined, |index|) && index[slot] == 0
    }

    /** Go to the next slot; tells whether the search is back where it started. */
    method Advance(length: nat, ghost m: nat) returns (exhausted: bool)
      requires length == Pow2(m) && 0 < examined < 2 * length
      requires slot == Probe(hash, examined - 1, length) && slotStep == examined
      requires startingSlot == Probe(hash, 0, length)
      modifies `slot, `slotStep
      ensures slot == Probe(hash, examined, length) && slotStep == examined + 1
      ensures exhausted <==> examined == 2 * length - 1
    {
      hide Probe, Pow2;
      NextProbe(hash, examined - 1, length);
      FirstReturn(hash, examined, m);
      slot := (slot + slotStep) % length;
      slotStep := slotStep + 1;
      exhausted := slot == startingSlot;
    }

    /** At a free slot, or after a full round: the key is not there. */
    method Miss(c: Collection<K, V>, exhausted: bool, ghost compare: (K, K) -> bool, ghost m: nat) returns (call: Call<K>)
      requires c.index.Length == Pow2(m) && Passed(c.index[..], c.backing, compare)
      requires slot == Probe(hash, examined, c.index.Length)
      requires if exhausted then examined == 2 * c.index.Length - 1 else c.index[slot] == 0
      modifies `state, `oldSize
      ensures Missed(c.index[..], c.backing, compare, c.spacesLeft, c.size)
      ensures call == if appendPosition.None? then CallNotFound else Restart(Position(appendPosition.value))
    {
      hide Probe, Pow2, Path, Unmatched, CountUsed, DeletedOk;
      if c.spacesLeft == 0 || exhausted {
        if exhausted {
          AllUsed(c.index[..], hash, examined, m);
        }
        oldSize := c.size;
        state := REBUILD;
      } else {
        state := NOT_FOUND;
      }
      call := if appendPosition.None? then CallNotFound else Restart(Position(appendPosition.value));
    }

    /** Looks at a slot in use: remember a tombstone, suspend at a possible match. */
    method Examine(c: Collection<K, V>, ghost compare: (K, K) -> bool) returns (candidate: Option<K>)
      requires Passed(c.index[..], c.backing, compare)
      requires slot == Probe(hash, examined, c.index.Length) && c.index[slot] != 0
      modifies `position, `deletedSlot, `state, `examined
      ensures Passed(c.index[..], c.backing, compare)
      ensures candidate.Some? ==>
        && examined == old(examined) && state == AFTER_COMPARE
        && position == PositionOf(c.index[slot]) && c.backing[position] == Key(candidate.value)
        && c.index[slot] % HASH_SIZE == hash % HASH_SIZE
      ensures candidate.None? ==> examined == old(examined) + 1
    {
      hide Probe, Path, Unmatched;
      var hashAndPosition := c.index[slot];
      position := PositionOf(hashAndPosition);
      var item := c.backing[position];
      if hashAndPosition % HASH_SIZE == hash % HASH_SIZE && !item.Tombstone? {
        state := AFTER_COMPARE;
        return Some(item.key);
      }
      PassOver(c.index[..], c.backing, key, hash, compare, examined);
      if deletedSlot == INVALID_SLOT && item.Tombstone? {
        assert FirstReplaceable(c.index[..], c.backing, hash, examined, slot);
        deletedSlot := slot;
      }
      examined := examined + 1;
      return None;
    }

    /** Keeps looking through the index: the loop at the end of the bytecode.  With
        `increment` the current slot has already been examined. */
    method Search(c: Collection<K, V>, increment: bool, ghost compare: (K, K) -> bool) returns (call: Call<K>)
      requires PowerOfTwo(c.index.Length) && Passed(c.index[..], c.backing, compare)
      requires Resumable(c.index.Length, increment)
      modifies this
      ensures appendPosition == old(appendPosition) && examined >= old(examined)
      ensures call.CallCompare? ==>
        state == AFTER_COMPARE && AtCandidate(c.index[..], c.backing, compare) && c.backing[position] == Key(call.candidate)
      ensures !call.CallCompare? ==>
        && Missed(c.index[..], c.backing, compare, c.spacesLeft, c.size)
        && call == if appendPosition.None? then CallNotFound else Restart(Position(appendPosition.value))
    {
      hide Probe, Pow2, Passed, PositionOf, Missed;
      ghost var m := PowerOf(c.index.Length);
      var advance := increment;
      while true
        invariant appendPosition == old(appendPosition) && examined >= old(examined)
        invariant Passed(c.index[..], c.backing, compare)
        invariant Resumable(c.index.Length, advance)
        decreases 2 * c.index.Length - examined
      {
        var exhausted := false;
        if advance {
          exhausted := Advance(c.index.Length, m);
        }
        if c.index[slot] == 0 || exhausted {
          call := Miss(c, exhausted, compare, m);
          return;
        }
        var candidate := Examine(c, compare);
        if candidate.Some? {
          call := CallCompare(candidate.value);
          return;
        }
        advance := true;
      }
    }

    /** Enters the key's position at the tombstone met first, or else at the free slot. */
    method Enter(c: Collection<K, V>, p: nat)
      requires EntriesOk(c.index[..], c.backing)
      requires c.index.Length > 0 && Path(c.index[..], hash, examined) && AtFreeSlot(c.index[..])
      requires DeletedOk(c.index[..], c.backing)
      modifies c`spacesLeft, c.index
      ensures InsertedAt(old(c.index[..]), c.index[..], c.backing, hash, p, old(c.spacesLeft), c.spacesLeft)
    {
      hide Probe, EntryOf, PositionOf;
      ghost var before := c.index[..];
      var entry := EntryOf(p, hash);
      ghost var j := examined;
      if deletedSlot < 0 {
        c.index[slot] := entry;
        c.spacesLeft := c.spacesLeft - 1;
        assert c.index[..] == before[slot := entry];
      } else {
        j :| 0 <= j < examined && FirstReplaceable(before, c.backing, hash, j, deletedSlot);
        c.index[deletedSlot] := entry;
        assert c.index[..] == before[deletedSlot := entry];
        assert before[Probe(hash, j, |before|)] != 0;
      }
      assert InsertedAtProbe(before, c.index[..], c.backing, hash, p, old(c.spacesLeft), c.spacesLeft, j);
    }

    /** What a restart needs to find: the state it left, and a fitting block result. */
    ghost predicate Ready(c: Collection<K, V>, result: BlockResult, compare: (K, K) -> bool)
      reads this, c, c.index
    {
      && PowerOfTwo(c.index.Length) && c.index.Length > 0 && EntriesOk(c.index[..], c.backing)
      && match state
         case START => true
         case AFTER_COMPARE =>
           && AtCandidate(c.index[..], c.backing, compare)
           && result == Truth(compare(key, c.backing[position].key))
         case NOT_FOUND =>
           && result.Position? && AtFreeSlot(c.index[..])
           && Path(c.index[..], hash, examined) && DeletedOk(c.index[..], c.backing)
         case REBUILD => result.Position?
    }

    /** One activation of the bytecode. */
    method Resume(c: Collection<K, V>, result: BlockResult, ghost compare: (K, K) -> bool) returns (call: Call<K>)
      requires Ready(c, result, compare)
      modifies this, c`spacesLeft, c.index
      ensures c.index == old(c.index)
      ensures old(state) != NOT_FOUND ==> c.index[..] == old(c.index[..]) && c.spacesLeft == old(c.spacesLeft)
      ensures old(state) == REBUILD ==>
        call == CallRebuild(old(oldSize)) && state == START && appendPosition == Some(result.position)
      ensures old(state) == NOT_FOUND ==>
        && call == Return(APPEND)
        && InsertedAt(old(c.index[..]), c.index[..], c.backing, hash, result.position, old(c.spacesLeft), c.spacesLeft)
      ensures old(state) == AFTER_COMPARE && result.truth ==>
        && appendPosition == old(appendPosition) && position == old(position)
        && AtCandidate(c.index[..], c.backing, compare)
        && call == Return(if appendPosition.Some? then APPEND else position)
      ensures old(state) == AFTER_COMPARE && !result.truth ==> examined > old(examined)
      ensures old(state) == START || (old(state) == AFTER_COMPARE && !result.truth) ==>
        && appendPosition == old(appendPosition)
        && (call.CallCompare? ==>
              && state == AFTER_COMPARE && AtCandidate(c.index[..], c.backing, compare)
              && c.backing[position] == Key(call.candidate))
        && (!call.CallCompare? ==>
              && Missed(c.index[..], c.backing, compare, c.spacesLeft, c.size)
              && call == if appendPosition.None? then CallNotFound else Restart(Position(appendPosition.value)))
    {
      hide Probe, EntryOf, PositionOf, Path, Unmatched, PowerOfTwo, InsertedAt, EntriesOk;
      if state == REBUILD {
        appendPosition := Some(result.position);
        state := START;
        return CallRebuild(oldSize);
      }
      if state == NOT_FOUND {
        appendPosition := Some(result.position);
        Enter(c, result.position);
        return Return(APPEND);
      }
      if state == AFTER_COMPARE && result.truth {
        return Return(if appendPosition.Some? then APPEND else position);
      }
      if state == START {
        HomeProbe(hash, c.index.Length);
        NothingPassed(c.index[..], c.backing, key, hash, compare);
        slot := hash % c.index.Length;
        startingSlot := slot;
        deletedSlot := INVALID_SLOT;
        slotStep := 1;
        examined := 0;
        call := Search(c, false, compare);
      } else {
        PassOver(c.index[..], c.backing, key, hash, compare, examined);
        examined := examined + 1;
        call := Search(c, true, compare);
      }
    }

    /** Where the next slot to look at is reached from. */
    ghost predicate Resumable(length: nat, increment: bool)
      requires length > 0
      reads `slot, `slotStep, `startingSlot, `examined
    {
      && startingSlot == Probe(hash, 0, length)
      && if increment
         then 0 < examined < 2 * length && slot == Probe(hash, examined - 1, length) && slotStep == examined
         else examined == 0 && slot == Probe(hash, 0, length) && slotStep == 1
    }
  }

  /** The entry went to the first replaceable slot on the probe sequence of its hash, and the
      free spaces were counted down exactly if that slot was free. */
  ghost predicate InsertedAtProbe<K, V>(before: seq<int>, after: seq<int>, backing: seq<Item<K, V>>, h: int, p: nat,
                                     spacesBefore: int, spacesAfter: int, j: nat)
    requires |before| > 0 && EntriesOk(before, backing)
  {
    var s := Probe(h, j, |before|);
    && Path(before, h, j) && FirstReplaceable(before, backing, h, j, s)
    && after == before[s := EntryOf(p, h)]
    && spacesAfter == spacesBefore - (if before[s] == 0 then 1 else 0)
  }

  ghost predicate InsertedAt<K, V>(before: seq<int>, after: seq<int>, backing: seq<Item<K, V>>, h: int, p: nat,
                                spacesBefore: int, spacesAfter: int)
    requires |before| > 0 && EntriesOk(before, backing)
  {
    exists j: nat :: InsertedAtProbe(before, after, backing, h, p, spacesBefore, spacesAfter, j)
  }

  lemma NothingPassed<K, V>(index: seq<int>, backing: seq<Item<K, V>>, key: K, h: int, compare: (K, K) -> bool)
    requires |index| > 0 && EntriesOk(index, backing)
    ensures Path(index, h, 0) && Unmatched(index, backing, key, h, compare, 0)
  {
  }

  lemma PassOver<K, V>(index: seq<int>, backing: seq<Item<K, V>>, key: K, h: int, compare: (K, K) -> bool, j: nat)
    requires |index| > 0 && EntriesOk(index, backing)
    requires Path(index, h, j) && Unmatched(index, backing, key, h, compare, j)
    requires var s := Probe(h, j, |index|); index[s] != 0 && !Match(index, backing, key, h, compare, s)
    ensures Path(index, h, j + 1) && Unmatched(index, backing, key, h, compare, j + 1)
  {
    hide Probe;
  }

  ghost function PowerOf(n: nat): (m: nat)
    requires PowerOfTwo(n)
    ensures n == Pow2(m)
  {
    var m: nat :| n == Pow2(m);
    m
  }

  /** Once the probe sequence is back at its start, every slot has been seen in use. */
  lemma AllUsed(index: seq<int>, h: int, j: nat, m: nat)
    requires |index| == Pow2(m) && j == 2 * |index| - 1 && Path(index, h, j)
    ensures CountUsed(index) == |index|
  {
    hide Probe, CountUsed;
    if CountUsed(index) < |index| {
      var s := FreeSlotExists(index);
      var i := AllVisited(h, s, m);
    }
  }
}
