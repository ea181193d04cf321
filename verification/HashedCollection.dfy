/** Lookup and insertion in a hashed collection: the HASH_FIND bytecode together with
    the blocks it calls, and the rebuilding of its index. */
module HashedCollection {
  import opened Options
  import opened Words
  import opened Probing
  import opened HashTable
  import opened Collections
  import opened HashFind

  // ----- Live keys ----------------------------------------------------------------------

  function CountLive<K, V>(backing: seq<Item<K, V>>): (c: nat)
    ensures c <= |backing|
  {
    if backing == [] then 0
    else CountLive(backing[..|backing| - 1]) + if backing[|backing| - 1].Key? then 1 else 0
  }

  lemma {:induction false} CountLiveConcat<K, V>(a: seq<Item<K, V>>, b: seq<Item<K, V>>)
    ensures CountLive(a + b) == CountLive(a) + CountLive(b)
    decreases |b|
  {
    if b == [] {
      assert a + b == a;
    } else {
      CountLiveConcat(a, b[..|b| - 1]);
      assert (a + b)[..|a + b| - 1] == a + b[..|b| - 1];
    }
  }

  lemma CountLiveSnoc<K, V>(a: seq<Item<K, V>>, item: Item<K, V>)
    ensures CountLive(a + [item]) == CountLive(a) + if item.Key? then 1 else 0
  {
    assert (a + [item])[..|a|] == a;
  }

  lemma CountLivePrefix<K, V>(backing: seq<Item<K, V>>, i: nat)
    requires i < |backing|
    ensures CountLive(backing[..i + 1]) == CountLive(backing[..i]) + if backing[i].Key? then 1 else 0
    ensures backing[i].Key? ==> CountLive(backing[..i]) < CountLive(backing)
  {
    hide CountLive;
    assert backing[..i + 1] == backing[..i] + [backing[i]];
    CountLiveSnoc(backing[..i], backing[i]);
    assert backing == backing[..i + 1] + backing[i + 1..];
    CountLiveConcat(backing[..i + 1], backing[i + 1..]);
  }

  // ----- The home slot ----------------------------------------------------------------------

  lemma HashSizeSplits(m: nat)
    requires m <= 12
    ensures Pow2(m) * Pow2(12 - m) == HASH_SIZE
  {
    Pow2Add(m, 12 - m);
    assert Pow2(12) == HASH_SIZE;
  }

  lemma MultipleVanishes(a: int, r: int, n: nat, k: nat)
    requires n > 0
    ensures (a * (n * k) + r) % n == r % n
  {
    assert a * (n * k) == (a * k) * n;
    ShiftByMultiple(r, a * k, n);
  }

  /** Up to 4096 slots the low bits of an entry name the same home slot as the hash. */
  lemma HomeAgrees(p: nat, h: int, m: nat)
    requires m <= 12
    ensures EntryOf(p, h) % Pow2(m) == h % Pow2(m)
  {
    hide Pow2;
    HashSizeSplits(m);
    MultipleVanishes(p + 1, h % HASH_SIZE, Pow2(m), Pow2(12 - m));
    MultipleVanishes(h / HASH_SIZE, h % HASH_SIZE, Pow2(m), Pow2(12 - m));
    assert h == h / HASH_SIZE * HASH_SIZE + h % HASH_SIZE;
  }

  ghost predicate LowBitsNameHome(n: nat)
    requires n > 0
  {
    forall p: nat, h: int :: EntryOf(p, h) % n == h % n
  }

  /** That is the exact limit of the simple rebuild: it takes the home slot from the
      entry, which is right for all keys if and only if there are at most 4096 slots. */
  lemma LowBitsNameHomeIff(m: nat)
    ensures LowBitsNameHome(Pow2(m)) <==> Pow2(m) <= HASH_SIZE
  {
    Pow2At12();
    if m <= 12 {
      Pow2Monotone(m, 12);
      forall p: nat, h: int
        ensures EntryOf(p, h) % Pow2(m) == h % Pow2(m)
      {
        HomeAgrees(p, h, m);
      }
    } else {
      HomeDisagrees(m);
    }
  }

  lemma Pow2At12()
    ensures Pow2(12) == HASH_SIZE && Pow2(13) == 2 * HASH_SIZE && Pow2(14) == 4 * HASH_SIZE
  {
  }

  lemma HomeDisagrees(m: nat)
    requires m > 12
    ensures Pow2(m) > HASH_SIZE
    ensures EntryOf(1, HASH_SIZE) % Pow2(m) != HASH_SIZE % Pow2(m)
  {
    hide Pow2;
    Pow2At12();
    assert EntryOf(1, HASH_SIZE) == 2 * HASH_SIZE;
    if m > 13 {
      Pow2Monotone(14, m);
    }
  }

  lemma SameProbes(a: int, b: int, j: nat, n: nat)
    requires n > 0 && a % n == b % n
    ensures Probe(a, j, n) == Probe(b, j, n)
  {
    hide Probe;
    ProbeFromSlot(a, j, n);
    ProbeFromSlot(b, j, n);
  }

  // ----- The simple rebuild keeps the table ------------------------------------------------

  lemma SameMember(a: seq<int>, b: seq<int>, s: nat) returns (t: nat)
    requires SameEntries(a, b) && s < |a| && a[s] != 0
    ensures t < |b| && b[t] == a[s]
  {
    assert a[s] in multiset(a);
    assert a[s] in multiset(b);
    assert a[s] in b;
    t :| 0 <= t < |b| && b[t] == a[s];
  }

  /** An entry that is well placed by its own low bits can be found by its hash. */
  lemma WellPlacedIsEntered(index: seq<int>, p: nat, h: int, s: nat, m: nat)
    requires |index| == Pow2(m) && m <= 12
    requires WellPlaced(index) && s < |index| && index[s] == EntryOf(p, h)
    ensures Entered(index, p, h)
  {
    hide Probe, EntryOf, Pow2;
    var e, n := EntryOf(p, h), |index|;
    var j: nat :| Probe(e, j, n) == s && Path(index, e, j);
    HomeAgrees(p, h, m);
    forall i: nat
      ensures Probe(e, i, n) == Probe(h, i, n)
    {
      SameProbes(e, h, i, n);
    }
    assert Path(index, h, j);
  }

  lemma SimpleRebuildTable<K, V>(before: seq<int>, after: seq<int>, backing: seq<Item<K, V>>, hash: K -> int, except: int, m: nat)
    requires Table(before, backing, hash, except)
    requires |after| == Pow2(m) && m <= 12 && WellPlaced(after) && SameEntries(after, before)
    ensures Table(after, backing, hash, except)
  {
    hide Probe, EntryOf, Pow2, PositionOf, Entered, WellPlaced, SameEntries;
    forall s | 0 <= s < |after| && after[s] != 0
      ensures 0 <= PositionOf(after[s]) < |backing| && !backing[PositionOf(after[s])].Value?
    {
      var t := SameMember(after, before, s);
    }
    forall p | Live(backing, p) && p != except
      ensures Entered(after, p, hash(backing[p].key))
    {
      var h := hash(backing[p].key);
      var t := EnteredSomewhere(before, p, h);
      SameEntriesSymmetric(after, before);
      var s := SameMember(before, after, t);
      WellPlacedIsEntered(after, p, h, s, m);
    }
  }

  lemma EnteredSomewhere(index: seq<int>, p: nat, h: int) returns (t: nat)
    requires |index| > 0 && Entered(index, p, h)
    ensures t < |index| && index[t] == EntryOf(p, h)
  {
    var j: nat :| index[Probe(h, j, |index|)] == EntryOf(p, h) && Path(index, h, j);
    t := Probe(h, j, |index|);
  }

  lemma SameEntriesSymmetric(a: seq<int>, b: seq<int>)
    requires SameEntries(a, b)
    ensures SameEntries(b, a)
  {
  }

  // ----- Choosing the size of the new index -------------------------------------------------

  /** `1 << (64 - clz x)`: the smallest power of two above x. */
  function PowerAbove(x: nat): (n: nat)
    ensures n > x && PowerOfTwo(n) && n / 2 <= x
  {
    if x == 0 then assert 1 == Pow2(0); 1
    else
      var half := PowerAbove(x / 2);
      assert 2 * half == Pow2(PowerOf(half) + 1);
      2 * half
  }

  /** The smallest power of two that is enough for the keys and an eighth more, and at least twice
      the old size unless it may shrink. */
  function NewIndexSize(length: nat, oldSize: nat, allowShrink: bool): (n: nat)
    requires !allowShrink ==> length > 0 && PowerOfTwo(length)
    ensures PowerOfTwo(n) && n > oldSize + oldSize / 8 + 1 && n >= if allowShrink then 2 else 2 * length
    ensures n / 2 <= oldSize + oldSize / 8 + 1 || n == if allowShrink then 2 else 2 * length
  {
    var minimum := if allowShrink then 2 else length * 2;
    var enough := 1 + oldSize + oldSize / 8;
    assert minimum == Pow2(if allowShrink then 1 else PowerOf(length) + 1);
    if PowerAbove(enough) > minimum then PowerAbove(enough) else minimum
  }

  /** 85 percent of the slots, but always room for one more than there are keys. */
  function NewSpaces(n: nat, oldSize: nat): (spaces: nat)
    ensures spaces > oldSize
    ensures spaces == oldSize + 1 || 85 * n - 100 < 100 * spaces <= 85 * n
  {
    var spaces := n * 85 / 100;
    if spaces <= oldSize then oldSize + 1 else spaces
  }

  // ----- Entering keys into a fresh index ---------------------------------------------------

  /** No slot refers to a tombstone, as in an index that is just being filled. */
  ghost predicate NoDead<K, V>(index: seq<int>, backing: seq<Item<K, V>>)
    requires EntriesOk(index, backing)
  {
    forall s :: 0 <= s < |index| && index[s] != 0 ==> backing[PositionOf(index[s])].Key?
  }

  ghost predicate Filled<K, V>(c: Collection<K, V>, hash: K -> int, i: nat, spaces: int)
    reads c, c.index
  {
    && i <= |c.backing|
    && Table(c.index[..], c.backing[..i], hash, -1)
    && EntriesOk(c.index[..], c.backing) && NoDead(c.index[..], c.backing)
    && CountUsed(c.index[..]) == CountLive(c.backing[..i])
    && c.spacesLeft == spaces - CountLive(c.backing[..i])
  }

  lemma FilledStep<K, V>(before: seq<int>, after: seq<int>, backing: seq<Item<K, V>>, hash: K -> int, i: nat,
                      spacesBefore: int, spacesAfter: int)
    requires i < |backing| && backing[i].Key?
    requires Table(before, backing[..i], hash, -1) && EntriesOk(before, backing) && NoDead(before, backing)
    requires InsertedAt(before, after, backing, hash(backing[i].key), i, spacesBefore, spacesAfter)
    ensures Table(after, backing[..i + 1], hash, -1) && EntriesOk(after, backing) && NoDead(after, backing)
    ensures CountUsed(after) == CountUsed(before) + 1 && spacesAfter == spacesBefore - 1
  {
    hide Probe, EntryOf, PositionOf, Entered, CountUsed, Path, PowerOfTwo;
    var h, part := hash(backing[i].key), backing[..i + 1];
    var j: nat :| InsertedAtProbe(before, after, backing, h, i, spacesBefore, spacesAfter, j);
    var s := Probe(h, j, |before|);
    assert before[s] == 0;
    CountUsedUpdate(before, s, EntryOf(i, h));
    EntryParts(i, h);
    forall p | Live(part, p) && p != i
      ensures Entered(before, p, hash(part[p].key))
    {
      assert Live(backing[..i], p);
    }
    InsertCompletes(before, part, hash, i, j);
  }

  /** Runs the bytecode from its start state, answering each comparison, until it
      returns a match or has missed. */
  method RunSearch<K, V>(c: Collection<K, V>, frame: Frame<K, V>, compare: (K, K) -> bool) returns (call: Call<K>)
    requires frame.state == START && frame.Ready(c, Nothing, compare)
    modifies frame, c`spacesLeft, c.index
    ensures c.index == old(c.index) && c.index[..] == old(c.index[..]) && c.spacesLeft == old(c.spacesLeft)
    ensures frame.appendPosition == old(frame.appendPosition)
    ensures call.Return? ==>
      && frame.AtCandidate(c.index[..], c.backing, compare)
      && compare(frame.key, c.backing[frame.position].key)
      && call == Return(if frame.appendPosition.Some? then APPEND else frame.position)
    ensures !call.Return? ==>
      && frame.Missed(c.index[..], c.backing, compare, c.spacesLeft, c.size)
      && call == if frame.appendPosition.None? then CallNotFound else Restart(Position(frame.appendPosition.value))
  {
    hide PowerOfTwo, EntryOf, PositionOf, Path, Probe, CountUsed, Unmatched;
    call := frame.Resume(c, Nothing, compare);
    while call.CallCompare?
      invariant c.index == old(c.index) && c.index[..] == old(c.index[..]) && c.spacesLeft == old(c.spacesLeft)
      invariant frame.appendPosition == old(frame.appendPosition)
      invariant call.CallCompare? ==>
        && frame.state == AFTER_COMPARE && frame.AtCandidate(c.index[..], c.backing, compare)
        && c.backing[frame.position] == Key(call.candidate)
      invariant call.Return? ==>
        && frame.AtCandidate(c.index[..], c.backing, compare)
        && compare(frame.key, c.backing[frame.position].key)
        && call == Return(if frame.appendPosition.Some? then APPEND else frame.position)
      invariant !call.CallCompare? && !call.Return? ==>
        && frame.Missed(c.index[..], c.backing, compare, c.spacesLeft, c.size)
        && call == if frame.appendPosition.None? then CallNotFound else Restart(Position(frame.appendPosition.value))
      decreases call.CallCompare?, 2 * c.index.Length - frame.examined
    {
      var equal := compare(frame.key, call.candidate);
      call := frame.Resume(c, Truth(equal), compare);
    }
  }

  /** `find_body_` with a compare block that always says no: every probe passes on until
      a free slot is met. */
  method EnterExisting<K, V>(c: Collection<K, V>, hash: K -> int, i: nat, ghost spaces: int)
    requires Filled(c, hash, i, spaces) && i < |c.backing| && c.backing[i].Key?
    requires c.spacesLeft > 0 && CountUsed(c.index[..]) < c.index.Length
    modifies c`spacesLeft, c.index
    ensures Filled(c, hash, i + 1, spaces)
  {
    hide PowerOfTwo, EntryOf, PositionOf, Path, Entered, Probe, CountUsed, CountLive, AllEntered, Unmatched, NoDead;
    var key := c.backing[i].key;
    var frame := new Frame<K, V>(key, hash(key), None);
    var never := (a: K, b: K) => false;
    var call := RunSearch(c, frame, never);
    call := frame.Resume(c, Position(i), never);
    FilledStep(old(c.index[..]), c.index[..], c.backing, hash, i, old(c.spacesLeft), c.spacesLeft);
    CountLivePrefix(c.backing, i);
  }

  // ----- Rebuilding the index ---------------------------------------------------------------

  /** What every rebuild leaves behind. */
  ghost predicate Rebuilt<K, V>(c: Collection<K, V>, hash: K -> int, except: int, oldSize: nat)
    reads c, c.index
  {
    && Table(c.index[..], c.backing, hash, except)
    && CountUsed(c.index[..]) < c.index.Length
    && c.spacesLeft == NewSpaces(c.index.Length, oldSize) - c.size
  }

  /** The new index is filled by searching for each key in turn. */
  method FullRebuild<K, V>(c: Collection<K, V>, hash: K -> int, newLength: nat, oldSize: nat)
    requires PowerOfTwo(newLength) && newLength > oldSize + 1
    requires c.size == CountLive(c.backing) && c.size <= oldSize + 1
    modifies c`spacesLeft, c`index
    ensures fresh(c.index) && c.index.Length == newLength && Rebuilt(c, hash, -1, oldSize)
  {
    hide EntryOf, PositionOf, Path, Entered, Probe, CountUsed, CountLive, PowerOfTwo;
    var spaces := NewSpaces(newLength, oldSize);
    c.index := new int[newLength](_ => 0);
    c.spacesLeft := spaces;
    CountUsedZero(c.index[..]);
    EmptyBacking<K, V>();
    assert c.backing[..0] == [];
    for i := 0 to |c.backing|
      invariant fresh(c.index) && c.index.Length == newLength
      invariant Filled(c, hash, i, spaces)
    {
      CountLivePrefix(c.backing, i);
      if c.backing[i].Key? {
        EnterExisting(c, hash, i, spaces);
      } else {
        SkipDead(c.index[..], c.backing, hash, i);
      }
    }
    assert c.backing[..|c.backing|] == c.backing;
  }

  lemma EmptyBacking<K, V>()
    ensures CountLive<K, V>([]) == 0
  {
  }

  lemma SkipDead<K, V>(index: seq<int>, backing: seq<Item<K, V>>, hash: K -> int, i: nat)
    requires i < |backing| && !backing[i].Key? && Table(index, backing[..i], hash, -1)
    ensures Table(index, backing[..i + 1], hash, -1)
  {
    hide EntryOf, PositionOf, Entered, PowerOfTwo;
    forall p | Live(backing[..i + 1], p)
      ensures Entered(index, p, hash(backing[p].key))
    {
      assert Live(backing[..i], p);
    }
  }

  /** Enough hash bits are in the entries to place them in the new index directly. */
  method SimpleRebuild<K, V>(c: Collection<K, V>, ghost hash: K -> int, ghost except: int, newLength: nat, oldSize: nat)
    requires Table(c.index[..], c.backing, hash, except)
    requires PowerOfTwo(newLength) && 2 * c.index.Length <= newLength <= HASH_SIZE
    modifies c`spacesLeft, c`index
    ensures fresh(c.index) && c.index.Length == newLength && Rebuilt(c, hash, except, oldSize)
  {
    hide EntryOf, PositionOf, Path, Entered, Probe, CountUsed, SameEntries, WellPlaced, PowerOfTwo, Pow2;
    ghost var m := SmallPower(newLength);
    var newIndex := new int[newLength](_ => 0);
    RebuildHashIndex(c.index, newIndex, m);
    SimpleRebuildTable(c.index[..], newIndex[..], c.backing, hash, except, m);
    c.spacesLeft := NewSpaces(newLength, oldSize) - c.size;
    c.index := newIndex;
  }

  lemma SmallPower(n: nat) returns (m: nat)
    requires PowerOfTwo(n) && n <= HASH_SIZE
    ensures n == Pow2(m) && m <= 12
  {
    hide Pow2;
    m :| n == Pow2(m);
    Pow2At12();
    if m > 12 {
      Pow2Monotone(13, m);
    }
  }

  lemma ForgetOne<K, V>(index: seq<int>, backing: seq<Item<K, V>>, hash: K -> int, except: int)
    requires Table(index, backing, hash, -1)
    ensures Table(index, backing, hash, except)
  {
    hide Entered, EntriesOk;
  }

  // ----- Compacting the backing -------------------------------------------------------------

  /** What is left when all tombstones are gone. */
  function Compacted<K, V>(backing: seq<Item<K, V>>): (r: seq<Item<K, V>>)
    ensures |r| <= |backing| && forall i :: 0 <= i < |r| ==> !r[i].Tombstone?
  {
    if backing == [] then []
    else
      var last := |backing| - 1;
      Compacted(backing[..last]) + if backing[last].Tombstone? then [] else [backing[last]]
  }

  lemma {:induction false} CountCompacted<K, V>(backing: seq<Item<K, V>>)
    ensures CountLive(Compacted(backing)) == CountLive(backing)
  {
    if backing == [] {
    } else {
      var last := |backing| - 1;
      var rest := Compacted(backing[..last]);
      CountCompacted(backing[..last]);
      CountLiveSnoc(rest, backing[last]);
      assert rest + [] == rest;
    }
  }

  /** The loop that moves everything to the front, over the tombstones, and cuts the rest off. */
  method Compact<K, V>(c: Collection<K, V>, step: nat)
    requires |Compacted(c.backing)| == c.size * step
    modifies c`backing
    ensures c.backing == Compacted(old(c.backing))
  {
    ghost var before := c.backing;
    var i := 0;
    for k := 0 to |c.backing|
      invariant |c.backing| == |before| && i <= k
      invariant c.backing[..i] == Compacted(before[..k])
      invariant forall j :: k <= j < |before| ==> c.backing[j] == before[j]
    {
      assert before[..k + 1][..k] == before[..k];
      if !c.backing[k].Tombstone? {
        c.backing := c.backing[i := c.backing[k]];
        i := i + 1;
      }
    }
    assert before[..|before|] == before;
    c.backing := c.backing[..c.size * step];
  }

  /** `rebuild_`.  The rebuild block of HASH_FIND lets the index at least double; a shrinking
      collection, and one without an index, gets an index of the right size. */
  method Rebuild<K, V>(
    c: Collection<K, V>, hash: K -> int, ghost except: int, oldSize: nat, step: nat, hasIndex: bool, allowShrink: bool,
    rebuildBacking: bool)
    requires allowShrink ==> !hasIndex || rebuildBacking
    requires !allowShrink ==> hasIndex && !rebuildBacking
    requires hasIndex && !rebuildBacking ==> Table(c.index[..], c.backing, hash, except)
    requires rebuildBacking ==> |Compacted(c.backing)| == c.size * step
    requires c.size == CountLive(c.backing) && c.size <= oldSize + 1
    modifies c`spacesLeft, c`index, c`backing
    ensures c.backing == if rebuildBacking then Compacted(old(c.backing)) else old(c.backing)
    ensures fresh(c.index) && Rebuilt(c, hash, if allowShrink then -1 else except, oldSize)
    ensures c.index.Length == NewIndexSize(if hasIndex then old(c.index.Length) else 0, oldSize, allowShrink)
    ensures c.size == CountLive(c.backing)
  {
    hide AllEntered, EntriesOk, CountUsed, CountLive;
    if rebuildBacking {
      CountCompacted(c.backing);
      Compact(c, step);
    }
    var newLength := NewIndexSize(if hasIndex then c.index.Length else 0, oldSize, allowShrink);
    if !hasIndex || newLength - 1 > HASH_SIZE - 1 || rebuildBacking {
      FullRebuild(c, hash, newLength, oldSize);
      ForgetOne(c.index[..], c.backing, hash, except);
    } else {
      SimpleRebuild(c, hash, except, newLength, oldSize);
    }
  }

  // ----- Lookup and insertion ---------------------------------------------------------------

  /** What the not_found block does: leave the method, or append a key to the backing
      (with a value behind it, in a map) and return its position. */
  datatype NotFound<K, V> = Leave | Append(newKey: K, value: seq<Item<K, V>>)

  ghost predicate ValidCollection<K, V>(c: Collection<K, V>, hash: K -> int)
    reads c, c.index
  {
    Table(c.index[..], c.backing, hash, -1) && c.size == CountLive(c.backing)
  }

  ghost predicate Unchanged<K, V>(c: Collection<K, V>, index: seq<int>, backing: seq<Item<K, V>>, size: int, spacesLeft: int)
    reads c, c.index
  {
    c.index[..] == index && c.backing == backing && c.size == size && c.spacesLeft == spacesLeft
  }

  lemma CandidateIsLive<K, V>(frame: Frame<K, V>, index: seq<int>, backing: seq<Item<K, V>>, compare: (K, K) -> bool)
    requires frame.AtCandidate(index, backing, compare)
    ensures Live(backing, frame.position)
  {
    hide Probe, Path, Unmatched, PositionOf;
  }

  /** The table after the not_found block: only the new key is missing. */
  lemma AppendedTable<K, V>(index: seq<int>, backing: seq<Item<K, V>>, hash: K -> int, newKey: K, value: seq<Item<K, V>>)
    requires Table(index, backing, hash, -1) && forall i :: 0 <= i < |value| ==> value[i].Value?
    ensures var after := backing + [Key(newKey)] + value;
      && Table(index, after, hash, |backing|) && Live(after, |backing|)
      && CountLive(after) == CountLive(backing) + 1
  {
    hide Entered, PositionOf, PowerOfTwo, CountLive;
    var after := backing + [Key(newKey)] + value;
    forall p | Live(after, p) && p != |backing|
      ensures Entered(index, p, hash(after[p].key))
    {
      assert p < |backing| ==> Live(backing, p);
    }
    CountLiveConcat(backing + [Key(newKey)], value);
    CountLiveSnoc(backing, Key(newKey));
    CountNone(value);
  }

  lemma {:induction false} CountNone<K, V>(value: seq<Item<K, V>>)
    requires forall i :: 0 <= i < |value| ==> value[i].Value?
    ensures CountLive(value) == 0
  {
    if value == [] {
    } else {
      CountNone(value[..|value| - 1]);
    }
  }

  lemma AppendedKeys<K, V>(backing: seq<Item<K, V>>, hash: K -> int, key: K, h: int, compare: (K, K) -> bool,
                        newKey: K, value: seq<Item<K, V>>)
    requires Consistent(backing, hash, key, h, compare) && NoEqual(backing, key, compare, -1)
    requires hash(newKey) == h && forall i :: 0 <= i < |value| ==> value[i].Value?
    ensures var after := backing + [Key(newKey)] + value;
      Consistent(after, hash, key, h, compare) && NoEqual(after, key, compare, |backing|)
  {
    var after := backing + [Key(newKey)] + value;
    forall p | Live(after, p) && p != |backing|
      ensures Live(backing, p) && backing[p] == after[p]
    {
    }
  }

  /** A key found after the rebuild is the new one, and it is entered where it belongs. */
  lemma FoundAfterRebuild<K, V>(frame: Frame<K, V>, index: seq<int>, backing: seq<Item<K, V>>, hash: K -> int,
                             compare: (K, K) -> bool, p: nat)
    requires Table(index, backing, hash, p) && Live(backing, p) && hash(backing[p].key) == frame.hash
    requires NoEqual(backing, frame.key, compare, p)
    requires frame.AtCandidate(index, backing, compare)
    requires compare(frame.key, backing[frame.position].key)
    ensures Table(index, backing, hash, -1)
  {
    hide Probe, Path, Unmatched, PositionOf, EntryOf, PowerOfTwo, Entered;
    CandidateIsLive(frame, index, backing, compare);
    EntryFromParts(index[frame.slot], p, frame.hash);
    EnteredHere(index, p, frame.hash, frame.examined);
  }

  lemma InsertedCompletes<K, V>(before: seq<int>, after: seq<int>, backing: seq<Item<K, V>>, hash: K -> int, p: nat, h: int,
                             spacesBefore: int, spacesAfter: int)
    requires Table(before, backing, hash, p) && Live(backing, p) && hash(backing[p].key) == h
    requires InsertedAt(before, after, backing, h, p, spacesBefore, spacesAfter)
    ensures Table(after, backing, hash, -1)
  {
    hide Probe, Path, PositionOf, EntryOf, PowerOfTwo, Entered, AllEntered;
    var j: nat :| InsertedAtProbe(before, after, backing, h, p, spacesBefore, spacesAfter, j);
    InsertCompletes(before, backing, hash, p, j);
  }

  /** What the bytecode waits for while the key is being looked for. */
  ghost predicate Searching<K, V>(c: Collection<K, V>, frame: Frame<K, V>, compare: (K, K) -> bool, call: Call<K>)
    reads c, c.index, frame
  {
    && frame.appendPosition == None
    && match call
       case CallCompare(candidate) => Comparing(c, frame, compare, candidate)
       case CallNotFound => frame.Missed(c.index[..], c.backing, compare, c.spacesLeft, c.size)
       case Return(value) =>
         && value == frame.position && frame.AtCandidate(c.index[..], c.backing, compare)
         && compare(frame.key, c.backing[frame.position].key)
       case _ => false
  }

  ghost predicate Comparing<K, V>(c: Collection<K, V>, frame: Frame<K, V>, compare: (K, K) -> bool, candidate: K)
    reads c, c.index, frame
  {
    && PowerOfTwo(c.index.Length) && frame.state == AFTER_COMPARE
    && frame.AtCandidate(c.index[..], c.backing, compare) && c.backing[frame.position] == Key(candidate)
  }

  /** The key is in the backing at `p`, and to be entered into the index.  The index has to
      be rebuilt at most `budget` more times. */
  ghost predicate Inserting<K, V>(
    c: Collection<K, V>, frame: Frame<K, V>, hash: K -> int, compare: (K, K) -> bool, call: Call<K>, p: nat, budget: nat)
    reads c, c.index, frame
  {
    match call
    case CallCompare(candidate) =>
      && frame.appendPosition == Some(p) && Comparing(c, frame, compare, candidate)
      && Table(c.index[..], c.backing, hash, p) && (budget == 0 ==> Roomy(c))
    case Restart(result) =>
      && frame.appendPosition == Some(p) && result == Position(p)
      && frame.Missed(c.index[..], c.backing, compare, c.spacesLeft, c.size)
      && Table(c.index[..], c.backing, hash, p) && (budget == 0 ==> Roomy(c))
    case CallRebuild(oldSize) =>
      && frame.appendPosition == Some(p) && frame.state == START
      && Table(c.index[..], c.backing, hash, p) && c.size - 1 <= oldSize <= c.size
      && 1 <= budget && (budget == 1 ==> oldSize == c.size)
    case Return(value) => value == APPEND && Table(c.index[..], c.backing, hash, -1)
    case CallNotFound => false
  }

  /** There is a free slot, and it may be used. */
  ghost predicate Roomy<K, V>(c: Collection<K, V>)
    reads c, c.index
  {
    c.spacesLeft > 0 && CountUsed(c.index[..]) < c.index.Length
  }

  /** The key in the backing at `p`, the only one equal to the key that is looked for. */
  ghost predicate Added<K, V>(c: Collection<K, V>, frame: Frame<K, V>, hash: K -> int, compare: (K, K) -> bool, p: nat)
    reads c
  {
    && Live(c.backing, p) && hash(c.backing[p].key) == frame.hash && NoEqual(c.backing, frame.key, compare, p)
    && c.size == CountLive(c.backing)
  }

  /** How far a call is from the end of a round of the search. */
  function StepsLeft<K>(call: Call<K>): nat
  {
    match call
    case CallCompare(_) => 3
    case CallNotFound => 2
    case Restart(_) => 2
    case CallRebuild(_) => 1
    case Return(_) => 0
  }

  lemma ReadyToAnswer<K, V>(c: Collection<K, V>, frame: Frame<K, V>, compare: (K, K) -> bool)
    requires frame.state == AFTER_COMPARE && frame.AtCandidate(c.index[..], c.backing, compare) && PowerOfTwo(c.index.Length)
    ensures frame.Ready(c, Truth(compare(frame.key, c.backing[frame.position].key)), compare)
  {
    hide EntryOf, PositionOf, Path, Probe, Unmatched, PowerOfTwo;
  }

  /** The compare block has answered. */
  method Answer<K, V>(
    c: Collection<K, V>, frame: Frame<K, V>, hash: K -> int, compare: (K, K) -> bool, candidate: K, ghost p: Option<nat>,
    ghost budget: nat)
    returns (call: Call<K>)
    requires p.None? ==> Searching(c, frame, compare, CallCompare(candidate))
    requires p.Some? ==>
      && Inserting(c, frame, hash, compare, CallCompare(candidate), p.value, budget)
      && Added(c, frame, hash, compare, p.value)
    modifies frame, c`spacesLeft, c.index
    ensures c.index == old(c.index) && c.index[..] == old(c.index[..]) && c.spacesLeft == old(c.spacesLeft)
    ensures p.None? ==> Searching(c, frame, compare, call)
    ensures p.Some? ==>
      Inserting(c, frame, hash, compare, call, p.value, budget) && Added(c, frame, hash, compare, p.value)
    ensures call.CallCompare? ==> old(frame.examined) < frame.examined < 2 * c.index.Length
    ensures !call.CallRebuild?
  {
    hide PowerOfTwo, EntryOf, PositionOf, Path, Probe, CountUsed, Unmatched, Entered, EntriesOk, AllEntered, CountLive, NoEqual;
    ReadyToAnswer(c, frame, compare);
    var equal := compare(frame.key, candidate);
    call := frame.Resume(c, Truth(equal), compare);
    if equal && p.Some? {
      FoundAfterRebuild(frame, c.index[..], c.backing, hash, compare, p.value);
    }
  }

  /** The bytecode is restarted with the position of the key, as if not_found had just
      returned it. */
  method PassPosition<K, V>(
    c: Collection<K, V>, frame: Frame<K, V>, hash: K -> int, compare: (K, K) -> bool, p: nat, ghost budget: nat)
    returns (call: Call<K>)
    requires frame.Ready(c, Position(p), compare) && (frame.state == NOT_FOUND || frame.state == REBUILD)
    requires Table(c.index[..], c.backing, hash, p) && Added(c, frame, hash, compare, p)
    requires frame.state == REBUILD ==>
      c.size - 1 <= frame.oldSize <= c.size && 1 <= budget && (budget == 1 ==> frame.oldSize == c.size)
    modifies frame, c`spacesLeft, c.index
    ensures c.index == old(c.index)
    ensures Inserting(c, frame, hash, compare, call, p, budget) && Added(c, frame, hash, compare, p)
    ensures call.Return? || call.CallRebuild?
  {
    hide PowerOfTwo, EntryOf, PositionOf, Path, Probe, CountUsed, Unmatched, Entered, EntriesOk, AllEntered, CountLive,
      NoEqual, InsertedAt;
    call := frame.Resume(c, Position(p), compare);
    if call.Return? {
      InsertedCompletes(old(c.index[..]), c.index[..], c.backing, hash, p, frame.hash, old(c.spacesLeft), c.spacesLeft);
    }
  }

  lemma ReadyToPass<K, V>(
    c: Collection<K, V>, frame: Frame<K, V>, hash: K -> int, compare: (K, K) -> bool, p: nat, budget: nat)
    requires Inserting(c, frame, hash, compare, Restart(Position(p)), p, budget)
    ensures frame.Ready(c, Position(p), compare) && (frame.state == NOT_FOUND || frame.state == REBUILD)
    ensures frame.state == REBUILD ==> frame.oldSize == c.size && budget >= 1
  {
    hide PowerOfTwo, EntryOf, PositionOf, Path, Probe, CountUsed, Unmatched, Entered, EntriesOk, AllEntered;
  }

  /** The rebuild block, and the restart of the search in the new index. */
  method RebuildAndRetry<K, V>(
    c: Collection<K, V>, frame: Frame<K, V>, hash: K -> int, compare: (K, K) -> bool, oldSize: nat, ghost p: nat,
    ghost budget: nat)
    returns (call: Call<K>)
    requires Inserting(c, frame, hash, compare, CallRebuild(oldSize), p, budget) && Added(c, frame, hash, compare, p)
    modifies frame, c`spacesLeft, c`index, c`backing
    ensures fresh(c.index) && c.backing == old(c.backing)
    ensures Inserting(c, frame, hash, compare, call, p, budget - 1) && Added(c, frame, hash, compare, p)
  {
    hide PowerOfTwo, EntryOf, PositionOf, Path, Probe, CountUsed, Unmatched, Entered, EntriesOk, AllEntered, CountLive, NoEqual;
    Rebuild(c, hash, p, oldSize, 1, true, false, false);
    call := frame.Resume(c, Nothing, compare);
  }

  /** The not_found block has appended the key, and maybe a value. */
  method AppendNew<K, V>(
    c: Collection<K, V>, frame: Frame<K, V>, hash: K -> int, compare: (K, K) -> bool, newKey: K, value: seq<Item<K, V>>)
    requires frame.Missed(c.index[..], c.backing, compare, c.spacesLeft, c.size)
    requires ValidCollection(c, hash) && Consistent(c.backing, hash, frame.key, frame.hash, compare)
    requires hash(newKey) == frame.hash && forall i :: 0 <= i < |value| ==> value[i].Value?
    modifies c`backing, c`size
    ensures c.backing == old(c.backing) + [Key(newKey)] + value && c.size == old(c.size) + 1
    ensures var p := |old(c.backing)|;
      && frame.Ready(c, Position(p), compare) && (frame.state == NOT_FOUND || frame.state == REBUILD)
      && Table(c.index[..], c.backing, hash, p) && Added(c, frame, hash, compare, p)
      && (frame.state == REBUILD ==> frame.oldSize == c.size - 1)
  {
    hide PowerOfTwo, EntryOf, PositionOf, Path, Probe, CountUsed, Unmatched, Entered, EntriesOk, AllEntered, CountLive;
    NotThere(c.index[..], c.backing, hash, -1, frame.key, frame.hash, compare, frame.examined);
    AppendedTable(c.index[..], c.backing, hash, newKey, value);
    AppendedKeys(c.backing, hash, frame.key, frame.hash, compare, newKey, value);
    StillReady(frame, c.index[..], c.backing, newKey, value);
    c.backing := c.backing + [Key(newKey)] + value;
    c.size := c.size + 1;
  }

  lemma Missing<K, V>(c: Collection<K, V>, frame: Frame<K, V>, hash: K -> int, compare: (K, K) -> bool)
    requires frame.Missed(c.index[..], c.backing, compare, c.spacesLeft, c.size)
    requires ValidCollection(c, hash) && Consistent(c.backing, hash, frame.key, frame.hash, compare)
    ensures NoEqual(c.backing, frame.key, compare, -1)
  {
    hide EntryOf, PositionOf, Path, Entered, Probe, CountUsed, CountLive, PowerOfTwo, EntriesOk, AllEntered, Unmatched;
    NotThere(c.index[..], c.backing, hash, -1, frame.key, frame.hash, compare, frame.examined);
  }

  /** The first activation. */
  method Start<K, V>(c: Collection<K, V>, frame: Frame<K, V>, hash: K -> int, compare: (K, K) -> bool)
    returns (call: Call<K>)
    requires frame.state == START && ValidCollection(c, hash)
    requires frame.appendPosition.Some? ==> Added(c, frame, hash, compare, frame.appendPosition.value)
    modifies frame, c`spacesLeft, c.index
    ensures c.index == old(c.index) && c.index[..] == old(c.index[..]) && c.spacesLeft == old(c.spacesLeft)
    ensures old(frame.appendPosition).None? ==> Searching(c, frame, compare, call)
    ensures old(frame.appendPosition).Some? ==>
      var p := old(frame.appendPosition).value;
      Inserting(c, frame, hash, compare, call, p, 1) && Added(c, frame, hash, compare, p)
  {
    hide EntryOf, PositionOf, Path, Entered, Probe, CountUsed, CountLive, PowerOfTwo, EntriesOk, AllEntered, Unmatched, NoEqual;
    call := frame.Resume(c, Nothing, compare);
    if frame.appendPosition.Some? {
      ForgetOne(c.index[..], c.backing, hash, frame.appendPosition.value);
    }
  }

  /** `find_body_`: the bytecode is restarted with the answer of whichever block it calls,
      until it returns.  Either an equal live key is found and nothing changes; or there is
      none, not_found is called exactly once, and if it appends the key, the key is in the
      table afterwards together with all the others.  When the caller has already appended
      the key, not_found is not called at all. */
  method FindBody<K, V>(
    c: Collection<K, V>, key: K, h: int, hash: K -> int, compare: (K, K) -> bool, appendPosition: Option<nat>,
    notFound: NotFound<K, V>)
    returns (result: Option<int>, notFoundCalls: nat)
    requires ValidCollection(c, hash) && Consistent(c.backing, hash, key, h, compare)
    requires notFound.Append? ==>
      hash(notFound.newKey) == h && forall i :: 0 <= i < |notFound.value| ==> notFound.value[i].Value?
    requires appendPosition.Some? ==>
      && Live(c.backing, appendPosition.value) && hash(c.backing[appendPosition.value].key) == h
      && NoEqual(c.backing, key, compare, appendPosition.value)
    modifies c, c.index
    ensures ValidCollection(c, hash)
    ensures c.index == old(c.index) || fresh(c.index)
    ensures appendPosition.None? && !NoEqual(old(c.backing), key, compare, -1) ==>
      && notFoundCalls == 0
      && Unchanged(c, old(c.index[..]), old(c.backing), old(c.size), old(c.spacesLeft))
      && result.Some? && Live(c.backing, result.value) && compare(key, c.backing[result.value].key)
    ensures appendPosition.None? && NoEqual(old(c.backing), key, compare, -1) ==>
      && notFoundCalls == 1
      && (notFound.Leave? ==>
            result == None && Unchanged(c, old(c.index[..]), old(c.backing), old(c.size), old(c.spacesLeft)))
      && (notFound.Append? ==>
            && result == Some(APPEND) && c.size == old(c.size) + 1
            && c.backing == old(c.backing) + [Key(notFound.newKey)] + notFound.value)
    ensures appendPosition.Some? ==>
      notFoundCalls == 0 && result == Some(APPEND) && c.backing == old(c.backing) && c.size == old(c.size)
  {
    hide EntryOf, PositionOf, Path, Entered, Probe, CountUsed, CountLive, PowerOfTwo, EntriesOk, AllEntered, Unmatched,
      Comparing, Frame.Missed, Frame.AtCandidate;
    var frame := new Frame<K, V>(key, h, appendPosition);
    ghost var p: Option<nat>, budget: nat := appendPosition, 1;
    notFoundCalls := 0;
    var call := Start(c, frame, hash, compare);
    while !call.Return?
      invariant 0 <= budget && (p.Some? ==> 0 <= p.value) && (c.index == old(c.index) || fresh(c.index))
      invariant p.None? ==>
        && appendPosition.None? && notFoundCalls == 0 && Searching(c, frame, compare, call)
        && ValidCollection(c, hash) && c.index == old(c.index)
        && Unchanged(c, old(c.index[..]), old(c.backing), old(c.size), old(c.spacesLeft))
      invariant p.Some? ==> Inserting(c, frame, hash, compare, call, p.value, budget) && Added(c, frame, hash, compare, p.value)
      invariant p.Some? && appendPosition.Some? ==>
        notFoundCalls == 0 && c.backing == old(c.backing) && c.size == old(c.size)
      invariant p.Some? && appendPosition.None? ==>
        && notFoundCalls == 1 && NoEqual(old(c.backing), key, compare, -1) && notFound.Append?
        && c.size == old(c.size) + 1 && c.backing == old(c.backing) + [Key(notFound.newKey)] + notFound.value
      decreases p.None?, budget, StepsLeft(call),
        if frame.examined < 2 * c.index.Length then 2 * c.index.Length - frame.examined else 0
    {
      match call
      case CallCompare(candidate) =>
        call := Answer(c, frame, hash, compare, candidate, p, budget);
      case CallNotFound =>
        notFoundCalls := notFoundCalls + 1;
        Missing(c, frame, hash, compare);
        if notFound.Leave? {
          return None, notFoundCalls;
        }
        var position := |c.backing|;
        AppendNew(c, frame, hash, compare, notFound.newKey, notFound.value);
        p, budget := Some(position), 2;
        call := PassPosition(c, frame, hash, compare, position, budget);
      case Restart(answer) =>
        ReadyToPass(c, frame, hash, compare, p.value, budget);
        call := PassPosition(c, frame, hash, compare, answer.position, budget);
      case CallRebuild(oldSize) =>
        call := RebuildAndRetry(c, frame, hash, compare, oldSize, p.value, budget);
        budget := budget - 1;
    }
    if p.None? {
      CandidateIsLive(frame, c.index[..], c.backing, compare);
    }
    result := Some(call.value);
  }

  lemma StillReady<K, V>(frame: Frame<K, V>, index: seq<int>, backing: seq<Item<K, V>>, newKey: K, value: seq<Item<K, V>>)
    requires |index| > 0 && EntriesOk(index, backing) && frame.DeletedOk(index, backing)
    ensures EntriesOk(index, backing + [Key(newKey)] + value)
    ensures frame.DeletedOk(index, backing + [Key(newKey)] + value)
  {
    hide Probe, PositionOf;
    var after := backing + [Key(newKey)] + value;
    assert forall s: nat :: s < |index| ==> Replaceable(index, after, s) == Replaceable(index, backing, s);
    if frame.deletedSlot != INVALID_SLOT {
      var d: nat :| d < frame.examined && FirstReplaceable(index, backing, frame.hash, d, frame.deletedSlot);
      assert FirstReplaceable(index, after, frame.hash, d, frame.deletedSlot);
    }
  }
}
