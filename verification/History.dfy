/** Sets and maps from their history: which entries there are, in which order, and with which
    keys and values, said about the operations alone. */
module History {
  import opened Options
  import opened Words
  import opened Collections
  import opened Insertion
  import opened Hashed
  import HashDo

  // ----- What the operations say ---------------------------------------------------------------

  ghost predicate RemovedBetween<K, V>(ops: seq<Op<K, V>>, equal: (K, K) -> bool, key: K, j: int, i: int)
  {
    exists k :: j < k < i && 0 <= k < |ops| && ops[k].Remove? && equal(key, ops[k].key)
  }

  /** The first time that an equal key was stored since it was last removed, and it was not removed
      afterwards. */
  ghost predicate InsertedAt<K, V>(ops: seq<Op<K, V>>, equal: (K, K) -> bool, key: K, i: int)
  {
    && 0 <= i < |ops| && !ops[i].Remove? && equal(key, ops[i].key)
    && !RemovedBetween(ops, equal, key, i, |ops|)
    && forall j :: 0 <= j < i && !ops[j].Remove? && equal(key, ops[j].key) ==> RemovedBetween(ops, equal, key, j, i)
  }

  /** The last operation on an equal key, which stored it. */
  ghost predicate StoredLastAt<K, V>(ops: seq<Op<K, V>>, equal: (K, K) -> bool, key: K, i: int)
  {
    && 0 <= i < |ops| && !ops[i].Remove? && equal(key, ops[i].key)
    && forall k :: i < k < |ops| ==> !equal(key, ops[k].key)
  }

  /** A set gives a key as it was stored last, a map as it was stored first. */
  function EntryFrom<K, V>(ops: seq<Op<K, V>>, first: nat, last: nat): Entry<K, V>
    requires first < |ops| && last < |ops| && !ops[last].Remove?
  {
    if ops[last].Add? then Entry(ops[last].key, None) else Entry(ops[first].key, Some(ops[last].value))
  }

  // ----- The same, one operation at a time -------------------------------------------------------

  ghost function Since<K, V>(ops: seq<Op<K, V>>, equal: (K, K) -> bool, key: K): (r: Option<nat>)
    ensures r.Some? ==> r.value < |ops|
  {
    if ops == [] then None
    else
      var n := |ops| - 1;
      var before := Since(ops[..n], equal, key);
      if !equal(key, ops[n].key) then before
      else if ops[n].Remove? then None
      else if before.Some? then before else Some(n)
  }

  ghost function Latest<K, V>(ops: seq<Op<K, V>>, equal: (K, K) -> bool, key: K): (r: Option<nat>)
    ensures r.Some? ==> r.value < |ops| && !ops[r.value].Remove?
  {
    if ops == [] then None
    else
      var n := |ops| - 1;
      if !equal(key, ops[n].key) then Latest(ops[..n], equal, key) else if ops[n].Remove? then None else Some(n)
  }

  lemma BetweenLonger<K, V>(ops: seq<Op<K, V>>, equal: (K, K) -> bool, key: K, j: int, i: int)
    requires ops != []
    ensures RemovedBetween(ops[..|ops| - 1], equal, key, j, i) ==> RemovedBetween(ops, equal, key, j, i)
    ensures i < |ops| ==> (RemovedBetween(ops, equal, key, j, i) <==> RemovedBetween(ops[..|ops| - 1], equal, key, j, i))
    ensures RemovedBetween(ops, equal, key, j, |ops|) <==>
      || RemovedBetween(ops[..|ops| - 1], equal, key, j, |ops| - 1)
      || (j < |ops| - 1 && ops[|ops| - 1].Remove? && equal(key, ops[|ops| - 1].key))
  {
    var n := |ops| - 1;
    var front := ops[..n];
    assert forall k :: 0 <= k < n ==> front[k] == ops[k];
    if RemovedBetween(front, equal, key, j, i) {
      var k :| j < k < i && 0 <= k < |front| && front[k].Remove? && equal(key, front[k].key);
      assert ops[k].Remove?;
    }
    if RemovedBetween(ops, equal, key, j, i) && i < |ops| {
      var k :| j < k < i && 0 <= k < |ops| && ops[k].Remove? && equal(key, ops[k].key);
      assert front[k].Remove?;
    }
    if RemovedBetween(ops, equal, key, j, |ops|) {
      var k :| j < k < |ops| && 0 <= k && ops[k].Remove? && equal(key, ops[k].key);
      if k < n { assert front[k].Remove?; }
    }
    if RemovedBetween(front, equal, key, j, n) {
      var k :| j < k < n && 0 <= k < |front| && front[k].Remove? && equal(key, front[k].key);
      assert ops[k].Remove?;
    }
    assert j < n && ops[n].Remove? && equal(key, ops[n].key) ==> RemovedBetween(ops, equal, key, j, |ops|);
  }

  lemma {:induction false} SinceIs<K, V>(ops: seq<Op<K, V>>, equal: (K, K) -> bool, key: K)
    ensures var r := Since(ops, equal, key);
      && (r.Some? ==> InsertedAt(ops, equal, key, r.value))
      && (r.None? ==> forall j :: 0 <= j < |ops| && !ops[j].Remove? && equal(key, ops[j].key) ==>
            RemovedBetween(ops, equal, key, j, |ops|))
  {
    hide RemovedBetween;
    if ops == [] {
    } else {
      var n, r := |ops| - 1, Since(ops, equal, key);
      var front := ops[..n];
      SinceIs(front, equal, key);
      if r.Some? {
        BetweenLonger(ops, equal, key, r.value, |ops|);
        if r.value == n { NothingBehind(ops, equal, key); }
        forall j | 0 <= j < r.value && !ops[j].Remove? && equal(key, ops[j].key)
          ensures RemovedBetween(ops, equal, key, j, r.value)
        {
          BetweenLonger(ops, equal, key, j, r.value);
          assert front[j] == ops[j];
        }
      } else {
        forall j | 0 <= j < |ops| && !ops[j].Remove? && equal(key, ops[j].key)
          ensures RemovedBetween(ops, equal, key, j, |ops|)
        {
          BetweenLonger(ops, equal, key, j, |ops|);
          if j < n { assert front[j] == ops[j]; }
        }
      }
    }
  }

  lemma NothingBehind<K, V>(ops: seq<Op<K, V>>, equal: (K, K) -> bool, key: K)
    ensures !RemovedBetween(ops, equal, key, |ops| - 1, |ops|)
  {
  }

  /** There is at most one such time. */
  lemma InsertedOnce<K, V>(ops: seq<Op<K, V>>, equal: (K, K) -> bool, key: K, i: int)
    requires InsertedAt(ops, equal, key, i)
    ensures Since(ops, equal, key) == Some(i)
  {
    hide RemovedBetween;
    SinceIs(ops, equal, key);
    var r := Since(ops, equal, key);
    if r.Some? {
      BetweenWider(ops, equal, key, r.value, i);
      BetweenWider(ops, equal, key, i, r.value);
    }
  }

  lemma BetweenWider<K, V>(ops: seq<Op<K, V>>, equal: (K, K) -> bool, key: K, j: int, i: int)
    requires i <= |ops|
    ensures RemovedBetween(ops, equal, key, j, i) ==> RemovedBetween(ops, equal, key, j, |ops|)
  {
    if RemovedBetween(ops, equal, key, j, i) {
      var k :| j < k < i && 0 <= k < |ops| && ops[k].Remove? && equal(key, ops[k].key);
      assert j < k < |ops|;
    }
  }

  lemma {:induction false} LatestIs<K, V>(ops: seq<Op<K, V>>, equal: (K, K) -> bool, key: K)
    ensures var r := Latest(ops, equal, key);
      r.Some? ==> StoredLastAt(ops, equal, key, r.value)
  {
    if ops == [] {
    } else {
      LatestIs(ops[..|ops| - 1], equal, key);
    }
  }

  lemma {:induction false} Present<K, V>(ops: seq<Op<K, V>>, equal: (K, K) -> bool, key: K)
    ensures Since(ops, equal, key).Some? <==> LastWord(ops, equal, key).Some?
    ensures Since(ops, equal, key).Some? <==> Latest(ops, equal, key).Some?
  {
    if ops == [] {
    } else {
      Present(ops[..|ops| - 1], equal, key);
    }
  }

  lemma {:induction false} SameForEqual<K(!new), V>(ops: seq<Op<K, V>>, equal: (K, K) -> bool, hash: K -> int, a: K, b: K)
    requires Compatible(equal, hash) && equal(a, b)
    ensures Since(ops, equal, a) == Since(ops, equal, b) && Latest(ops, equal, a) == Latest(ops, equal, b)
  {
    hide Compatible;
    if ops == [] {
    } else {
      var n := |ops| - 1;
      SameForEqual(ops[..n], equal, hash, a, b);
      Chain(equal, hash, a, b, ops[n].key);
      Chain(equal, hash, b, a, ops[n].key);
    }
  }

  // ----- Entries and operations -----------------------------------------------------------------

  /** Sets are added to, values are put into maps. */
  ghost predicate Uniform<K, V>(ops: seq<Op<K, V>>, width: Width)
  {
    forall i :: 0 <= i < |ops| ==> if width == 1 then !ops[i].Put? else !ops[i].Add?
  }

  /** Where an entry comes from. */
  ghost predicate ComesFrom<K, V>(ops: seq<Op<K, V>>, equal: (K, K) -> bool, entry: Entry<K, V>, first: nat, last: nat)
  {
    && Since(ops, equal, entry.key) == Some(first) && Latest(ops, equal, entry.key) == Some(last)
    && first < |ops| && last < |ops| && !ops[last].Remove? && entry == EntryFrom(ops, first, last)
  }

  ghost predicate InOrder<K, V>(
    ops: seq<Op<K, V>>, equal: (K, K) -> bool, entries: seq<Entry<K, V>>, first: seq<nat>, last: seq<nat>)
  {
    && |first| == |last| == |entries|
    && (forall k :: 0 <= k < |entries| ==> ComesFrom(ops, equal, entries[k], first[k], last[k]))
    && (forall j, k :: 0 <= j < k < |first| ==> first[j] < first[k])
  }

  /** Another operation does not change where an entry comes from. */
  lemma StillComesFrom<K, V>(ops: seq<Op<K, V>>, equal: (K, K) -> bool, op: Op<K, V>, entry: Entry<K, V>, first: nat, last: nat)
    requires ComesFrom(ops, equal, entry, first, last) && !equal(entry.key, op.key)
    ensures ComesFrom(ops + [op], equal, entry, first, last)
  {
    assert (ops + [op])[..|ops|] == ops;
  }

  lemma NewComesFrom<K(!new), V>(ops: seq<Op<K, V>>, equal: (K, K) -> bool, hash: K -> int, op: Op<K, V>)
    requires Compatible(equal, hash) && !op.Remove? && Since(ops, equal, op.key) == None
    ensures ComesFrom(ops + [op], equal, EntryFrom(ops + [op], |ops|, |ops|), |ops|, |ops|)
  {
    assert (ops + [op])[..|ops|] == ops;
  }

  lemma ChangedComesFrom<K(!new), V>(
    ops: seq<Op<K, V>>, equal: (K, K) -> bool, hash: K -> int, width: Width, op: Op<K, V>, entry: Entry<K, V>,
    first: nat, last: nat)
    requires Compatible(equal, hash) && Uniform(ops + [op], width) && !op.Remove?
    requires ComesFrom(ops, equal, entry, first, last) && equal(op.key, entry.key)
    ensures var changed := if op.Add? then Entry(op.key, None) else Entry(entry.key, Some(op.value));
      ComesFrom(ops + [op], equal, changed, first, |ops|)
  {
    var more := ops + [op];
    assert more[..|ops|] == ops && more[|ops|] == op && more[last] == ops[last];
    SameForEqual(ops, equal, hash, op.key, entry.key);
  }

  lemma OthersDiffer<K(!new), V>(entries: seq<Entry<K, V>>, equal: (K, K) -> bool, hash: K -> int, key: K, i: nat, k: nat)
    requires Compatible(equal, hash) && Unique(entries, equal)
    requires i < |entries| && k < |entries| && i != k && equal(key, entries[i].key)
    ensures !equal(entries[k].key, key)
  {
    hide Compatible;
    Chain(equal, hash, entries[k].key, key, entries[i].key);
  }

  lemma NotFoundDiffers<K(!new), V>(entries: seq<Entry<K, V>>, equal: (K, K) -> bool, hash: K -> int, key: K, k: nat)
    requires Compatible(equal, hash) && IndexOf(entries, equal, key) == None && k < |entries|
    ensures !equal(entries[k].key, key)
  {
  }

  lemma AppendedInOrder<K(!new), V>(
    ops: seq<Op<K, V>>, equal: (K, K) -> bool, hash: K -> int, op: Op<K, V>, entries: seq<Entry<K, V>>, first: seq<nat>, last: seq<nat>)
    requires Compatible(equal, hash) && InOrder(ops, equal, entries, first, last)
    requires IndexOf(entries, equal, op.key) == None && Since(ops, equal, op.key) == None
    ensures op.Remove? ==> InOrder(ops + [op], equal, entries, first, last)
    ensures !op.Remove? ==>
      InOrder(ops + [op], equal, entries + [EntryFrom(ops + [op], |ops|, |ops|)], first + [|ops|], last + [|ops|])
  {
    hide Compatible, ComesFrom;
    forall k | 0 <= k < |entries|
      ensures ComesFrom(ops + [op], equal, entries[k], first[k], last[k]) && first[k] < |ops|
    {
      NotFoundDiffers(entries, equal, hash, op.key, k);
      StillComesFrom(ops, equal, op, entries[k], first[k], last[k]);
      FromBefore(ops, equal, entries[k], first[k], last[k]);
    }
    if !op.Remove? {
      NewComesFrom(ops, equal, hash, op);
      OneMore(ops + [op], equal, entries, first, last, EntryFrom(ops + [op], |ops|, |ops|), |ops|);
    }
  }

  lemma OneMore<K, V>(
    ops: seq<Op<K, V>>, equal: (K, K) -> bool, entries: seq<Entry<K, V>>, first: seq<nat>, last: seq<nat>, entry: Entry<K, V>, n: nat)
    requires InOrder(ops, equal, entries, first, last) && ComesFrom(ops, equal, entry, n, n)
    requires forall k :: 0 <= k < |first| ==> first[k] < n
    ensures InOrder(ops, equal, entries + [entry], first + [n], last + [n])
  {
    hide ComesFrom;
  }

  lemma FromBefore<K, V>(ops: seq<Op<K, V>>, equal: (K, K) -> bool, entry: Entry<K, V>, first: nat, last: nat)
    requires ComesFrom(ops, equal, entry, first, last)
    ensures first < |ops| && last < |ops|
  {
  }

  lemma ChangedInOrder<K(!new), V>(
    ops: seq<Op<K, V>>, equal: (K, K) -> bool, hash: K -> int, width: Width, op: Op<K, V>, entries: seq<Entry<K, V>>,
    first: seq<nat>, last: seq<nat>, i: nat)
    requires Compatible(equal, hash) && Unique(entries, equal) && InOrder(ops, equal, entries, first, last)
    requires Uniform(ops + [op], width) && !op.Remove? && i < |entries| && equal(op.key, entries[i].key)
    ensures var changed := if op.Add? then Entry(op.key, None) else Entry(entries[i].key, Some(op.value));
      InOrder(ops + [op], equal, entries[i := changed], first, last[i := |ops|])
  {
    hide Compatible, ComesFrom, Unique, Uniform;
    ChangedComesFrom(ops, equal, hash, width, op, entries[i], first[i], last[i]);
    forall k | 0 <= k < |entries| && k != i
      ensures ComesFrom(ops + [op], equal, entries[k], first[k], last[k])
    {
      OthersDiffer(entries, equal, hash, op.key, i, k);
      StillComesFrom(ops, equal, op, entries[k], first[k], last[k]);
    }
  }

  lemma RemovedInOrder<K(!new), V>(
    ops: seq<Op<K, V>>, equal: (K, K) -> bool, hash: K -> int, op: Op<K, V>, entries: seq<Entry<K, V>>,
    first: seq<nat>, last: seq<nat>, i: nat)
    requires Compatible(equal, hash) && Unique(entries, equal) && InOrder(ops, equal, entries, first, last)
    requires op.Remove? && i < |entries| && equal(op.key, entries[i].key)
    ensures InOrder(ops + [op], equal, Without(entries, i), first[..i] + first[i + 1..], last[..i] + last[i + 1..])
  {
    hide Compatible, ComesFrom, Unique;
    var f, l, shorter := first[..i] + first[i + 1..], last[..i] + last[i + 1..], Without(entries, i);
    forall k | 0 <= k < |shorter|
      ensures ComesFrom(ops + [op], equal, shorter[k], f[k], l[k])
    {
      var k' := if k < i then k else k + 1;
      assert shorter[k] == entries[k'] && f[k] == first[k'] && l[k] == last[k'];
      OthersDiffer(entries, equal, hash, op.key, i, k');
      StillComesFrom(ops, equal, op, entries[k'], first[k'], last[k']);
    }
    forall j, k | 0 <= j < k < |f|
      ensures f[j] < f[k]
    {
      assert f[j] == first[if j < i then j else j + 1] && f[k] == first[if k < i then k else k + 1];
    }
  }

  /** The entries that operations leave are in the order in which their keys came in. */
  lemma {:induction false} EntriesInOrder<K(!new), V>(ops: seq<Op<K, V>>, equal: (K, K) -> bool, hash: K -> int, width: Width)
    returns (first: seq<nat>, last: seq<nat>)
    requires Compatible(equal, hash) && Uniform(ops, width)
    ensures InOrder(ops, equal, AfterAll(ops, equal), first, last)
    decreases |ops|
  {
    hide Compatible, InOrder, Unique, LastWord, Since, Without;
    if ops == [] {
      first, last := [], [];
      assert InOrder(ops, equal, [], first, last) by { NothingInOrder<K, V>(equal); }
    } else {
      var front, op := ops[..|ops| - 1], ops[|ops| - 1];
      var entries := AfterAll(front, equal);
      var f, l := EntriesInOrder(front, equal, hash, width);
      LookupAfterAll(front, equal, hash, op.key);
      Present(front, equal, op.key);
      SameSize(front, equal, entries, f, l);
      assert front + [op] == ops;
      var i := IndexOf(entries, equal, op.key);
      if i.None? {
        AppendedInOrder(front, equal, hash, op, entries, f, l);
        first, last := if op.Remove? then f else f + [|front|], if op.Remove? then l else l + [|front|];
      } else if op.Remove? {
        RemovedInOrder(front, equal, hash, op, entries, f, l, i.value);
        first, last := f[..i.value] + f[i.value + 1..], l[..i.value] + l[i.value + 1..];
      } else {
        ChangedInOrder(front, equal, hash, width, op, entries, f, l, i.value);
        first, last := f, l[i.value := |front|];
      }
    }
  }

  lemma NothingInOrder<K, V>(equal: (K, K) -> bool)
    ensures InOrder<K, V>([], equal, [], [], [])
  {
  }

  lemma SameSize<K, V>(ops: seq<Op<K, V>>, equal: (K, K) -> bool, entries: seq<Entry<K, V>>, first: seq<nat>, last: seq<nat>)
    requires InOrder(ops, equal, entries, first, last)
    ensures |first| == |last| == |entries|
  {
  }

  // ----- Whole runs -----------------------------------------------------------------------------

  /** Everything about the entries of a collection, from its history alone: each entry stands for the time
      when its key came in, these times are all there are, and they are in order. */
  ghost predicate Tells<K(!new), V>(ops: seq<Op<K, V>>, equal: (K, K) -> bool, first: seq<nat>, last: seq<nat>)
  {
    && |first| == |last|
    && (forall k :: 0 <= k < |first| ==>
         && first[k] < |ops| && last[k] < |ops|
         && InsertedAt(ops, equal, ops[first[k]].key, first[k]) && StoredLastAt(ops, equal, ops[first[k]].key, last[k]))
    && (forall j, k :: 0 <= j < k < |first| ==> first[j] < first[k])
    && (forall i :: 0 <= i < |ops| && InsertedAt(ops, equal, ops[i].key, i) ==> i in first)
  }

  lemma OrderTells<K(!new), V>(
    ops: seq<Op<K, V>>, equal: (K, K) -> bool, hash: K -> int, entries: seq<Entry<K, V>>, first: seq<nat>, last: seq<nat>)
    requires Compatible(equal, hash) && entries == AfterAll(ops, equal) && InOrder(ops, equal, entries, first, last)
    ensures Tells(ops, equal, first, last)
  {
    hide Compatible, InsertedAt, StoredLastAt, Since, Latest, LastWord, AfterAll;
    forall k | 0 <= k < |first|
      ensures first[k] < |ops| && last[k] < |ops|
      ensures InsertedAt(ops, equal, ops[first[k]].key, first[k]) && StoredLastAt(ops, equal, ops[first[k]].key, last[k])
    {
      EntryTells(ops, equal, hash, entries[k], first[k], last[k]);
    }
    forall i | 0 <= i < |ops| && InsertedAt(ops, equal, ops[i].key, i)
      ensures i in first
    {
      InsertedIsListed(ops, equal, hash, entries, first, last, i);
    }
  }

  lemma EntryTells<K(!new), V>(
    ops: seq<Op<K, V>>, equal: (K, K) -> bool, hash: K -> int, entry: Entry<K, V>, first: nat, last: nat)
    requires Compatible(equal, hash) && ComesFrom(ops, equal, entry, first, last)
    ensures first < |ops| && last < |ops|
    ensures InsertedAt(ops, equal, ops[first].key, first) && StoredLastAt(ops, equal, ops[first].key, last)
  {
    hide Compatible, RemovedBetween, Since, Latest;
    SinceIs(ops, equal, entry.key);
    SameForEqual(ops, equal, hash, entry.key, ops[first].key);
    SinceIs(ops, equal, ops[first].key);
    LatestIs(ops, equal, ops[first].key);
  }

  lemma InsertedIsListed<K(!new), V>(
    ops: seq<Op<K, V>>, equal: (K, K) -> bool, hash: K -> int, entries: seq<Entry<K, V>>, first: seq<nat>, last: seq<nat>, i: nat)
    requires Compatible(equal, hash) && entries == AfterAll(ops, equal) && InOrder(ops, equal, entries, first, last)
    requires i < |ops| && InsertedAt(ops, equal, ops[i].key, i)
    ensures i in first
  {
    hide Compatible, InsertedAt, Since, Latest, LastWord, AfterAll;
    var key := ops[i].key;
    InsertedOnce(ops, equal, key, i);
    Present(ops, equal, key);
    LookupAfterAll(ops, equal, hash, key);
    var k := IndexOf(entries, equal, key).value;
    SameForEqual(ops, equal, hash, key, entries[k].key);
    assert ComesFrom(ops, equal, entries[k], first[k], last[k]);
  }

  /** The calls of a block, from the history alone: one for each key that came in and was not removed, in the
      order in which they came in, or in reverse; in a set with the key as it was added last, in a map with the
      key as it came in and the value that was put last. */
  ghost predicate CallsTell<K(!new), V>(
    ops: seq<Op<K, V>>, equal: (K, K) -> bool, width: Width, reversed: bool, calls: seq<HashDo.Arguments<K, V>>,
    first: seq<nat>, last: seq<nat>)
  {
    && Tells(ops, equal, first, last) && |calls| == |first|
    && forall k :: 0 <= k < |calls| ==>
         var call := calls[if reversed then |calls| - 1 - k else k];
         && first[k] < |ops| && last[k] < |ops|
         && if width == 1 then call == [Key(ops[last[k]].key)]
            else ops[last[k]].Put? && call == [Key(ops[first[k]].key), Value(ops[last[k]].value)]
  }

  /** A set or map that begins empty, any operations, and then an iteration. */
  method RunAndDo<K(!new), V>(width: Width, hash: K -> int, equal: (K, K) -> bool, ops: seq<Op<K, V>>, reversed: bool)
    returns (calls: seq<HashDo.Arguments<K, V>>)
    requires Compatible(equal, hash) && Uniform(ops, width)
    ensures exists first, last :: CallsTell(ops, equal, width, reversed, calls, first, last)
  {
    hide Compatible, Tells, AfterAll, InOrder, Calls, Reversed, CallsTell;
    var h := Run(width, hash, equal, ops);
    ghost var first, last := EntriesInOrder(ops, equal, hash, width);
    ghost var entries := AfterAll(ops, equal);
    OrderTells(ops, equal, hash, entries, first, last);
    calls := h.Do(reversed);
    CallsAsTold(ops, equal, width, reversed, entries, calls, first, last);
  }

  lemma CallsAsTold<K(!new), V>(
    ops: seq<Op<K, V>>, equal: (K, K) -> bool, width: Width, reversed: bool, entries: seq<Entry<K, V>>,
    calls: seq<HashDo.Arguments<K, V>>, first: seq<nat>, last: seq<nat>)
    requires Tells(ops, equal, first, last) && InOrder(ops, equal, entries, first, last) && Uniform(ops, width)
    requires calls == if reversed then Reversed(Calls(entries)) else Calls(entries)
    ensures CallsTell(ops, equal, width, reversed, calls, first, last)
  {
    hide Tells, InOrder, Calls, Reversed;
    CallsFrom(ops, equal, width, entries, first, last);
  }

  lemma CallsFrom<K, V>(
    ops: seq<Op<K, V>>, equal: (K, K) -> bool, width: Width, entries: seq<Entry<K, V>>, first: seq<nat>, last: seq<nat>)
    requires InOrder(ops, equal, entries, first, last) && Uniform(ops, width)
    ensures |Calls(entries)| == |first| == |last|
    ensures forall k :: 0 <= k < |first| ==>
      first[k] < |ops| && last[k] < |ops| && !ops[last[k]].Remove?
      && Calls(entries)[k] == if width == 1 then [Key(ops[last[k]].key)] else [Key(ops[first[k]].key), Value(ops[last[k]].value)]
  {
    hide Since, Latest;
    forall k | 0 <= k < |first|
      ensures first[k] < |ops| && last[k] < |ops| && !ops[last[k]].Remove?
      ensures Calls(entries)[k] == if width == 1 then [Key(ops[last[k]].key)] else [Key(ops[first[k]].key), Value(ops[last[k]].value)]
    {
      assert ComesFrom(ops, equal, entries[k], first[k], last[k]);
    }
  }
}
