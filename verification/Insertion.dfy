/** What a hashed collection holds: its live entries in the order of insertion, whatever
    tombstones lie between them in the backing. */
module Insertion {
  import opened Options
  import opened Words
  import opened Collections
  import opened HashFind
  import opened HashedCollection
  import HashDo

  /** A key and, in a map, its value. */
  datatype Entry<K, V> = Entry(key: K, value: Option<V>)

  /** The number of slots per entry: one in sets, two in maps. */
  type Width = w: nat | w == 1 || w == 2 witness 1

  // ----- Backings ---------------------------------------------------------------------------

  /** The slots of one entry: a live one, or its tombstones. */
  ghost predicate Chunk<K, V>(slots: seq<Item<K, V>>, width: Width)
  {
    && |slots| == width
    && if width == 1 then slots[0].Key? || slots[0].Tombstone?
       else (slots[0].Key? && slots[1].Value?) || (slots[0].Tombstone? && slots[1].Tombstone?)
  }

  ghost predicate Shaped<K, V>(backing: seq<Item<K, V>>, width: Width)
    decreases |backing|
  {
    backing == [] || (|backing| >= width && var n := |backing| - width; Shaped(backing[..n], width) && Chunk(backing[n..], width))
  }

  function EntryOfChunk<K, V>(slots: seq<Item<K, V>>): seq<Entry<K, V>>
  {
    if slots == [] || !slots[0].Key? then []
    else [Entry(slots[0].key, if |slots| == 2 && slots[1].Value? then Some(slots[1].value) else None)]
  }

  /** The live entries in order. */
  function Entries<K, V>(backing: seq<Item<K, V>>, width: Width): seq<Entry<K, V>>
    decreases |backing|
  {
    if |backing| < width then []
    else var n := |backing| - width; Entries(backing[..n], width) + EntryOfChunk(backing[n..])
  }

  /** One entry more. */
  lemma Snoc<K, V>(front: seq<Item<K, V>>, slots: seq<Item<K, V>>, width: Width)
    requires Shaped(front, width) && Chunk(slots, width)
    ensures Shaped(front + slots, width)
    ensures Entries(front + slots, width) == Entries(front, width) + EntryOfChunk(slots)
  {
    hide Chunk, EntryOfChunk;
    ChunkSize(slots, width);
    assert (front + slots)[..|front|] == front && (front + slots)[|front|..] == slots;
  }

  lemma ChunkSize<K, V>(slots: seq<Item<K, V>>, width: Width)
    requires Chunk(slots, width)
    ensures |slots| == width
  {
  }

  /** One entry less. */
  lemma Unsnoc<K, V>(backing: seq<Item<K, V>>, width: Width) returns (front: seq<Item<K, V>>, slots: seq<Item<K, V>>)
    requires Shaped(backing, width) && backing != []
    ensures backing == front + slots && Shaped(front, width) && Chunk(slots, width) && |slots| == width
    ensures Entries(backing, width) == Entries(front, width) + EntryOfChunk(slots)
  {
    hide EntryOfChunk;
    front, slots := backing[..|backing| - width], backing[|backing| - width..];
  }

  lemma {:induction false} ShapedConcat<K, V>(a: seq<Item<K, V>>, b: seq<Item<K, V>>, width: Width)
    requires Shaped(a, width) && Shaped(b, width)
    ensures Shaped(a + b, width) && Entries(a + b, width) == Entries(a, width) + Entries(b, width)
    decreases |b|
  {
    if b == [] {
      assert a + b == a && Entries(a, width) + [] == Entries(a, width);
    } else {
      hide Shaped, Entries, Chunk, EntryOfChunk;
      var front, slots := Unsnoc(b, width);
      ShapedConcat(a, front, width);
      Snoc(a + front, slots, width);
      ConcatAssociates(a, front, slots);
      ConcatAssociates(Entries(a, width), Entries(front, width), EntryOfChunk(slots));
    }
  }

  lemma ChunkIsShaped<K, V>(slots: seq<Item<K, V>>, width: Width)
    requires Chunk(slots, width)
    ensures Shaped(slots, width) && Entries(slots, width) == EntryOfChunk(slots)
  {
    assert slots[..0] == [] && slots[0..] == slots;
  }

  /** Every entry's slots divide the backing. */
  lemma {:induction false} Divide<K, V>(backing: seq<Item<K, V>>, width: Width, p: nat)
    requires Shaped(backing, width) && p < |backing| && p % width == 0
    ensures p + width <= |backing|
    ensures Shaped(backing[..p], width) && Chunk(backing[p..p + width], width) && Shaped(backing[p + width..], width)
    decreases |backing|
  {
    hide Shaped, Chunk, Entries, EntryOfChunk;
    EmptyShaped<K, V>(width);
    var front, slots := Unsnoc(backing, width);
    ShapedLength(front, width);
    Aligned(p, |front|, width);
    assert backing[..|front|] == front && backing[|front|..] == slots;
    if p == |front| {
      assert backing[p..p + width] == slots && backing[p + width..] == [];
    } else {
      Divide(front, width, p);
      assert front[..p] == backing[..p] && front[p..p + width] == backing[p..p + width];
      Snoc(front[p + width..], slots, width);
      assert backing[p + width..] == front[p + width..] + slots;
    }
  }

  lemma Aligned(p: nat, n: nat, width: Width)
    requires p % width == 0 && n % width == 0 && p < n + width
    ensures p == n || p + width <= n
  {
    if width == 1 {
    } else {
      assert p % 2 == 0 && n % 2 == 0;
    }
  }

  lemma EmptyShaped<K, V>(width: Width)
    ensures Shaped<K, V>([], width) && Entries<K, V>([], width) == []
  {
  }

  lemma {:induction false} ShapedLength<K, V>(backing: seq<Item<K, V>>, width: Width)
    requires Shaped(backing, width)
    ensures |backing| % width == 0
    decreases |backing|
  {
    if backing == [] {
    } else {
      ShapedLength(backing[..|backing| - width], width);
    }
  }

  /** Where the entry at `p` is among the live ones. */
  ghost function Rank<K, V>(backing: seq<Item<K, V>>, width: Width, p: nat): nat
    requires p <= |backing|
  {
    |Entries(backing[..p], width)|
  }

  /** The entries before, at and after a place, and after any change of its slots. */
  lemma EntriesAround<K, V>(backing: seq<Item<K, V>>, width: Width, p: nat, slots: seq<Item<K, V>>)
    requires Shaped(backing, width) && p < |backing| && p % width == 0 && Chunk(slots, width)
    ensures p + width <= |backing| && Chunk(backing[p..p + width], width)
    ensures var a, b := backing[..p], backing[p + width..];
      && Entries(backing, width) == Entries(a, width) + EntryOfChunk(backing[p..p + width]) + Entries(b, width)
      && Shaped(a + slots + b, width)
      && Entries(a + slots + b, width) == Entries(a, width) + EntryOfChunk(slots) + Entries(b, width)
  {
    hide Shaped, Chunk, Entries, EntryOfChunk;
    Divide(backing, width, p);
    assert backing == backing[..p] + backing[p..p + width] + backing[p + width..];
    var a, m, b := backing[..p], backing[p..p + width], backing[p + width..];
    ChunkIsShaped(m, width);
    ChunkIsShaped(slots, width);
    ShapedConcat(a, m, width);
    ShapedConcat(a + m, b, width);
    ShapedConcat(a, slots, width);
    ShapedConcat(a + slots, b, width);
  }

  // ----- Places and entries -----------------------------------------------------------------

  lemma {:induction false} LiveIsAligned<K, V>(backing: seq<Item<K, V>>, width: Width, p: nat)
    requires Shaped(backing, width) && Live(backing, p)
    ensures p % width == 0
    decreases |backing|
  {
    hide Shaped, Entries, EntryOfChunk;
    var front, slots := Unsnoc(backing, width);
    ShapedLength(front, width);
    if p < |front| {
      LiveIsAligned(front, width, p);
    } else {
      assert backing[p] == slots[p - |front|];
    }
  }

  lemma {:induction false} CountIsLength<K, V>(backing: seq<Item<K, V>>, width: Width)
    requires Shaped(backing, width)
    ensures CountLive(backing) == |Entries(backing, width)|
    decreases |backing|
  {
    if backing == [] {
    } else {
      hide Shaped, Entries, CountLive;
      var front, slots := Unsnoc(backing, width);
      CountIsLength(front, width);
      CountLiveConcat(front, slots);
      CountChunk(slots, width);
    }
  }

  lemma CountChunk<K, V>(slots: seq<Item<K, V>>, width: Width)
    requires Chunk(slots, width)
    ensures CountLive(slots) == |EntryOfChunk(slots)|
  {
    if width == 1 {
      assert slots[..0] == [];
    } else {
      assert slots[..1][..0] == [];
    }
  }

  /** The entry whose key is at `p`. */
  lemma EntryAt<K, V>(backing: seq<Item<K, V>>, width: Width, p: nat)
    requires Shaped(backing, width) && Live(backing, p)
    ensures p + width <= |backing| && Chunk(backing[p..p + width], width)
    ensures var i, entries := Rank(backing, width, p), Entries(backing, width);
      && i < |entries| && [entries[i]] == EntryOfChunk(backing[p..p + width])
      && entries[i].key == backing[p].key
      && (width == 2 ==> backing[p + 1].Value? && entries[i].value == Some(backing[p + 1].value))
  {
    hide Shaped, Entries;
    LiveIsAligned(backing, width, p);
    Divide(backing, width, p);
    var slots := backing[p..p + width];
    EntriesAround(backing, width, p, slots);
    assert slots[0] == backing[p];
  }

  lemma {:induction false} PlaceOf<K, V>(backing: seq<Item<K, V>>, width: Width, i: nat) returns (p: nat)
    requires Shaped(backing, width) && i < |Entries(backing, width)|
    ensures Live(backing, p) && Rank(backing, width, p) == i
    decreases |backing|
  {
    EmptyShaped<K, V>(width);
    hide Shaped, Entries;
    var front, slots := Unsnoc(backing, width);
    if i < |Entries(front, width)| {
      p := PlaceOf(front, width, i);
      assert backing[p] == front[p] && backing[..p] == front[..p];
    } else {
      p := |front|;
      assert backing[p] == slots[0] && backing[..p] == front;
    }
  }

  // ----- Changes ----------------------------------------------------------------------------

  /** One entry removed. */
  function Without<K, V>(entries: seq<Entry<K, V>>, i: nat): seq<Entry<K, V>>
    requires i < |entries|
  {
    entries[..i] + entries[i + 1..]
  }

  lemma RemovedEntries<K, V>(backing: seq<Item<K, V>>, width: Width, p: nat, after: seq<Item<K, V>>)
    requires Shaped(backing, width) && Live(backing, p) && p + width <= |backing|
    requires after == if width == 1 then backing[p := Tombstone(0)] else backing[p := Tombstone(0)][p + 1 := Tombstone(0)]
    ensures Shaped(after, width)
    ensures var i := Rank(backing, width, p);
      i < |Entries(backing, width)| && Entries(after, width) == Without(Entries(backing, width), i)
  {
    hide Shaped, Entries;
    LiveIsAligned(backing, width, p);
    EntryAt(backing, width, p);
    var slots: seq<Item<K, V>> := if width == 1 then [Tombstone(0)] else [Tombstone(0), Tombstone(0)];
    EntriesAround(backing, width, p, slots);
    Updated(backing, p, Tombstone(0), Tombstone(0));
  }

  /** One slot, or two, in the middle of a backing. */
  lemma Updated<K, V>(backing: seq<Item<K, V>>, p: nat, first: Item<K, V>, second: Item<K, V>)
    requires p < |backing|
    ensures backing[p := first] == backing[..p] + [first] + backing[p + 1..]
    ensures p + 1 < |backing| ==>
      && backing[p := first][p + 1 := second] == backing[..p] + [first, second] + backing[p + 2..]
      && backing[p + 1 := second] == backing[..p] + [backing[p], second] + backing[p + 2..]
  {
  }

  lemma ChangedEntry<K, V>(backing: seq<Item<K, V>>, width: Width, p: nat, after: seq<Item<K, V>>, entry: Entry<K, V>)
    requires Shaped(backing, width) && Live(backing, p)
    requires after == (if width == 1 then backing[p := Key(entry.key)]
      else if p + 1 < |backing| && entry.value.Some? then backing[p + 1 := Value(entry.value.value)] else backing)
    requires width == 1 ==> entry.value == None
    requires width == 2 ==> entry.key == backing[p].key && entry.value.Some?
    ensures Shaped(after, width)
    ensures var i := Rank(backing, width, p);
      i < |Entries(backing, width)| && Entries(after, width) == Entries(backing, width)[i := entry]
  {
    hide Shaped, Entries;
    LiveIsAligned(backing, width, p);
    EntryAt(backing, width, p);
    var slots: seq<Item<K, V>> := if width == 1 then [Key(entry.key)] else [backing[p], Value(entry.value.value)];
    EntriesAround(backing, width, p, slots);
    Updated(backing, p, slots[0], slots[|slots| - 1]);
    assert after == backing[..p] + slots + backing[p + width..];
    var a, before, b := Entries(backing[..p], width), Entries(backing, width)[Rank(backing, width, p)], Entries(backing[p + width..], width);
    Replaced(a, before, entry, b);
  }

  lemma Replaced<T>(a: seq<T>, x: T, y: T, b: seq<T>)
    ensures (a + [x] + b)[|a| := y] == a + [y] + b
  {
  }

  // ----- Compaction -------------------------------------------------------------------------

  lemma {:induction false} CompactedConcat<K, V>(a: seq<Item<K, V>>, b: seq<Item<K, V>>)
    ensures Compacted(a + b) == Compacted(a) + Compacted(b)
    decreases |b|
  {
    if b == [] {
      assert a + b == a;
    } else {
      var n := |b| - 1;
      CompactedConcat(a, b[..n]);
      assert (a + b)[..|a + b| - 1] == a + b[..n];
    }
  }

  lemma CompactedChunk<K, V>(slots: seq<Item<K, V>>, width: Width)
    requires Chunk(slots, width)
    ensures Compacted(slots) == if slots[0].Key? then slots else []
  {
    if width == 1 {
      assert slots[..0] == [];
    } else {
      assert slots[..1][..0] == [];
    }
  }

  /** Compaction changes nothing that can be seen, and leaves no waste. */
  lemma {:induction false} CompactedEntries<K, V>(backing: seq<Item<K, V>>, width: Width)
    requires Shaped(backing, width)
    ensures Shaped(Compacted(backing), width) && Entries(Compacted(backing), width) == Entries(backing, width)
    ensures |Compacted(backing)| == |Entries(backing, width)| * width
    decreases |backing|
  {
    if backing == [] {
    } else {
      hide Shaped, Entries, Compacted;
      var front, slots := Unsnoc(backing, width);
      CompactedEntries(front, width);
      CompactedConcat(front, slots);
      CompactedChunk(slots, width);
      if slots[0].Key? {
        Snoc(Compacted(front), slots, width);
      } else {
        assert Compacted(front) + [] == Compacted(front);
      }
    }
  }

  // ----- Iteration --------------------------------------------------------------------------

  function ArgumentsFor<K, V>(entry: Entry<K, V>): HashDo.Arguments<K, V>
  {
    if entry.value.None? then [Key(entry.key)] else [Key(entry.key), Value(entry.value.value)]
  }

  /** The calls of a block that gets each entry in turn. */
  function Calls<K, V>(entries: seq<Entry<K, V>>): (r: seq<HashDo.Arguments<K, V>>)
    ensures |r| == |entries| && forall i :: 0 <= i < |r| ==> r[i] == ArgumentsFor(entries[i])
  {
    seq(|entries|, i requires 0 <= i < |entries| => ArgumentsFor(entries[i]))
  }

  function Reversed<T>(s: seq<T>): (r: seq<T>)
    ensures |r| == |s| && forall i :: 0 <= i < |s| ==> r[i] == s[|s| - 1 - i]
  {
    seq(|s|, i requires 0 <= i < |s| => s[|s| - 1 - i])
  }

  lemma ChunkArguments<K, V>(backing: seq<Item<K, V>>, width: Width, c: nat)
    requires c + width <= |backing| && Chunk(backing[c..c + width], width) && backing[c].Key?
    ensures EntryOfChunk(backing[c..c + width]) == [EntryOfChunk(backing[c..c + width])[0]]
    ensures HashDo.ArgumentsAt(backing, c, width) == ArgumentsFor(EntryOfChunk(backing[c..c + width])[0])
    ensures HashDo.ArgumentsAt(backing, c, -(width as int)) == ArgumentsFor(EntryOfChunk(backing[c..c + width])[0])
  {
    var slots := backing[c..c + width];
    assert slots[0] == backing[c] && (width == 2 ==> slots[1] == backing[c + 1]);
  }

  lemma ChunkHead<K, V>(backing: seq<Item<K, V>>, width: Width, c: nat)
    requires c + width <= |backing| && Chunk(backing[c..c + width], width)
    ensures backing[c].Key? || backing[c].Tombstone?
    ensures backing[c].Tombstone? ==> EntryOfChunk(backing[c..c + width]) == []
  {
    assert backing[c..c + width][0] == backing[c];
  }

  lemma CallsConcat<K, V>(a: seq<Entry<K, V>>, b: seq<Entry<K, V>>)
    ensures Calls(a + b) == Calls(a) + Calls(b)
    ensures Reversed(Calls(a + b)) == Reversed(Calls(b)) + Reversed(Calls(a))
  {
    hide ArgumentsFor;
    assert Calls(a + b) == Calls(a) + Calls(b);
  }

  lemma ShortReversed<T>(s: seq<T>)
    requires |s| <= 1
    ensures Reversed(s) == s
  {
  }

  lemma ScanEnd<K, V>(backing: seq<Item<K, V>>, c: int, step: HashDo.Step)
    ensures !(0 <= c < |backing|) ==> HashDo.LiveFrom(backing, c, step) == []
  {
  }

  /** One step of a scan, in either direction. */
  lemma ScanStep<K, V>(backing: seq<Item<K, V>>, width: Width, c: nat, step: HashDo.Step)
    requires c + width <= |backing| && Chunk(backing[c..c + width], width)
    requires step == width || step == -(width as int)
    ensures |EntryOfChunk(backing[c..c + width])| <= 1
    ensures HashDo.LiveFrom(backing, c, step)
      == Calls(EntryOfChunk(backing[c..c + width])) + HashDo.LiveFrom(backing, c + step, step)
  {
    hide Chunk, EntryOfChunk, HashDo.ArgumentsAt, ArgumentsFor;
    ChunkHead(backing, width, c);
    if backing[c].Key? {
      ChunkArguments(backing, width, c);
    }
  }

  /** A plain scan meets the live entries in order. */
  lemma {:induction false} ScanForwards<K, V>(backing: seq<Item<K, V>>, width: Width, c: nat)
    requires Shaped(backing, width) && c <= |backing| && c % width == 0
    ensures Shaped(backing[c..], width) && HashDo.LiveFrom(backing, c, width) == Calls(Entries(backing[c..], width))
    decreases |backing| - c
  {
    hide Shaped, Entries, Chunk, EntryOfChunk, Calls, HashDo.LiveFrom;
    ScanEnd(backing, c, width);
    if c == |backing| {
      assert backing[c..] == [];
      EmptyShaped<K, V>(width);
    } else {
      Divide(backing, width, c);
      var slots, rest := backing[c..c + width], backing[c + width..];
      NextAligned(c, width);
      ScanForwards(backing, width, c + width);
      ScanStep(backing, width, c, width);
      ChunkIsShaped(slots, width);
      ShapedConcat(slots, rest, width);
      CallsConcat(EntryOfChunk(slots), Entries(rest, width));
      assert backing[c..] == slots + rest;
    }
  }

  lemma NextAligned(c: int, width: Width)
    requires c % width == 0
    ensures (c + width) % width == 0 && (c - width) % width == 0
  {
    if width == 1 {
    } else {
      assert c % 2 == 0;
    }
  }

  /** And a scan from the end, in the opposite order. */
  lemma {:induction false} ScanBackwards<K, V>(backing: seq<Item<K, V>>, width: Width, c: int)
    requires Shaped(backing, width) && -(width as int) <= c <= |backing| - width && c % width == 0
    ensures Shaped(backing[..c + width], width)
    ensures HashDo.LiveFrom(backing, c, -(width as int)) == Reversed(Calls(Entries(backing[..c + width], width)))
    decreases c + width
  {
    hide Shaped, Entries, Chunk, EntryOfChunk, Calls, HashDo.LiveFrom;
    ScanEnd(backing, c, -(width as int));
    if c < 0 {
      BelowZero(c, width);
      assert backing[..c + width] == [];
      EmptyShaped<K, V>(width);
    } else {
      Divide(backing, width, c);
      var front, slots := backing[..c], backing[c..c + width];
      NextAligned(c, width);
      ScanBackwards(backing, width, c - width);
      assert backing[..c - width + width] == front;
      ScanStep(backing, width, c, -(width as int));
      Snoc(front, slots, width);
      CallsConcat(Entries(front, width), EntryOfChunk(slots));
      ShortReversed(Calls(EntryOfChunk(slots)));
      assert backing[..c + width] == front + slots;
    }
  }

  lemma BelowZero(c: int, width: Width)
    requires -(width as int) <= c < 0 && c % width == 0
    ensures c == -(width as int)
  {
    if width == 1 {
    } else {
      assert c % 2 == 0;
    }
  }

  lemma SameParts<K, V>(a: seq<Item<K, V>>, b: seq<Item<K, V>>, n: nat)
    requires HashDo.SameItems(b, a) && n <= |a|
    ensures |a| == |b| && HashDo.SameItems(b[..n], a[..n]) && HashDo.SameItems(b[n..], a[n..])
  {
  }

  lemma SameChunk<K, V>(a: seq<Item<K, V>>, b: seq<Item<K, V>>, width: Width)
    requires HashDo.SameItems(b, a) && Chunk(a, width)
    ensures Chunk(b, width) && EntryOfChunk(b) == EntryOfChunk(a)
  {
    assert a[0].Tombstone? <==> b[0].Tombstone?;
    if width == 2 {
      assert a[1].Tombstone? <==> b[1].Tombstone?;
    }
  }

  /** Recording skip distances is not seen either. */
  lemma {:induction false} SameEntries<K, V>(a: seq<Item<K, V>>, b: seq<Item<K, V>>, width: Width)
    requires Shaped(a, width) && HashDo.SameItems(b, a)
    ensures Shaped(b, width) && Entries(b, width) == Entries(a, width)
    decreases |a|
  {
    hide Shaped, Entries, Chunk, EntryOfChunk, HashDo.SameItems;
    SameParts(a, b, 0);
    EmptyShaped<K, V>(width);
    if a == [] {
      assert b == [];
    } else {
      var front, slots := Unsnoc(a, width);
      var n := |front|;
      assert a[..n] == front && a[n..] == slots;
      SameParts(a, b, n);
      SameEntries(front, b[..n], width);
      SameChunk(slots, b[n..], width);
      Snoc(b[..n], b[n..], width);
      assert b == b[..n] + b[n..];
    }
  }

  lemma SameTable<K, V>(index: seq<int>, a: seq<Item<K, V>>, b: seq<Item<K, V>>, hash: K -> int)
    requires Table(index, a, hash, -1) && HashDo.SameItems(b, a)
    ensures Table(index, b, hash, -1)
  {
    hide Entered, PositionOf;
    forall p | Live(b, p) ensures Entered(index, p, hash(b[p].key)) {
      assert Live(a, p);
    }
  }

  // ----- Skip distances ---------------------------------------------------------------------

  lemma ValidBothWays<K, V>(backing: seq<Item<K, V>>, step: HashDo.Step, other: HashDo.Step)
    requires step == -(other as int) && HashDo.Valid(backing, step)
    ensures HashDo.Valid(backing, other)
  {
    forall i | 0 <= i < |backing| ensures HashDo.SkipOk(backing, other, i) {
      assert HashDo.SkipOk(backing, step, i);
    }
  }

  lemma ShapedIsPaired<K, V>(backing: seq<Item<K, V>>, width: Width)
    requires Shaped(backing, width)
    ensures HashDo.Paired(backing, width)
  {
    hide Shaped, Entries, EntryOfChunk;
    ShapedLength(backing, width);
    if width == 2 {
      forall i | 0 <= i < |backing| - 1 && i % 2 == 0
        ensures backing[i].Tombstone? <==> backing[i + 1].Tombstone?
      {
        Divide(backing, width, i);
        assert backing[i..i + 2][0] == backing[i] && backing[i..i + 2][1] == backing[i + 1];
      }
    }
  }

  /** Without tombstones there is nothing to skip. */
  lemma NothingToSkip<K, V>(backing: seq<Item<K, V>>, width: Width)
    requires Shaped(backing, width) && forall i :: 0 <= i < |backing| ==> !backing[i].Tombstone?
    ensures HashDo.Valid(backing, width)
  {
    ShapedIsPaired(backing, width);
  }

  /** Tombstones stay where they are. */
  lemma SkipsKept<K, V>(a: seq<Item<K, V>>, b: seq<Item<K, V>>, width: Width)
    requires HashDo.Valid(a, width) && |a| == |b|
    requires forall i :: 0 <= i < |a| ==> (a[i].Tombstone? || b[i].Tombstone? ==> a[i] == b[i])
    ensures HashDo.Valid(b, width)
  {
    forall i | 0 <= i < |b| ensures HashDo.SkipOk(b, width, i) {
      assert HashDo.SkipOk(a, width, i);
      if b[i].Tombstone? {
        HashDo.TombsStay(a, b, width, i, i + b[i].skip);
      }
    }
  }
}
