/** Sets and maps: over any sequence of operations, beginning with an empty one, they are
    lists of entries in the order of insertion, with keys that are told apart by their
    equality. */
module Hashed {
  import opened Options
  import opened Words
  import opened Collections
  import opened HashFind
  import opened HashedCollection
  import opened Insertion
  import HashDo

  /** Equality is an equivalence, and equal keys have equal hashes. */
  ghost predicate Compatible<K(!new)>(equal: (K, K) -> bool, hash: K -> int)
  {
    && (forall a :: equal(a, a))
    && (forall a, b :: equal(a, b) ==> equal(b, a) && hash(a) == hash(b))
    && (forall a, b, c :: equal(a, b) && equal(b, c) ==> equal(a, c))
  }

  lemma Chain<K(!new)>(equal: (K, K) -> bool, hash: K -> int, a: K, b: K, c: K)
    requires Compatible(equal, hash)
    ensures (equal(a, b) || equal(b, a)) && (equal(b, c) || equal(c, b)) ==> equal(a, c) && equal(c, a)
  {
  }

  // ----- Lists of entries -------------------------------------------------------------------

  ghost predicate Unique<K, V>(entries: seq<Entry<K, V>>, equal: (K, K) -> bool)
  {
    forall i, j :: 0 <= i < j < |entries| ==> !equal(entries[i].key, entries[j].key)
  }

  function IndexOf<K, V>(entries: seq<Entry<K, V>>, equal: (K, K) -> bool, key: K): (r: Option<nat>)
    ensures r.Some? ==> r.value < |entries| && equal(key, entries[r.value].key)
    ensures r.None? ==> forall i :: 0 <= i < |entries| ==> !equal(key, entries[i].key)
  {
    if entries == [] then None
    else
      var last := |entries| - 1;
      if equal(key, entries[last].key) then Some(last) else IndexOf(entries[..last], equal, key)
  }

  /** The key of an entry is found at that entry. */
  lemma IndexUnique<K(!new), V>(entries: seq<Entry<K, V>>, equal: (K, K) -> bool, hash: K -> int, key: K, i: nat)
    requires Compatible(equal, hash) && Unique(entries, equal) && i < |entries| && equal(key, entries[i].key)
    ensures IndexOf(entries, equal, key) == Some(i)
  {
    var r := IndexOf(entries, equal, key);
    assert equal(entries[i].key, key) && equal(key, entries[r.value].key);
    assert equal(entries[i].key, entries[r.value].key) && equal(entries[r.value].key, entries[i].key);
  }

  datatype Op<K, V> = Add(key: K) | Put(key: K, value: V) | Remove(key: K)

  /** What an operation on a set or a map is meant to do.  An equal key in a set is
      replaced, an equal key in a map keeps its place and gets a new value. */
  function After<K, V>(entries: seq<Entry<K, V>>, equal: (K, K) -> bool, op: Op<K, V>): seq<Entry<K, V>>
  {
    var i := IndexOf(entries, equal, op.key);
    match op
    case Add(key) => if i.None? then entries + [Entry(key, None)] else entries[i.value := Entry(key, None)]
    case Put(key, value) =>
      if i.None? then entries + [Entry(key, Some(value))]
      else entries[i.value := Entry(entries[i.value].key, Some(value))]
    case Remove(key) => if i.None? then entries else Without(entries, i.value)
  }

  ghost function Lookup<K, V>(entries: seq<Entry<K, V>>, equal: (K, K) -> bool, key: K): Option<Option<V>>
  {
    var i := IndexOf(entries, equal, key);
    if i.None? then None else Some(entries[i.value].value)
  }

  lemma AfterIsUnique<K(!new), V>(entries: seq<Entry<K, V>>, equal: (K, K) -> bool, hash: K -> int, op: Op<K, V>)
    requires Compatible(equal, hash) && Unique(entries, equal)
    ensures Unique(After(entries, equal, op), equal)
  {
    var after, found := After(entries, equal, op), IndexOf(entries, equal, op.key);
    forall i, j | 0 <= i < j < |after| ensures !equal(after[i].key, after[j].key) {
      if found.Some? {
        var at := found.value;
        if op.Remove? {
          assert after[i] == entries[if i < at then i else i + 1] && after[j] == entries[if j < at then j else j + 1];
        } else {
          Chain(equal, hash, entries[i].key, op.key, entries[j].key);
          Chain(equal, hash, entries[i].key, op.key, entries[at].key);
          Chain(equal, hash, entries[j].key, op.key, entries[at].key);
        }
      } else if j == |entries| && !op.Remove? {
        Chain(equal, hash, entries[i].key, op.key, op.key);
      }
    }
  }

  /** The list behaves as a finite map from keys, up to equality, to values. */
  lemma LookupAfter<K(!new), V>(
    entries: seq<Entry<K, V>>, equal: (K, K) -> bool, hash: K -> int, op: Op<K, V>, key: K)
    requires Compatible(equal, hash) && Unique(entries, equal)
    ensures Lookup(After(entries, equal, op), equal, key) ==
      if !equal(key, op.key) then Lookup(entries, equal, key)
      else match op
        case Add(_) => Some(None)
        case Put(_, value) => Some(Some(value))
        case Remove(_) => None
  {
    hide Unique;
    AfterIsUnique(entries, equal, hash, op);
    var after, found := After(entries, equal, op), IndexOf(entries, equal, op.key);
    if equal(key, op.key) {
      LookupSame(entries, equal, hash, op, key);
    } else {
      LookupOther(entries, equal, hash, op, key);
    }
  }

  lemma LookupSame<K(!new), V>(
    entries: seq<Entry<K, V>>, equal: (K, K) -> bool, hash: K -> int, op: Op<K, V>, key: K)
    requires Compatible(equal, hash) && Unique(entries, equal) && Unique(After(entries, equal, op), equal)
    requires equal(key, op.key)
    ensures Lookup(After(entries, equal, op), equal, key) ==
      match op
      case Add(_) => Some(None)
      case Put(_, value) => Some(Some(value))
      case Remove(_) => None
  {
    var after, found := After(entries, equal, op), IndexOf(entries, equal, op.key);
    if op.Remove? {
      RemovedIsGone(entries, equal, hash, op.key, key);
    } else {
      var i := if found.None? then |entries| else found.value;
      assert equal(op.key, after[i].key);
      assert equal(key, after[i].key);
      IndexUnique(after, equal, hash, key, i);
    }
  }

  lemma RemovedIsGone<K(!new), V>(entries: seq<Entry<K, V>>, equal: (K, K) -> bool, hash: K -> int, gone: K, key: K)
    requires Compatible(equal, hash) && Unique(entries, equal) && equal(key, gone)
    ensures IndexOf(After(entries, equal, Remove(gone)), equal, key) == None
  {
    var after, found := After(entries, equal, Remove(gone)), IndexOf(entries, equal, gone);
    forall i | 0 <= i < |after| ensures !equal(key, after[i].key) {
      Chain(equal, hash, gone, key, after[i].key);
      if found.Some? {
        var j := if i < found.value then i else i + 1;
        assert after[i] == entries[j];
        Chain(equal, hash, entries[j].key, gone, entries[found.value].key);
      }
    }
  }

  lemma LookupOther<K(!new), V>(
    entries: seq<Entry<K, V>>, equal: (K, K) -> bool, hash: K -> int, op: Op<K, V>, key: K)
    requires Compatible(equal, hash) && Unique(entries, equal) && Unique(After(entries, equal, op), equal)
    requires !equal(key, op.key)
    ensures Lookup(After(entries, equal, op), equal, key) == Lookup(entries, equal, key)
  {
    var after, found := After(entries, equal, op), IndexOf(entries, equal, op.key);
    var i := IndexOf(entries, equal, key);
    if i.Some? {
      var at := i.value;
      Chain(equal, hash, key, entries[at].key, op.key);
      var j := if op.Remove? && found.Some? && found.value < at then at - 1 else at;
      assert after[j] == entries[at];
      IndexUnique(after, equal, hash, key, j);
    } else {
      forall j | 0 <= j < |after| ensures !equal(key, after[j].key) {
        OldOrNew(entries, equal, op, j);
      }
    }
  }

  lemma OldOrNew<K, V>(entries: seq<Entry<K, V>>, equal: (K, K) -> bool, op: Op<K, V>, j: nat)
    requires j < |After(entries, equal, op)|
    ensures var k := After(entries, equal, op)[j].key;
      k == op.key || exists i :: 0 <= i < |entries| && entries[i].key == k
  {
    var after, found := After(entries, equal, op), IndexOf(entries, equal, op.key);
    if op.Remove? && found.Some? {
      assert after[j] == entries[if j < found.value then j else j + 1];
    }
  }

  // ----- Backings and lists -----------------------------------------------------------------

  /** A backing with unique keys, safe skip distances and its slots in order. */
  ghost predicate Sound<K, V>(backing: seq<Item<K, V>>, width: Width, equal: (K, K) -> bool)
  {
    Shaped(backing, width) && HashDo.Valid(backing, width) && Unique(Entries(backing, width), equal)
  }

  lemma NotListed<K, V>(backing: seq<Item<K, V>>, width: Width, equal: (K, K) -> bool, key: K)
    requires Shaped(backing, width)
    ensures IndexOf(Entries(backing, width), equal, key).None? <==> NoEqual(backing, key, equal, -1)
  {
    hide Shaped, Entries;
    var entries := Entries(backing, width);
    var r := IndexOf(entries, equal, key);
    if r.None? {
      forall p | Live(backing, p) ensures !equal(key, backing[p].key) {
        EntryAt(backing, width, p);
      }
    } else {
      var p := PlaceOf(backing, width, r.value);
      EntryAt(backing, width, p);
    }
  }

  lemma ListedAt<K(!new), V>(
    backing: seq<Item<K, V>>, width: Width, equal: (K, K) -> bool, hash: K -> int, key: K, p: nat)
    requires Compatible(equal, hash) && Sound(backing, width, equal) && Live(backing, p) && equal(key, backing[p].key)
    ensures IndexOf(Entries(backing, width), equal, key) == Some(Rank(backing, width, p))
  {
    hide Shaped, Entries, HashDo.Valid;
    EntryAt(backing, width, p);
    IndexUnique(Entries(backing, width), equal, hash, key, Rank(backing, width, p));
  }

  /** A new entry at the end. */
  function SlotsFor<K, V>(entry: Entry<K, V>): seq<Item<K, V>>
  {
    [Key(entry.key)] + ValueSlots(entry)
  }

  function ValueSlots<K, V>(entry: Entry<K, V>): seq<Item<K, V>>
  {
    if entry.value.None? then [] else [Value(entry.value.value)]
  }

  predicate Fits<K, V>(entry: Entry<K, V>, width: Width)
  {
    entry.value.Some? <==> width == 2
  }

  lemma AppendedSound<K(!new), V>(
    backing: seq<Item<K, V>>, width: Width, equal: (K, K) -> bool, hash: K -> int, entry: Entry<K, V>)
    requires Compatible(equal, hash) && Sound(backing, width, equal) && Fits(entry, width)
    requires IndexOf(Entries(backing, width), equal, entry.key).None?
    ensures var after := backing + [Key(entry.key)] + ValueSlots(entry);
      && after == backing + SlotsFor(entry)
      && Sound(after, width, equal) && Entries(after, width) == Entries(backing, width) + [entry]
      && Live(after, |backing|) && after[|backing|].key == entry.key
      && NoEqual(after, entry.key, equal, |backing|)
  {
    hide Shaped, Entries, HashDo.Valid;
    var slots, after := SlotsFor(entry), backing + SlotsFor(entry);
    ConcatAssociates(backing, [Key(entry.key)], ValueSlots(entry));
    Snoc(backing, slots, width);
    assert EntryOfChunk(slots) == [entry];
    HashDo.AppendKeepsValid(backing, slots, width);
    forall i | 0 <= i < |Entries(backing, width)| ensures !equal(Entries(backing, width)[i].key, entry.key) {
      Chain(equal, hash, Entries(backing, width)[i].key, entry.key, entry.key);
    }
    NotListed(backing, width, equal, entry.key);
    forall p | Live(after, p) && p != |backing| ensures !equal(entry.key, after[p].key) {
      assert p < |backing| ==> Live(backing, p) && after[p] == backing[p];
    }
  }

  /** Keys may be replaced by others with the same hash, values by others, and all of them
      by tombstones. */
  lemma TableKept<K, V>(index: seq<int>, before: seq<Item<K, V>>, after: seq<Item<K, V>>, hash: K -> int)
    requires Table(index, before, hash, -1) && |after| == |before|
    requires forall p :: 0 <= p < |after| && after[p].Value? ==> before[p].Value?
    requires forall p :: Live(after, p) ==> Live(before, p) && hash(after[p].key) == hash(before[p].key)
    ensures Table(index, after, hash, -1)
  {
    hide Entered, PositionOf;
    forall p | Live(after, p) ensures Entered(index, p, hash(after[p].key)) {
      assert Live(before, p);
    }
  }

  /** The backing after a removal, or with one entry changed. */
  lemma RemovedSound<K(!new), V>(
    backing: seq<Item<K, V>>, width: Width, equal: (K, K) -> bool, hash: K -> int, key: K, p: nat)
    requires Compatible(equal, hash) && Sound(backing, width, equal) && Live(backing, p) && equal(key, backing[p].key)
    ensures width == 2 ==> p + 1 < |backing|
    ensures var after := HashDo.Removed(backing, p, width);
      Sound(after, width, equal) && Entries(after, width) == After(Entries(backing, width), equal, Op.Remove(key))
  {
    hide Shaped, Entries, HashDo.Valid;
    EntryAt(backing, width, p);
    LiveIsAligned(backing, width, p);
    ListedAt(backing, width, equal, hash, key, p);
    RemovedEntries(backing, width, p, HashDo.Removed(backing, p, width));
    AfterIsUnique(Entries(backing, width), equal, hash, Op.Remove(key));
    HashDo.RemoveKeepsValid(backing, width, p);
  }

  lemma ChangedSound<K(!new), V>(
    backing: seq<Item<K, V>>, width: Width, equal: (K, K) -> bool, hash: K -> int, entry: Entry<K, V>, p: nat)
    requires Compatible(equal, hash) && Sound(backing, width, equal) && Fits(entry, width)
    requires Live(backing, p) && equal(entry.key, backing[p].key)
    ensures p + width <= |backing| && (width == 2 ==> backing[p + 1].Value?)
    ensures var after := Changed(backing, width, entry, p);
      && Sound(after, width, equal) && Entries(after, width) == After(Entries(backing, width), equal, Storing(entry))
  {
    hide Shaped, Entries, HashDo.Valid;
    EntryAt(backing, width, p);
    ListedAt(backing, width, equal, hash, entry.key, p);
    var after := Changed(backing, width, entry, p);
    ChangedEntry(backing, width, p, after, Entry(if width == 1 then entry.key else backing[p].key, entry.value));
    AfterIsUnique(Entries(backing, width), equal, hash, Storing(entry));
    SkipsKept(backing, after, width);
  }

  function Storing<K, V>(entry: Entry<K, V>): Op<K, V>
  {
    if entry.value.None? then Op.Add(entry.key) else Op.Put(entry.key, entry.value.value)
  }

  /** In a set the key is replaced, in a map the value. */
  function Changed<K, V>(backing: seq<Item<K, V>>, width: Width, entry: Entry<K, V>, p: nat): seq<Item<K, V>>
    requires p + width <= |backing| && Fits(entry, width)
  {
    if width == 1 then backing[p := Key(entry.key)] else backing[p + 1 := Value(entry.value.value)]
  }

  // ----- Sets and maps ----------------------------------------------------------------------

  /** A set, with one slot per entry, or a map, with two. */
  class Hashed<K(!new), V> {
    const width: Width
    const hash: K -> int
    const equal: (K, K) -> bool
    const c: Collection<K, V>
    var hasIndex: bool

    /** An empty one has no index yet. */
    constructor (width: Width, hash: K -> int, equal: (K, K) -> bool)
      requires Compatible(equal, hash)
      ensures this.width == width && this.hash == hash && this.equal == equal
      ensures Valid() && Contents() == [] && fresh(c) && fresh(c.index)
    {
      this.width, this.hash, this.equal, hasIndex := width, hash, equal, false;
      var index := new int[0];
      c := new Collection(0, 0, index, []);
      new;
      NothingToSkip<K, V>([], width);
    }

    ghost predicate Valid()
      reads this, c, c.index
    {
      && Compatible(equal, hash) && Sound(c.backing, width, equal) && c.size == |Contents()|
      && (hasIndex ==> Table(c.index[..], c.backing, hash, -1))
    }

    ghost function Contents(): seq<Entry<K, V>>
      reads c
    {
      Entries(c.backing, width)
    }

    lemma Counted()
      requires Valid()
      ensures c.size == CountLive(c.backing)
      ensures hasIndex ==> ValidCollection(c, hash)
    {
      CountIsLength(c.backing, width);
    }

    /** An index for a collection that has none, or after entries were moved. */
    method NewIndex(oldSize: nat, rebuildBacking: bool)
      requires Compatible(equal, hash) && Sound(c.backing, width, equal) && c.size == |Contents()| <= oldSize + 1
      requires !hasIndex || rebuildBacking
      modifies c, `hasIndex
      ensures Valid() && hasIndex && fresh(c.index) && Contents() == old(Contents()) && c.size == old(c.size)
      ensures !rebuildBacking ==> c.backing == old(c.backing)
    {
      hide Shaped, Entries, Table, HashDo.Valid, CountLive, Compacted, Unique;
      CountIsLength(c.backing, width);
      CompactedEntries(c.backing, width);
      if rebuildBacking {
        NothingToSkip(Compacted(c.backing), width);
      }
      Rebuild(c, hash, -1, oldSize, width, hasIndex, true, rebuildBacking);
      hasIndex := true;
    }

    /** What the not_found block does, when it does not leave. */
    method Append(entry: Entry<K, V>)
      requires Compatible(equal, hash) && Sound(c.backing, width, equal) && c.size == |Contents()| && Fits(entry, width)
      requires IndexOf(Contents(), equal, entry.key).None?
      modifies c`backing, c`size
      ensures c.backing == old(c.backing) + SlotsFor(entry) && c.size == old(c.size) + 1
      ensures Sound(c.backing, width, equal) && Contents() == old(Contents()) + [entry]
      ensures Live(c.backing, |old(c.backing)|) && c.backing[|old(c.backing)|].key == entry.key
      ensures NoEqual(c.backing, entry.key, equal, |old(c.backing)|)
    {
      hide Sound, Entries, NoEqual;
      AppendedSound(c.backing, width, equal, hash, entry);
      c.backing := c.backing + [Key(entry.key)] + ValueSlots(entry);
      c.size := c.size + 1;
    }

    /** What `find_` finds and does: an equal entry, or that there is none; then not_found is
        called once, and may append an entry. */
    ghost predicate Found(
      before: seq<Item<K, V>>, key: K, entry: Option<Entry<K, V>>, result: Option<int>, notFoundCalls: nat)
      reads c
    {
      var i := IndexOf(Entries(before, width), equal, key);
      if i.Some? then
        && notFoundCalls == 0 && c.backing == before
        && result.Some? && Live(c.backing, result.value) && equal(key, c.backing[result.value].key)
      else
        && notFoundCalls == 1
        && (entry.None? ==> result == None && c.backing == before)
        && (entry.Some? ==> result == Some(APPEND) && c.backing == before + SlotsFor(entry.value))
    }

    method FindIndexed(key: K, entry: Option<Entry<K, V>>) returns (result: Option<int>, notFoundCalls: nat)
      requires Valid() && hasIndex && (entry.Some? ==> entry.value.key == key && Fits(entry.value, width))
      modifies c, c.index
      ensures Valid() && (c.index == old(c.index) || fresh(c.index))
      ensures Found(old(c.backing), key, entry, result, notFoundCalls)
    {
      hide Sound, Entries, Table, CountLive, NoEqual, HashDo.Valid;
      NoWaste();
      Counted();
      NotListed(c.backing, width, equal, key);
      if entry.Some? && IndexOf(Contents(), equal, key).None? {
        AppendedSound(c.backing, width, equal, hash, entry.value);
      }
      AllConsistent(c.backing, equal, hash, key);
      var notFound := if entry.None? then Leave else NotFound.Append(key, ValueSlots(entry.value));
      result, notFoundCalls := FindBody(c, key, hash(key), hash, equal, None, notFound);
    }

    lemma NoWaste()
      requires Valid()
      ensures Shaped(c.backing, width)
    {
    }

    /** `find_`: without an index, at most one entry is looked at; if that does not settle
        it, an index is made first. */
    method Find(key: K, entry: Option<Entry<K, V>>) returns (result: Option<int>, notFoundCalls: nat)
      requires Valid() && (entry.Some? ==> entry.value.key == key && Fits(entry.value, width))
      modifies `hasIndex, c, c.index
      ensures Valid() && (c.index == old(c.index) || fresh(c.index))
      ensures Found(old(c.backing), key, entry, result, notFoundCalls)
    {
      hide Sound, Entries, Table, CountLive, NoEqual, HashDo.Valid;
      if !hasIndex {
        if c.size == 0 {
          if entry.Some? {
            Append(entry.value);
            return Some(APPEND), 1;
          }
          return None, 1;
        }
        if c.size != 1 {
          NewIndex(c.size, false);
        } else {
          FirstSlot();
          var k := c.backing[0];
          if !k.Tombstone? {
            OnlyEntry();
            if equal(key, k.key) {
              Listed(key, 0);
              return Some(0), 0;
            }
            if entry.None? {
              return None, 1;
            }
            var position := |c.backing|;
            Append(entry.value);
            NewIndex(1, false);
            Counted();
            AllConsistent(c.backing, equal, hash, key);
            result, notFoundCalls := FindBody(c, key, hash(key), hash, equal, Some(position), Leave);
            notFoundCalls := notFoundCalls + 1;
            return;
          }
          NewIndex(1, false);
        }
      }
      result, notFoundCalls := FindIndexed(key, entry);
    }

    /** `add` of a set and `[]=` of a map. */
    method Store(entry: Entry<K, V>)
      requires Valid() && Fits(entry, width)
      modifies `hasIndex, c, c.index
      ensures Valid() && (c.index == old(c.index) || fresh(c.index))
      ensures Contents() == After(old(Contents()), equal, Storing(entry))
    {
      hide Sound, Entries, Table, HashDo.Valid, NoEqual;
      ghost var before := c.backing;
      var position, _ := Find(entry.key, Some(entry));
      var p := position.value;
      if p != APPEND {
        ChangedSound(c.backing, width, equal, hash, entry, p);
        ghost var after := Changed(c.backing, width, entry, p);
        if hasIndex {
          TableKept(c.index[..], c.backing, after, hash);
        }
        if width == 1 {
          c.backing := c.backing[p := Key(entry.key)];
        } else {
          c.backing := c.backing[p + 1 := Value(entry.value.value)];
        }
        SameLength(before, equal, entry);
      } else {
        AppendedSound(before, width, equal, hash, entry);
      }
    }

    lemma SameLength(before: seq<Item<K, V>>, equal: (K, K) -> bool, entry: Entry<K, V>)
      requires IndexOf(Entries(before, width), equal, entry.key).Some?
      ensures |After(Entries(before, width), equal, Storing(entry))| == |Entries(before, width)|
    {
    }

    method Contains(key: K) returns (found: bool)
      requires Valid()
      modifies `hasIndex, c, c.index
      ensures Valid() && c.backing == old(c.backing) && (c.index == old(c.index) || fresh(c.index))
      ensures found <==> IndexOf(Contents(), equal, key).Some?
    {
      hide Sound, Entries, Table;
      var position, _ := Find(key, None);
      found := position.Some?;
    }

    /** The value of an equal key. */
    method Get(key: K) returns (value: Option<V>)
      requires Valid() && width == 2
      modifies `hasIndex, c, c.index
      ensures Valid() && c.backing == old(c.backing) && (c.index == old(c.index) || fresh(c.index))
      ensures var i := IndexOf(Contents(), equal, key);
        if i.None? then value == None else value.Some? && value == Contents()[i.value].value
    {
      hide Entries, Table, HashDo.Valid, Shaped, Unique;
      var position, _ := Find(key, None);
      if position.None? {
        return None;
      }
      EntryAt(c.backing, width, position.value);
      ListedAt(c.backing, width, equal, hash, key, position.value);
      value := Some(c.backing[position.value + 1].value);
    }

    method Remove(key: K) returns (found: bool)
      requires Valid()
      modifies `hasIndex, c, c.index
      ensures Valid() && (c.index == old(c.index) || fresh(c.index))
      ensures found <==> IndexOf(old(Contents()), equal, key).Some?
      ensures Contents() == After(old(Contents()), equal, Op.Remove(key))
    {
      hide Sound, Entries, Table, HashDo.Valid, NoEqual;
      ghost var before := c.backing;
      var position, _ := Find(key, None);
      if position.None? {
        return false;
      }
      found := true;
      var p := position.value;
      RemovedSound(c.backing, width, equal, hash, key, p);
      ghost var after := HashDo.Removed(c.backing, p, width);
      if hasIndex {
        TableKept(c.index[..], c.backing, after, hash);
      }
      c.backing := c.backing[p := Tombstone(0)];
      if width == 2 {
        c.backing := c.backing[p + 1 := Tombstone(0)];
      }
      c.size := c.size - 1;
      ShrinkIfNeeded();
    }

    /** When more than a third of the backing is waste. */
    method ShrinkIfNeeded()
      requires Valid()
      modifies `hasIndex, c
      ensures Valid() && Contents() == old(Contents()) && (c.index == old(c.index) || fresh(c.index))
    {
      hide Sound, Entries, Table;
      var length := |c.backing|;
      if (width == 1 && length > 4 && length > c.size + c.size / 2) || (width == 2 && length > 8 && length > c.size * 2 + c.size) {
        NewIndex(c.size, true);
      }
    }

    /** The block is called for the entries in the order of insertion, or its reverse. */
    method Do(reversed: bool) returns (calls: seq<HashDo.Arguments<K, V>>)
      requires Valid()
      modifies c`backing
      ensures Valid() && Contents() == old(Contents())
      ensures calls == if reversed then Reversed(Calls(Contents())) else Calls(Contents())
    {
      hide Shaped, Entries, Table, HashDo.Valid, HashDo.SameItems, HashDo.LiveFrom, Calls, Unique;
      ghost var before := c.backing;
      var step: HashDo.Step := if reversed then -(width as int) else width;
      ghost var back: HashDo.Step := -(width as int);
      ValidBothWays(before, width, back);
      Scanned(before, width);
      calls := HashDo.Do(c, step);
      if reversed {
        ValidBothWays(c.backing, back, width);
      }
      Insertion.SameEntries(before, c.backing, width);
      if hasIndex {
        SameTable(c.index[..], before, c.backing, hash);
      }
    }

    lemma Listed(key: K, p: nat)
      requires Valid() && Live(c.backing, p) && equal(key, c.backing[p].key)
      ensures IndexOf(Contents(), equal, key) == Some(Rank(c.backing, width, p))
    {
      hide Sound;
      ListedAt(c.backing, width, equal, hash, key, p);
    }

    lemma FirstSlot()
      requires Valid() && c.size > 0
      ensures c.backing != [] && (c.backing[0].Key? || c.backing[0].Tombstone?)
    {
      Divide(c.backing, width, 0);
      ChunkHead(c.backing, width, 0);
    }

    /** If there is one entry, and the first slot is in use, that is where it is. */
    lemma OnlyEntry()
      requires Valid() && c.size == 1 && Live(c.backing, 0)
      ensures Contents() == [Contents()[0]] && Contents()[0].key == c.backing[0].key
    {
      EntryAt(c.backing, width, 0);
    }
  }

  lemma AllConsistent<K(!new), V>(backing: seq<Item<K, V>>, equal: (K, K) -> bool, hash: K -> int, key: K)
    requires Compatible(equal, hash)
    ensures Consistent(backing, hash, key, hash(key), equal)
  {
  }

  lemma Scanned<K, V>(backing: seq<Item<K, V>>, width: Width)
    requires Shaped(backing, width)
    ensures HashDo.LiveFrom(backing, HashDo.StartOf(|backing|, width), width) == Calls(Entries(backing, width))
    ensures var back: HashDo.Step := -(width as int);
      HashDo.LiveFrom(backing, HashDo.StartOf(|backing|, back), back) == Reversed(Calls(Entries(backing, width)))
  {
    hide Shaped, Entries, HashDo.LiveFrom, Calls;
    ShapedLength(backing, width);
    NextAligned(|backing|, width);
    ScanForwards(backing, width, 0);
    ScanBackwards(backing, width, |backing| - width);
    assert backing[0..] == backing && backing[..|backing|] == backing;
  }

  // ----- Whole runs -------------------------------------------------------------------------

  function AfterAll<K, V>(ops: seq<Op<K, V>>, equal: (K, K) -> bool): seq<Entry<K, V>>
  {
    if ops == [] then [] else After(AfterAll(ops[..|ops| - 1], equal), equal, ops[|ops| - 1])
  }

  /** What the last operation on an equal key has left. */
  ghost function LastWord<K, V>(ops: seq<Op<K, V>>, equal: (K, K) -> bool, key: K): Option<Option<V>>
  {
    if ops == [] then None
    else
      var last := ops[|ops| - 1];
      if !equal(key, last.key) then LastWord(ops[..|ops| - 1], equal, key)
      else match last
        case Add(_) => Some(None)
        case Put(_, value) => Some(Some(value))
        case Remove(_) => None
  }

  /** The entries that a run leaves are those of a mathematical map. */
  lemma {:induction false} LookupAfterAll<K(!new), V>(
    ops: seq<Op<K, V>>, equal: (K, K) -> bool, hash: K -> int, key: K)
    requires Compatible(equal, hash)
    ensures Unique(AfterAll(ops, equal), equal)
    ensures Lookup(AfterAll(ops, equal), equal, key) == LastWord(ops, equal, key)
  {
    if ops == [] {
    } else {
      var front, last := ops[..|ops| - 1], ops[|ops| - 1];
      LookupAfterAll(front, equal, hash, key);
      AfterIsUnique(AfterAll(front, equal), equal, hash, last);
      LookupAfter(AfterAll(front, equal), equal, hash, last, key);
    }
  }

  /** Any sequence of operations on a collection that begins empty. */
  method Run<K(!new), V>(width: Width, hash: K -> int, equal: (K, K) -> bool, ops: seq<Op<K, V>>)
    returns (h: Hashed<K, V>)
    requires Compatible(equal, hash)
    requires forall i :: 0 <= i < |ops| ==> (ops[i].Add? ==> width == 1) && (ops[i].Put? ==> width == 2)
    ensures h.Valid() && h.width == width && h.equal == equal
    ensures h.Contents() == AfterAll(ops, equal) && h.c.size == |AfterAll(ops, equal)|
    ensures fresh(h) && fresh(h.c) && fresh(h.c.index)
  {
    hide Sound, Entries, Table, After;
    h := new Hashed<K, V>(width, hash, equal);
    for i := 0 to |ops|
      invariant fresh(h) && fresh(h.c) && fresh(h.c.index) && h.width == width && h.equal == equal && h.hash == hash
      invariant h.Valid() && h.Contents() == AfterAll(ops[..i], equal)
    {
      assert ops[..i + 1][..i] == ops[..i];
      match ops[i]
      case Add(key) => h.Store(Entry(key, None));
      case Put(key, value) => h.Store(Entry(key, Some(value)));
      case Remove(key) => var _ := h.Remove(key);
    }
    assert ops[..|ops|] == ops;
  }
}
