/** The fields of hashed collections: a backing that holds what was added, in order, and an
    index into it. */
module Collections {
  /** What the backing holds: keys, the values of a map behind their keys, and tombstones
      where something was removed.  A tombstone may tell how far to skip; the distance zero
      belongs to a shared instance that must not be changed. */
  datatype Item<K, V> = Key(key: K) | Value(value: V) | Tombstone(skip: int)

  class Collection<K, V> {
    var size: int
    var spacesLeft: int
    var index: array<int>
    var backing: seq<Item<K, V>>

    constructor (size: int, spacesLeft: int, index: array<int>, backing: seq<Item<K, V>>)
      ensures this.size == size && this.spacesLeft == spacesLeft && this.index == index && this.backing == backing
    {
      this.size, this.spacesLeft, this.index, this.backing := size, spacesLeft, index, backing;
    }
  }

  ghost predicate Live<K, V>(backing: seq<Item<K, V>>, p: int)
  {
    0 <= p < |backing| && backing[p].Key?
  }
}
