/** What a message says about an object, place by place: bytes of texts, elements of lists, and
    pairs of maps. */
module Received {
  import opened Encoding
  import Wire

  /** The slots of the first keys of a map from slot `i` on, in order: no key lies before or
      between them. */
  ghost predicate FirstKeys(slots: seq<Value>, i: nat, at: seq<nat>)
  {
    && (forall k :: 0 <= k < |at| ==> i <= at[k] && at[k] % 2 == 0 && at[k] + 1 < |slots| && !slots[at[k]].Tombstone?)
    && (forall j, k :: 0 <= j < k < |at| ==> at[j] < at[k])
    && (forall p, k :: i <= p < |slots| && p % 2 == 0 && !slots[p].Tombstone? && 0 <= k < |at| && p < at[k] ==> p in at)
  }

  /** A text is the bytes from one index of what it is a slice of up to another; if it is not in
      the message, at least its length is.  A list is the elements of its range, and a map its
      pairs without the removed ones. */
  ghost predicate StandsFor(w: Wire.Wire, v: Value, tison: bool)
    decreases v
  {
    match v
    case Smi(n) => w == Wire.Smi(n)
    case Null => w == Wire.Null
    case True => w == Wire.True
    case False => w == Wire.False
    case Double(bits) => w == Wire.Double(bits)
    case LargeInteger(bits) => w == Wire.LargeInteger(bits)
    case Text(isString, bytes, from, to, _) =>
      && 0 <= from <= to <= |bytes|
      && if tison || to - from <= MAX_INLINED_SIZE then
           && w.Inline? && w.isString == isString && |w.content| == to - from
           && forall i :: 0 <= i < to - from ==> w.content[i] == bytes[from + i]
         else w.External? && w.isString == isString && w.length == to - from
    case ExternalBytes(content, address, _) =>
      if tison then w == Wire.Inline(false, content) else w == Wire.External(false, |content|, address)
    case Elements(backing, start, end) =>
      && start <= end <= |backing| && w.Array? && |w.items| == end - start
      && forall i :: start <= i < end ==> StandsFor(w.items[i - start], backing[i], tison)
    case Map(size, slots) =>
      && w.Map? && |w.items| == 2 * size
      && exists at: seq<nat> :: |at| == size && FirstKeys(slots, 0, at) && PairsStandFor(w.items, slots, at, tison)
    case Tombstone => false
    case Unsupported => false
  }

  ghost predicate PairsStandFor(items: seq<Wire.Wire>, slots: seq<Value>, at: seq<nat>, tison: bool)
    decreases slots
  {
    && |items| == 2 * |at|
    && forall k :: 0 <= k < |at| ==>
      && at[k] + 1 < |slots|
      && StandsFor(items[2 * k], slots[at[k]], tison) && StandsFor(items[2 * k + 1], slots[at[k] + 1], tison)
  }

  lemma {:induction false} RepresentsStands(v: Value, w: Wire.Wire, nesting: nat, tison: bool)
    requires Valid(v) && Represents(v, w, nesting, tison)
    ensures StandsFor(w, v, tison)
    decreases v, 0
  {
    hide AllValid, RepresentsRange, RepresentsPairs, RepresentsLeaf, Keys, FirstKeys, PairsStandFor, StandsFor;
    match v
    case Elements(backing, start, end) =>
      RangeStands(backing, start, end, w.items, nesting + 1, tison);
      ElementsStand(v, w, tison);
    case Map(size, slots) =>
      var at := PairsStand(slots, 0, size, w.items, nesting + 1, tison);
      MapStands(v, w, at, tison);
    case _ =>
      LeafStands(v, w, tison);
  }

  lemma ElementsStand(v: Value, w: Wire.Wire, tison: bool)
    requires v.Elements? && w.Array? && v.start <= v.end <= |v.backing| && |w.items| == v.end - v.start
    requires forall i :: v.start <= i < v.end ==> StandsFor(w.items[i - v.start], v.backing[i], tison)
    ensures StandsFor(w, v, tison)
  {
  }

  lemma MapStands(v: Value, w: Wire.Wire, at: seq<nat>, tison: bool)
    requires v.Map? && w.Map? && |w.items| == 2 * v.size && |at| == v.size
    requires FirstKeys(v.slots, 0, at) && PairsStandFor(w.items, v.slots, at, tison)
    ensures StandsFor(w, v, tison)
  {
    hide FirstKeys, PairsStandFor;
  }

  lemma LeafStands(v: Value, w: Wire.Wire, tison: bool)
    requires Valid(v) && !v.Elements? && !v.Map? && RepresentsLeaf(v, w, tison)
    ensures StandsFor(w, v, tison)
  {
  }

  lemma {:induction false} RangeStands(backing: seq<Value>, i: nat, end: nat, items: seq<Wire.Wire>, nesting: nat, tison: bool)
    requires i <= end <= |backing| && AllValid(backing) && RepresentsRange(backing, i, end, items, nesting, tison)
    ensures |items| == end - i && forall k :: i <= k < end ==> StandsFor(items[k - i], backing[k], tison)
    decreases backing, end - i
  {
    hide Represents, StandsFor;
    if i == end {
    } else {
      RepresentsStands(backing[i], items[0], nesting, tison);
      RangeStands(backing, i + 1, end, items[1..], nesting, tison);
      forall k | i <= k < end
        ensures StandsFor(items[k - i], backing[k], tison)
      {
        if k > i { assert items[k - i] == items[1..][k - (i + 1)]; }
      }
    }
  }

  lemma {:induction false} PairsStand(slots: seq<Value>, i: nat, left: nat, items: seq<Wire.Wire>, nesting: nat, tison: bool)
    returns (at: seq<nat>)
    requires |slots| % 2 == 0 && i % 2 == 0 && left <= Keys(slots, i) && AllValid(slots)
    requires RepresentsPairs(slots, i, left, items, nesting, tison)
    ensures |at| == left && |items| == 2 * left && FirstKeys(slots, i, at) && PairsStandFor(items, slots, at, tison)
    decreases slots, |slots| - i
  {
    hide Represents, StandsFor, Valid, FirstKeys, PairsStandFor;
    if left == 0 {
      at := [];
      NoPairs(slots, i, tison);
    } else if slots[i].Tombstone? {
      at := PairsStand(slots, i + 2, left, items, nesting, tison);
      PassKey(slots, i, at);
    } else {
      RepresentsStands(slots[i], items[0], nesting, tison);
      RepresentsStands(slots[i + 1], items[1], nesting, tison);
      var rest := PairsStand(slots, i + 2, left - 1, items[2..], nesting, tison);
      at := [i] + rest;
      OneKey(slots, i, rest);
      OnePair(items, slots, i, rest, tison);
    }
  }

  lemma NoPairs(slots: seq<Value>, i: nat, tison: bool)
    ensures FirstKeys(slots, i, []) && PairsStandFor([], slots, [], tison)
  {
  }

  lemma PassKey(slots: seq<Value>, i: nat, at: seq<nat>)
    requires FirstKeys(slots, i + 2, at) && i % 2 == 0 && i < |slots| && slots[i].Tombstone?
    ensures FirstKeys(slots, i, at)
  {
  }

  lemma OneKey(slots: seq<Value>, i: nat, rest: seq<nat>)
    requires FirstKeys(slots, i + 2, rest) && i % 2 == 0 && i + 1 < |slots| && !slots[i].Tombstone?
    ensures FirstKeys(slots, i, [i] + rest)
  {
    var at := [i] + rest;
    assert forall k :: 0 < k < |at| ==> at[k] == rest[k - 1];
    forall p, k | i <= p < |slots| && p % 2 == 0 && !slots[p].Tombstone? && 0 <= k < |at| && p < at[k]
      ensures p in at
    {
      if p != i {
        assert p in rest;
      }
    }
  }

  lemma OnePair(items: seq<Wire.Wire>, slots: seq<Value>, i: nat, rest: seq<nat>, tison: bool)
    requires |items| >= 2 && i + 1 < |slots| && PairsStandFor(items[2..], slots, rest, tison)
    requires StandsFor(items[0], slots[i], tison) && StandsFor(items[1], slots[i + 1], tison)
    ensures PairsStandFor(items, slots, [i] + rest, tison)
  {
    hide StandsFor;
    var at := [i] + rest;
    forall k | 0 <= k < |at|
      ensures at[k] + 1 < |slots|
      ensures StandsFor(items[2 * k], slots[at[k]], tison) && StandsFor(items[2 * k + 1], slots[at[k] + 1], tison)
    {
      if k > 0 {
        assert at[k] == rest[k - 1] && items[2 * k] == items[2..][2 * (k - 1)] && items[2 * k + 1] == items[2..][2 * (k - 1) + 1];
      }
    }
  }
}
