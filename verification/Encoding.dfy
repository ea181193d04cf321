/** What it means for a message to stand for an object, and how long it is. */
module Encoding {
  import opened Words
  import Wire

  const MAX_NESTING: nat := 8
  const MAX_INLINED_SIZE: nat := 128

  /** Objects as the encoder meets them.  Strings, byte arrays and their slices are a
      range of bytes; arrays, lists and list slices are a range of a backing array; the
      backing of a map alternates keys and values, with tombstones for removed keys.  Memory
      outside of the heap may hold a struct instead of raw bytes. */
  datatype Value =
    | Smi(n: int)
    | Null
    | True
    | False
    | Double(bits: nat)
    | LargeInteger(bits: nat)
    | Text(isString: bool, bytes: seq<byte>, from: int, to: int, raw: bool)
    | ExternalBytes(content: seq<byte>, address: nat, raw: bool)
    | Elements(backing: seq<Value>, start: nat, end: nat)
    | Map(size: nat, slots: seq<Value>)
    | Tombstone
    | Unsupported

  /** Ranges lie within what they are ranges of, and a map has as many keys as it says. */
  ghost predicate Valid(v: Value)
    decreases v, 0
  {
    match v
    case Double(bits) => bits < Wire.U64
    case LargeInteger(bits) => bits < Wire.U64
    case ExternalBytes(_, address, _) => address < Wire.U64
    case Elements(backing, start, end) => start <= end <= |backing| && AllValid(backing)
    case Map(size, slots) => |slots| % 2 == 0 && size <= Keys(slots, 0) && AllValid(slots)
    case _ => true
  }

  ghost predicate AllValid(values: seq<Value>)
    decreases values, 1
  {
    forall i :: 0 <= i < |values| ==> Valid(values[i])
  }

  /** How many keys there are from slot `i` on. */
  function Keys(slots: seq<Value>, i: nat): nat
    decreases |slots| - i
  {
    if i >= |slots| then 0 else (if slots[i].Tombstone? then 0 else 1) + Keys(slots, i + 2)
  }

  // ----- What an encoding must say ----------------------------------------------------------

  predicate IsInline(length: nat, tison: bool)
  {
    tison || length <= MAX_INLINED_SIZE
  }

  /** The bytes of a text can be had: it is a range of what it is a slice of. */
  predicate Readable(v: Value)
    requires v.Text?
  {
    v.raw && 0 <= v.from <= v.to <= |v.bytes|
  }

  function Content(v: Value): seq<byte>
    requires v.Text? && Readable(v)
  {
    v.bytes[v.from..v.to]
  }

  /** Small texts, and all texts of TISON messages, have their content in the message. */
  ghost predicate RepresentsText(isString: bool, content: seq<byte>, w: Wire.Wire, tison: bool)
  {
    if IsInline(|content|, tison) then w == Wire.Inline(isString, content)
    else w.External? && w.isString == isString && w.length == |content| && w.pointer < Wire.U64
  }

  ghost predicate RepresentsLeaf(v: Value, w: Wire.Wire, tison: bool)
    requires Valid(v)
  {
    match v
    case Smi(n) => w == Wire.Smi(n)
    case Null => w == Wire.Null
    case True => w == Wire.True
    case False => w == Wire.False
    case Double(bits) => w == Wire.Double(bits)
    case LargeInteger(bits) => w == Wire.LargeInteger(bits)
    case Text(isString, _, _, _, _) => Readable(v) && RepresentsText(isString, Content(v), w, tison)
    case ExternalBytes(content, address, raw) =>
      if tison then raw && w == Wire.Inline(false, content) else w == Wire.External(false, |content|, address)
    case _ => false
  }

  /** The message value stands for the object: slices become what they select, removed
      map entries disappear, and everything else is kept. */
  ghost predicate Represents(v: Value, w: Wire.Wire, nesting: nat, tison: bool)
    requires Valid(v)
    decreases v, 0
  {
    && nesting < MAX_NESTING
    && match v
       case Elements(backing, start, end) =>
         w.Array? && RepresentsRange(backing, start, end, w.items, nesting + 1, tison)
       case Map(size, slots) =>
         w.Map? && RepresentsPairs(slots, 0, size, w.items, nesting + 1, tison)
       case _ => RepresentsLeaf(v, w, tison)
  }

  ghost predicate RepresentsRange(backing: seq<Value>, i: nat, end: nat, items: seq<Wire.Wire>, nesting: nat, tison: bool)
    requires i <= end <= |backing| && AllValid(backing)
    decreases backing, end - i
  {
    if i == end then items == []
    else
      && items != [] && Represents(backing[i], items[0], nesting, tison)
      && RepresentsRange(backing, i + 1, end, items[1..], nesting, tison)
  }

  ghost predicate RepresentsPairs(slots: seq<Value>, i: nat, left: nat, items: seq<Wire.Wire>, nesting: nat, tison: bool)
    requires |slots| % 2 == 0 && i % 2 == 0 && left <= Keys(slots, i) && AllValid(slots)
    decreases slots, |slots| - i
  {
    if left == 0 then items == []
    else if slots[i].Tombstone? then RepresentsPairs(slots, i + 2, left, items, nesting, tison)
    else
      && |items| >= 2
      && Represents(slots[i], items[0], nesting, tison) && Represents(slots[i + 1], items[1], nesting, tison)
      && RepresentsPairs(slots, i + 2, left - 1, items[2..], nesting, tison)
  }

  ghost predicate EncodableLeaf(v: Value, tison: bool)
  {
    match v
    case Text(_, _, _, _, _) => Readable(v)
    case ExternalBytes(_, _, raw) => raw || !tison
    case Tombstone => false
    case Unsupported => false
    case _ => true
  }

  /** Everything that can be in a message at all, not nested too deeply. */
  ghost predicate Encodable(v: Value, nesting: nat, tison: bool)
    requires Valid(v)
    decreases v, 0
  {
    && nesting < MAX_NESTING
    && match v
       case Elements(backing, start, end) => EncodableRange(backing, start, end, nesting + 1, tison)
       case Map(size, slots) => EncodablePairs(slots, 0, size, nesting + 1, tison)
       case _ => EncodableLeaf(v, tison)
  }

  ghost predicate EncodableRange(backing: seq<Value>, i: nat, end: nat, nesting: nat, tison: bool)
    requires i <= end <= |backing| && AllValid(backing)
    decreases backing, end - i
  {
    i == end || (Encodable(backing[i], nesting, tison) && EncodableRange(backing, i + 1, end, nesting, tison))
  }

  ghost predicate EncodablePairs(slots: seq<Value>, i: nat, left: nat, nesting: nat, tison: bool)
    requires |slots| % 2 == 0 && i % 2 == 0 && left <= Keys(slots, i) && AllValid(slots)
    decreases slots, |slots| - i
  {
    if left == 0 then true
    else if slots[i].Tombstone? then EncodablePairs(slots, i + 2, left, nesting, tison)
    else Encodable(slots[i], nesting, tison) && Encodable(slots[i + 1], nesting, tison) && EncodablePairs(slots, i + 2, left - 1, nesting, tison)
  }

  // ----- Exactly what can be encoded ----------------------------------------------------------

  /** The slot holds one of the next keys, of which there are `left`, from slot `i` on. */
  predicate IsKey(slots: seq<Value>, i: nat, left: nat, p: nat)
  {
    i <= p < |slots| && p % 2 == 0 && !slots[p].Tombstone? && Keys(slots, i) - Keys(slots, p) < left
  }

  /** A list can be encoded if it is not more than eight deep and all that it selects can be. */
  lemma ElementsIff(backing: seq<Value>, start: nat, end: nat, nesting: nat, tison: bool)
    requires start <= end <= |backing| && AllValid(backing)
    ensures Encodable(Elements(backing, start, end), nesting, tison) <==>
      nesting < 8 && forall k :: start <= k < end ==> Encodable(backing[k], nesting + 1, tison)
  {
    RangeIff(backing, start, end, nesting + 1, tison);
  }

  /** So can a map, if its keys and values can be. */
  lemma MapIff(size: nat, slots: seq<Value>, nesting: nat, tison: bool)
    requires |slots| % 2 == 0 && size <= Keys(slots, 0) && AllValid(slots)
    ensures Encodable(Map(size, slots), nesting, tison) <==>
      nesting < 8 && forall p: nat :: IsKey(slots, 0, size, p) ==>
        Encodable(slots[p], nesting + 1, tison) && Encodable(slots[p + 1], nesting + 1, tison)
  {
    PairsIff(slots, 0, size, nesting + 1, tison);
  }

  /** Of the others, only bytes that cannot be had, structs in TISON, and objects of other classes cannot be. */
  lemma LeafIff(v: Value, nesting: nat, tison: bool)
    requires Valid(v) && !v.Elements? && !v.Map?
    ensures Encodable(v, nesting, tison) <==>
      && nesting < 8
      && match v
         case Text(_, bytes, from, to, raw) => raw && 0 <= from <= to <= |bytes|
         case ExternalBytes(_, _, raw) => raw || !tison
         case _ => !v.Tombstone? && !v.Unsupported?
  {
  }

  lemma {:induction false} RangeIff(backing: seq<Value>, i: nat, end: nat, nesting: nat, tison: bool)
    requires i <= end <= |backing| && AllValid(backing)
    ensures EncodableRange(backing, i, end, nesting, tison) <==>
      forall k :: i <= k < end ==> Encodable(backing[k], nesting, tison)
    decreases end - i
  {
    hide Encodable;
    if i == end {
    } else {
      RangeIff(backing, i + 1, end, nesting, tison);
    }
  }

  lemma {:induction false} PairsIff(slots: seq<Value>, i: nat, left: nat, nesting: nat, tison: bool)
    requires |slots| % 2 == 0 && i % 2 == 0 && left <= Keys(slots, i) && AllValid(slots)
    ensures EncodablePairs(slots, i, left, nesting, tison) <==>
      forall p: nat :: IsKey(slots, i, left, p) ==> Encodable(slots[p], nesting, tison) && Encodable(slots[p + 1], nesting, tison)
    decreases |slots| - i
  {
    hide Encodable, Valid;
    if left == 0 {
      forall p: nat | i <= p < |slots| && p % 2 == 0
        ensures !IsKey(slots, i, 0, p)
      {
        FewerKeys(slots, i, p);
      }
    } else {
      var rest := if slots[i].Tombstone? then left else left - 1;
      PairsIff(slots, i + 2, rest, nesting, tison);
      NextKey(slots, i, left, i);
      if EncodablePairs(slots, i, left, nesting, tison) {
        forall p: nat | IsKey(slots, i, left, p)
          ensures Encodable(slots[p], nesting, tison) && Encodable(slots[p + 1], nesting, tison)
        {
          NextKey(slots, i, left, p);
        }
      } else if slots[i].Tombstone? || (Encodable(slots[i], nesting, tison) && Encodable(slots[i + 1], nesting, tison)) {
        var p: nat :| IsKey(slots, i + 2, rest, p)
          && !(Encodable(slots[p], nesting, tison) && Encodable(slots[p + 1], nesting, tison));
        NextKey(slots, i, left, p);
        assert IsKey(slots, i, left, p);
      } else {
        assert IsKey(slots, i, left, i);
      }
    }
  }

  lemma NextKey(slots: seq<Value>, i: nat, left: nat, p: nat)
    requires i % 2 == 0 && i < |slots| && left > 0
    ensures IsKey(slots, i, left, p) <==>
      (p == i && !slots[i].Tombstone?) || IsKey(slots, i + 2, if slots[i].Tombstone? then left else left - 1, p)
  {
  }

  lemma {:induction false} FewerKeys(slots: seq<Value>, i: nat, p: nat)
    requires i <= p <= |slots| && i % 2 == p % 2 == 0
    ensures Keys(slots, p) <= Keys(slots, i)
    decreases p - i
  {
    if i == p {
    } else {
      FewerKeys(slots, i + 2, p);
    }
  }

  // ----- Sizes ----------------------------------------------------------------------------------

  function TextSize(length: nat, tison: bool): nat
  {
    1 + |Wire.Cardinal(length)| + if IsInline(length, tison) then length else 8
  }

  ghost function LeafSize(v: Value, tison: bool): nat
    requires Valid(v)
  {
    match v
    case Smi(n) => 1 + |Wire.Cardinal(if n >= 0 then n else -n)|
    case Double(_) => 9
    case LargeInteger(_) => 9
    case Text(_, _, from, to, _) => if Readable(v) then TextSize(to - from, tison) else 0
    case ExternalBytes(content, _, _) => 1 + |Wire.Cardinal(|content|)| + if tison then |content| else 8
    case _ => 1
  }

  /** The number of bytes of an encoding, whatever pointers it contains. */
  ghost function SizeOf(v: Value, tison: bool): nat
    requires Valid(v)
    decreases v, 0
  {
    match v
    case Elements(backing, start, end) =>
      1 + |Wire.Cardinal(end - start)| + SizeRange(backing, start, end, tison)
    case Map(size, slots) => 1 + |Wire.Cardinal(size)| + SizePairs(slots, 0, size, tison)
    case _ => LeafSize(v, tison)
  }

  ghost function SizeRange(backing: seq<Value>, i: nat, end: nat, tison: bool): nat
    requires i <= end <= |backing| && AllValid(backing)
    decreases backing, end - i
  {
    if i == end then 0 else SizeOf(backing[i], tison) + SizeRange(backing, i + 1, end, tison)
  }

  ghost function SizePairs(slots: seq<Value>, i: nat, left: nat, tison: bool): nat
    requires |slots| % 2 == 0 && i % 2 == 0 && left <= Keys(slots, i) && AllValid(slots)
    decreases slots, |slots| - i
  {
    if left == 0 then 0
    else if slots[i].Tombstone? then SizePairs(slots, i + 2, left, tison)
    else SizeOf(slots[i], tison) + SizeOf(slots[i + 1], tison) + SizePairs(slots, i + 2, left - 1, tison)
  }

  // ----- Memory beside the message -----------------------------------------------------------------

  /** The addresses of the external byte arrays that are handed over, in order, and how many
      blocks are copied. */
  datatype Need = Need(handed: seq<nat>, copies: nat)

  function Both(a: Need, b: Need): Need
  {
    Need(a.handed + b.handed, a.copies + b.copies)
  }

  function TextNeed(length: nat, tison: bool): Need
  {
    if IsInline(length, tison) then Need([], 0) else Need([], 1)
  }

  ghost function LeafNeed(v: Value, tison: bool): Need
    requires Valid(v)
  {
    match v
    case Text(_, _, from, to, _) => if Readable(v) then TextNeed(to - from, tison) else Need([], 0)
    case ExternalBytes(_, address, _) => if tison then Need([], 0) else Need([address], 0)
    case _ => Need([], 0)
  }

  ghost function NeedOf(v: Value, tison: bool): Need
    requires Valid(v)
    decreases v, 0
  {
    match v
    case Elements(backing, start, end) => NeedRange(backing, start, end, tison)
    case Map(size, slots) => NeedPairs(slots, 0, size, tison)
    case _ => LeafNeed(v, tison)
  }

  ghost function NeedRange(backing: seq<Value>, i: nat, end: nat, tison: bool): Need
    requires i <= end <= |backing| && AllValid(backing)
    decreases backing, end - i
  {
    if i == end then Need([], 0) else Both(NeedOf(backing[i], tison), NeedRange(backing, i + 1, end, tison))
  }

  ghost function NeedPairs(slots: seq<Value>, i: nat, left: nat, tison: bool): Need
    requires |slots| % 2 == 0 && i % 2 == 0 && left <= Keys(slots, i) && AllValid(slots)
    decreases slots, |slots| - i
  {
    if left == 0 then Need([], 0)
    else if slots[i].Tombstone? then NeedPairs(slots, i + 2, left, tison)
    else Both(NeedOf(slots[i], tison), Both(NeedOf(slots[i + 1], tison), NeedPairs(slots, i + 2, left - 1, tison)))
  }

  /** The external byte arrays in what an IPC message stands for. */
  ghost function Handed(v: Value): seq<nat>
    requires Valid(v)
  {
    NeedOf(v, false).handed
  }

  /** A TISON message needs no memory beside it. */
  lemma {:induction false} TisonNeedsNothing(v: Value)
    requires Valid(v)
    ensures NeedOf(v, true) == Need([], 0)
    decreases v, 0
  {
    hide Keys, AllValid, NeedRange, NeedPairs;
    match v
    case Elements(backing, start, end) => RangeNeedsNothing(backing, start, end);
    case Map(size, slots) => PairsNeedNothing(slots, 0, size);
    case _ =>
  }

  lemma {:induction false} RangeNeedsNothing(backing: seq<Value>, i: nat, end: nat)
    requires i <= end <= |backing| && AllValid(backing)
    ensures NeedRange(backing, i, end, true) == Need([], 0)
    decreases backing, end - i
  {
    hide Valid, NeedOf;
    if i == end {
    } else {
      TisonNeedsNothing(backing[i]);
      RangeNeedsNothing(backing, i + 1, end);
    }
  }

  lemma {:induction false} PairsNeedNothing(slots: seq<Value>, i: nat, left: nat)
    requires |slots| % 2 == 0 && i % 2 == 0 && left <= Keys(slots, i) && AllValid(slots)
    ensures NeedPairs(slots, i, left, true) == Need([], 0)
    decreases slots, |slots| - i
  {
    hide Valid, NeedOf, AllValid, Keys, NeedPairs;
    NeedUnfold(slots, i, left);
    if left == 0 {
    } else {
      if slots[i].Tombstone? {
        PairsNeedNothing(slots, i + 2, left);
      } else {
        TisonNeedsNothing(slots[i]);
        TisonNeedsNothing(slots[i + 1]);
        PairsNeedNothing(slots, i + 2, left - 1);
      }
    }
  }

  lemma NeedUnfold(slots: seq<Value>, i: nat, left: nat)
    requires |slots| % 2 == 0 && i % 2 == 0 && left <= Keys(slots, i) && AllValid(slots)
    ensures left == 0 ==> NeedPairs(slots, i, left, true) == Need([], 0)
    ensures left > 0 ==> i + 2 <= |slots| && Valid(slots[i]) && Valid(slots[i + 1])
    ensures left > 0 && slots[i].Tombstone? ==>
      && left <= Keys(slots, i + 2)
      && NeedPairs(slots, i, left, true) == NeedPairs(slots, i + 2, left, true)
    ensures left > 0 && !slots[i].Tombstone? ==>
      && left - 1 <= Keys(slots, i + 2)
      && NeedPairs(slots, i, left, true)
        == Both(NeedOf(slots[i], true), Both(NeedOf(slots[i + 1], true), NeedPairs(slots, i + 2, left - 1, true)))
  {
    hide Valid, NeedOf;
  }

  // ----- Encodings are sound ---------------------------------------------------------------------

  lemma LeafSound(v: Value, w: Wire.Wire, tison: bool)
    requires Valid(v) && RepresentsLeaf(v, w, tison)
    ensures |Wire.Bytes(w)| == LeafSize(v, tison) && Wire.Sound(w, tison)
  {
    hide Wire.Cardinal, Wire.Fixed;
  }

  lemma {:induction false} RangeSound(backing: seq<Value>, i: nat, end: nat, items: seq<Wire.Wire>, nesting: nat, tison: bool)
    requires i <= end <= |backing| && AllValid(backing)
    requires RepresentsRange(backing, i, end, items, nesting, tison)
    ensures |items| == end - i && |Wire.ItemsBytes(items)| == SizeRange(backing, i, end, tison)
    ensures forall k :: 0 <= k < |items| ==> Wire.Sound(items[k], tison)
    decreases backing, end - i
  {
    hide Represents, Valid, SizeOf, Wire.Sound, Wire.Bytes;
    if i == end {
    } else {
      RepresentsSound(backing[i], items[0], nesting, tison);
      RangeSound(backing, i + 1, end, items[1..], nesting, tison);
      assert forall k :: 1 <= k < |items| ==> items[k] == items[1..][k - 1];
    }
  }

  lemma TwoItems(items: seq<Wire.Wire>)
    requires |items| >= 2
    ensures |Wire.ItemsBytes(items)| == |Wire.Bytes(items[0])| + |Wire.Bytes(items[1])| + |Wire.ItemsBytes(items[2..])|
  {
    hide Wire.Bytes;
    assert items[1..][1..] == items[2..];
  }

  lemma {:induction false} PairsSound(slots: seq<Value>, i: nat, left: nat, items: seq<Wire.Wire>, nesting: nat, tison: bool)
    requires |slots| % 2 == 0 && i % 2 == 0 && left <= Keys(slots, i) && AllValid(slots)
    requires RepresentsPairs(slots, i, left, items, nesting, tison)
    ensures |items| == 2 * left && |Wire.ItemsBytes(items)| == SizePairs(slots, i, left, tison)
    ensures forall k :: 0 <= k < |items| ==> Wire.Sound(items[k], tison)
    decreases slots, |slots| - i
  {
    hide Represents, Valid, SizeOf, Wire.Sound, Wire.Bytes;
    if left == 0 {
    } else {
      if slots[i].Tombstone? {
        PairsSound(slots, i + 2, left, items, nesting, tison);
      } else {
        RepresentsSound(slots[i], items[0], nesting, tison);
        RepresentsSound(slots[i + 1], items[1], nesting, tison);
        PairsSound(slots, i + 2, left - 1, items[2..], nesting, tison);
        TwoItems(items);
        assert forall k :: 2 <= k < |items| ==> items[k] == items[2..][k - 2];
      }
    }
  }

  /** Every encoding of an object has the same size, and is one the decoder accepts. */
  lemma {:induction false} RepresentsSound(v: Value, w: Wire.Wire, nesting: nat, tison: bool)
    requires Valid(v) && Represents(v, w, nesting, tison)
    ensures |Wire.Bytes(w)| == SizeOf(v, tison) && Wire.Sound(w, tison)
    decreases v, 0
  {
    hide Wire.Cardinal, Wire.Fixed, Wire.ItemsBytes, RepresentsRange, RepresentsPairs, SizeRange, SizePairs, LeafSize,
      RepresentsLeaf, AllValid, Keys;
    match v
    case Elements(backing, start, end) =>
      RangeSound(backing, start, end, w.items, nesting + 1, tison);
    case Map(size, slots) =>
      PairsSound(slots, 0, size, w.items, nesting + 1, tison);
    case _ =>
      LeafSound(v, w, tison);
  }

  // ----- The definitions, kind by kind -----------------------------------------------------------

  lemma ElementsMeaning(v: Value, nesting: nat, tison: bool)
    requires Valid(v) && v.Elements? && nesting < MAX_NESTING
    ensures v.start <= v.end <= |v.backing| && AllValid(v.backing)
    ensures SizeOf(v, tison) == 1 + |Wire.Cardinal(v.end - v.start)| + SizeRange(v.backing, v.start, v.end, tison)
    ensures NeedOf(v, tison) == NeedRange(v.backing, v.start, v.end, tison)
    ensures Encodable(v, nesting, tison) <==> EncodableRange(v.backing, v.start, v.end, nesting + 1, tison)
    ensures forall w: Wire.Wire :: w.Array? && RepresentsRange(v.backing, v.start, v.end, w.items, nesting + 1, tison) ==>
      Represents(v, w, nesting, tison)
  {
    hide RepresentsRange, SizeRange, NeedRange, EncodableRange, Wire.Cardinal, AllValid;
  }

  lemma MapMeaning(v: Value, nesting: nat, tison: bool)
    requires Valid(v) && v.Map? && nesting < MAX_NESTING
    ensures |v.slots| % 2 == 0 && v.size <= Keys(v.slots, 0) && AllValid(v.slots)
    ensures SizeOf(v, tison) == 1 + |Wire.Cardinal(v.size)| + SizePairs(v.slots, 0, v.size, tison)
    ensures NeedOf(v, tison) == NeedPairs(v.slots, 0, v.size, tison)
    ensures Encodable(v, nesting, tison) <==> EncodablePairs(v.slots, 0, v.size, nesting + 1, tison)
    ensures forall w: Wire.Wire :: w.Map? && RepresentsPairs(v.slots, 0, v.size, w.items, nesting + 1, tison) ==>
      Represents(v, w, nesting, tison)
  {
    hide RepresentsPairs, SizePairs, NeedPairs, EncodablePairs, Wire.Cardinal, AllValid, Keys;
  }

  lemma LeafMeaning(v: Value, nesting: nat, tison: bool)
    requires Valid(v) && !v.Elements? && !v.Map? && nesting < MAX_NESTING
    ensures SizeOf(v, tison) == LeafSize(v, tison) && NeedOf(v, tison) == LeafNeed(v, tison)
    ensures Encodable(v, nesting, tison) <==> EncodableLeaf(v, tison)
    ensures forall w :: RepresentsLeaf(v, w, tison) ==> Represents(v, w, nesting, tison)
  {
    hide RepresentsLeaf, LeafSize, LeafNeed, EncodableLeaf;
  }

  // ----- Going through ranges and maps in order --------------------------------------------------

  /** With the items `done` for what lies before `i`, any encoding of the rest completes
      one of the whole range. */
  ghost predicate RangeContinues(
    backing: seq<Value>, start: nat, i: nat, end: nat, done: seq<Wire.Wire>, nesting: nat, tison: bool)
  {
    && start <= i <= end <= |backing| && AllValid(backing)
    && forall rest :: RepresentsRange(backing, i, end, rest, nesting, tison) ==>
      RepresentsRange(backing, start, end, done + rest, nesting, tison)
  }

  lemma RangeStarts(backing: seq<Value>, start: nat, end: nat, nesting: nat, tison: bool)
    requires start <= end <= |backing| && AllValid(backing)
    ensures RangeContinues(backing, start, start, end, [], nesting, tison)
  {
    hide RepresentsRange, Valid;
    assert forall rest: seq<Wire.Wire> :: [] + rest == rest;
  }

  lemma RangeUnfolds(backing: seq<Value>, i: nat, end: nat, nesting: nat, tison: bool)
    requires i <= end <= |backing| && AllValid(backing)
    ensures i < end ==>
      && Valid(backing[i])
      && SizeRange(backing, i, end, tison) == SizeOf(backing[i], tison) + SizeRange(backing, i + 1, end, tison)
      && NeedRange(backing, i, end, tison) == Both(NeedOf(backing[i], tison), NeedRange(backing, i + 1, end, tison))
      && (EncodableRange(backing, i, end, nesting, tison) <==>
        Encodable(backing[i], nesting, tison) && EncodableRange(backing, i + 1, end, nesting, tison))
    ensures i == end ==>
      SizeRange(backing, i, end, tison) == 0 && NeedRange(backing, i, end, tison) == Need([], 0)
      && EncodableRange(backing, i, end, nesting, tison)
  {
    hide Valid, SizeOf, NeedOf, Encodable;
  }

  lemma PairsUnfold(slots: seq<Value>, i: nat, left: nat, nesting: nat, tison: bool)
    requires |slots| % 2 == 0 && i % 2 == 0 && left <= Keys(slots, i) && AllValid(slots)
    ensures left > 0 ==> i + 2 <= |slots| && Valid(slots[i]) && Valid(slots[i + 1])
    ensures left > 0 && slots[i].Tombstone? ==>
      && left <= Keys(slots, i + 2)
      && SizePairs(slots, i, left, tison) == SizePairs(slots, i + 2, left, tison)
      && NeedPairs(slots, i, left, tison) == NeedPairs(slots, i + 2, left, tison)
      && EncodablePairs(slots, i, left, nesting, tison) == EncodablePairs(slots, i + 2, left, nesting, tison)
    ensures left > 0 && !slots[i].Tombstone? ==>
      && left - 1 <= Keys(slots, i + 2)
      && SizePairs(slots, i, left, tison)
        == SizeOf(slots[i], tison) + SizeOf(slots[i + 1], tison) + SizePairs(slots, i + 2, left - 1, tison)
      && NeedPairs(slots, i, left, tison)
        == Both(NeedOf(slots[i], tison), Both(NeedOf(slots[i + 1], tison), NeedPairs(slots, i + 2, left - 1, tison)))
      && (EncodablePairs(slots, i, left, nesting, tison) <==>
        Encodable(slots[i], nesting, tison) && Encodable(slots[i + 1], nesting, tison) && EncodablePairs(slots, i + 2, left - 1, nesting, tison))
    ensures left == 0 ==>
      SizePairs(slots, i, left, tison) == 0 && NeedPairs(slots, i, left, tison) == Need([], 0)
      && EncodablePairs(slots, i, left, nesting, tison)
  {
    hide Valid, SizeOf, NeedOf, Encodable;
  }

  lemma RangeStep(
    backing: seq<Value>, start: nat, i: nat, end: nat, done: seq<Wire.Wire>, w: Wire.Wire, nesting: nat, tison: bool)
    requires RangeContinues(backing, start, i, end, done, nesting, tison)
    requires i < end && Represents(backing[i], w, nesting, tison)
    ensures RangeContinues(backing, start, i + 1, end, done + [w], nesting, tison)
  {
    hide Represents, Valid;
    forall rest | RepresentsRange(backing, i + 1, end, rest, nesting, tison)
      ensures RepresentsRange(backing, start, end, done + [w] + rest, nesting, tison)
    {
      var longer := [w] + rest;
      assert longer[1..] == rest;
      assert RepresentsRange(backing, i, end, longer, nesting, tison);
      assert done + [w] + rest == done + longer;
    }
  }

  lemma RangeEnds(backing: seq<Value>, start: nat, end: nat, done: seq<Wire.Wire>, nesting: nat, tison: bool)
    requires RangeContinues(backing, start, end, end, done, nesting, tison)
    ensures RepresentsRange(backing, start, end, done, nesting, tison)
  {
    hide Represents, Valid;
    assert RepresentsRange(backing, end, end, [], nesting, tison);
    assert done + [] == done;
  }

  ghost predicate PairsContinue(
    slots: seq<Value>, i: nat, left: nat, size: nat, done: seq<Wire.Wire>, nesting: nat, tison: bool)
  {
    && |slots| % 2 == 0 && i % 2 == 0 && left <= Keys(slots, i) && size <= Keys(slots, 0) && AllValid(slots)
    && forall rest :: RepresentsPairs(slots, i, left, rest, nesting, tison) ==>
      RepresentsPairs(slots, 0, size, done + rest, nesting, tison)
  }

  lemma PairsStart(slots: seq<Value>, size: nat, nesting: nat, tison: bool)
    requires |slots| % 2 == 0 && size <= Keys(slots, 0) && AllValid(slots)
    ensures PairsContinue(slots, 0, size, size, [], nesting, tison)
  {
    hide RepresentsPairs, Valid, Keys;
    assert forall rest: seq<Wire.Wire> :: [] + rest == rest;
  }

  lemma PairsSkip(slots: seq<Value>, i: nat, left: nat, size: nat, done: seq<Wire.Wire>, nesting: nat, tison: bool)
    requires PairsContinue(slots, i, left, size, done, nesting, tison)
    requires left > 0 && slots[i].Tombstone?
    ensures PairsContinue(slots, i + 2, left, size, done, nesting, tison)
  {
    hide Represents, Valid;
    forall rest | RepresentsPairs(slots, i + 2, left, rest, nesting, tison)
      ensures RepresentsPairs(slots, 0, size, done + rest, nesting, tison)
    {
      assert RepresentsPairs(slots, i, left, rest, nesting, tison);
    }
  }

  lemma PairsStep(
    slots: seq<Value>, i: nat, left: nat, size: nat, done: seq<Wire.Wire>, key: Wire.Wire, value: Wire.Wire,
    nesting: nat, tison: bool)
    requires PairsContinue(slots, i, left, size, done, nesting, tison)
    requires left > 0 && !slots[i].Tombstone?
    requires Represents(slots[i], key, nesting, tison) && Represents(slots[i + 1], value, nesting, tison)
    ensures PairsContinue(slots, i + 2, left - 1, size, done + [key] + [value], nesting, tison)
  {
    hide Represents, Valid;
    forall rest | RepresentsPairs(slots, i + 2, left - 1, rest, nesting, tison)
      ensures RepresentsPairs(slots, 0, size, done + [key] + [value] + rest, nesting, tison)
    {
      var longer := [key, value] + rest;
      assert longer[2..] == rest;
      assert RepresentsPairs(slots, i, left, longer, nesting, tison);
      assert done + [key] + [value] + rest == done + longer;
    }
  }

  lemma PairsEnd(slots: seq<Value>, i: nat, size: nat, done: seq<Wire.Wire>, nesting: nat, tison: bool)
    requires PairsContinue(slots, i, 0, size, done, nesting, tison)
    ensures RepresentsPairs(slots, 0, size, done, nesting, tison)
  {
    hide Represents, Valid, Keys;
    assert RepresentsPairs(slots, i, 0, [], nesting, tison);
    assert done + [] == done;
  }

  // ----- Maps -------------------------------------------------------------------------------------

  /** There is a map in what the object stands for. */
  ghost predicate SelectsMap(v: Value)
    requires Valid(v)
    decreases v, 0
  {
    match v
    case Map(_, _) => true
    case Elements(backing, start, end) => RangeSelectsMap(backing, start, end)
    case _ => false
  }

  ghost predicate RangeSelectsMap(backing: seq<Value>, i: nat, end: nat)
    requires i <= end <= |backing| && AllValid(backing)
    decreases backing, end - i
  {
    i < end && (SelectsMap(backing[i]) || RangeSelectsMap(backing, i + 1, end))
  }

  lemma {:induction false} RangeMaps(backing: seq<Value>, i: nat, end: nat, items: seq<Wire.Wire>, nesting: nat, tison: bool)
    requires i <= end <= |backing| && AllValid(backing)
    requires RepresentsRange(backing, i, end, items, nesting, tison)
    ensures RangeSelectsMap(backing, i, end) <==> exists k :: 0 <= k < |items| && !Wire.NoMaps(items[k])
    decreases backing, end - i
  {
    hide Represents, Valid, SelectsMap, Wire.NoMaps;
    if i == end {
    } else {
      MapsIff(backing[i], items[0], nesting, tison);
      RangeMaps(backing, i + 1, end, items[1..], nesting, tison);
      if RangeSelectsMap(backing, i + 1, end) {
        var k :| 0 <= k < |items[1..]| && !Wire.NoMaps(items[1..][k]);
        assert items[k + 1] == items[1..][k];
      }
      assert forall k :: 1 <= k < |items| ==> items[k] == items[1..][k - 1];
    }
  }

  /** The message contains a map exactly if the object does. */
  lemma {:induction false} MapsIff(v: Value, w: Wire.Wire, nesting: nat, tison: bool)
    requires Valid(v) && Represents(v, w, nesting, tison)
    ensures Wire.NoMaps(w) <==> !SelectsMap(v)
    decreases v, 0
  {
    hide RepresentsRange, RepresentsPairs, RangeSelectsMap, AllValid, Keys;
    match v
    case Elements(backing, start, end) =>
      RangeMaps(backing, start, end, w.items, nesting + 1, tison);
    case _ =>
  }
}
