/** The message format: what an encoded value looks like as bytes, and reading it back.
    TISON and IPC messages share the format; only IPC messages carry pointers. */
module Wire {
  import opened Options
  import opened Words

  const TAG_POSITIVE_SMI: byte := 1
  const TAG_NEGATIVE_SMI: byte := 2
  const TAG_NULL: byte := 3
  const TAG_TRUE: byte := 4
  const TAG_FALSE: byte := 5
  const TAG_ARRAY: byte := 6
  const TAG_DOUBLE: byte := 7
  const TAG_LARGE_INTEGER: byte := 8
  const TAG_MAP: byte := 9
  const TAG_STRING: byte := 10
  const TAG_BYTE_ARRAY: byte := 12

  const U64: nat := 0x1_0000_0000_0000_0000

  const MAX_EXTERNALS: nat := 8  // the size of each table of pointers

  /** A value in a message.  Texts are strings or byte arrays, either with their content
      in the message or, behind a pointer, outside of it. */
  datatype Wire =
    | Smi(n: int)
    | Null
    | True
    | False
    | Double(bits: nat)
    | LargeInteger(bits: nat)
    | Inline(isString: bool, content: seq<byte>)
    | External(isString: bool, length: nat, pointer: nat)
    | Array(items: seq<Wire>)
    | Map(items: seq<Wire>)  // keys and values alternate

  function TextTag(isString: bool): byte
  {
    if isString then TAG_STRING else TAG_BYTE_ARRAY
  }

  // ----- Numbers ------------------------------------------------------------------------

  /** Seven bits per byte, least significant first; all but the last byte have the top
      bit set. */
  function Cardinal(n: nat): (r: seq<byte>)
    ensures |r| > 0
  {
    if n >= 128 then [n % 128 + 128] + Cardinal(n / 128) else [n]
  }

  /** A number of `k` bytes as it lies in memory, least significant byte first. */
  function Fixed(n: nat, k: nat): (r: seq<byte>)
    ensures |r| == k
  {
    if k == 0 then [] else [n % 256] + Fixed(n / 256, k - 1)
  }

  function FixedValue(bytes: seq<byte>): nat
  {
    if bytes == [] then 0 else bytes[0] as nat + 256 * FixedValue(bytes[1..])
  }

  function Pow256(k: nat): (r: nat)
    ensures r > 0
  {
    if k == 0 then 1 else 256 * Pow256(k - 1)
  }

  lemma {:induction false} FixedRoundTrip(n: nat, k: nat)
    requires n < Pow256(k)
    ensures FixedValue(Fixed(n, k)) == n
  {
    if k == 0 {
    } else {
      FixedRoundTrip(n / 256, k - 1);
      assert Fixed(n, k)[1..] == Fixed(n / 256, k - 1);
    }
  }

  lemma Pow256Values()
    ensures Pow256(4) == U32 && Pow256(8) == U64
  {
    assert Pow256(4) == U32;
    assert Pow256(8) == 256 * (256 * (256 * (256 * Pow256(4))));
  }

  // ----- Values -------------------------------------------------------------------------

  /** A tag, and what follows it. */
  function Bytes(w: Wire): (r: seq<byte>)
    ensures |r| == 1 + |Body(w)|
    decreases w, 1
  {
    [Tag(w)] + Body(w)
  }

  function Tag(w: Wire): byte
  {
    match w
    case Smi(n) => if n >= 0 then TAG_POSITIVE_SMI else TAG_NEGATIVE_SMI
    case Null => TAG_NULL
    case True => TAG_TRUE
    case False => TAG_FALSE
    case Double(_) => TAG_DOUBLE
    case LargeInteger(_) => TAG_LARGE_INTEGER
    case Inline(isString, _) => TextTag(isString) + 1
    case External(isString, _, _) => TextTag(isString)
    case Array(_) => TAG_ARRAY
    case Map(_) => TAG_MAP
  }

  function Body(w: Wire): seq<byte>
    decreases w, 0
  {
    match w
    case Smi(n) => Cardinal(if n >= 0 then n else -n)
    case Null => []
    case True => []
    case False => []
    case Double(bits) => Fixed(bits, 8)
    case LargeInteger(bits) => Fixed(bits, 8)
    case Inline(_, content) => Cardinal(|content|) + content
    case External(_, length, pointer) => Cardinal(length) + Fixed(pointer, 8)
    case Array(items) => Cardinal(|items|) + ItemsBytes(items)
    case Map(items) => Cardinal(|items| / 2) + ItemsBytes(items)
  }

  function ItemsBytes(items: seq<Wire>): seq<byte>
    decreases items, 2
  {
    if items == [] then [] else Bytes(items[0]) + ItemsBytes(items[1..])
  }

  /** Fixed-size numbers fit, and pointers occur in IPC messages only. */
  ghost predicate Sound(w: Wire, tison: bool)
    decreases w
  {
    match w
    case Double(bits) => bits < U64
    case LargeInteger(bits) => bits < U64
    case External(_, _, pointer) => !tison && pointer < U64
    case Array(items) => forall i :: 0 <= i < |items| ==> Sound(items[i], tison)
    case Map(items) => |items| % 2 == 0 && forall i :: 0 <= i < |items| ==> Sound(items[i], tison)
    case _ => true
  }

  ghost predicate NoMaps(w: Wire)
    decreases w
  {
    match w
    case Map(_) => false
    case Array(items) => forall i :: 0 <= i < |items| ==> NoMaps(items[i])
    case _ => true
  }

  /** The pointers of a message in the order in which they occur. */
  function Pointers(w: Wire): seq<nat>
    decreases w, 0
  {
    match w
    case External(_, _, pointer) => [pointer]
    case Array(items) => ItemsPointers(items)
    case Map(items) => ItemsPointers(items)
    case _ => []
  }

  function ItemsPointers(items: seq<Wire>): seq<nat>
    decreases items, 1
  {
    if items == [] then [] else Pointers(items[0]) + ItemsPointers(items[1..])
  }

  lemma {:induction false} ItemsBytesSnoc(items: seq<Wire>, w: Wire)
    ensures ItemsBytes(items + [w]) == ItemsBytes(items) + Bytes(w)
  {
    hide Bytes;
    if items == [] {
      assert [w][1..] == [];
    } else {
      ItemsBytesSnoc(items[1..], w);
      assert (items + [w])[1..] == items[1..] + [w];
      ConcatAssociates(Bytes(items[0]), ItemsBytes(items[1..]), Bytes(w));
    }
  }

  lemma {:induction false} ItemsPointersSnoc(items: seq<Wire>, w: Wire)
    ensures ItemsPointers(items + [w]) == ItemsPointers(items) + Pointers(w)
  {
    hide Pointers;
    if items == [] {
      assert [w][1..] == [];
    } else {
      ItemsPointersSnoc(items[1..], w);
      assert (items + [w])[1..] == items[1..] + [w];
      ConcatAssociates(Pointers(items[0]), ItemsPointers(items[1..]), Pointers(w));
    }
  }

  // ----- Parts ------------------------------------------------------------------------------

  /** The part of a value to which positions in arrays and maps lead. */
  function Part(w: Wire, path: seq<nat>): Option<Wire>
    decreases |path|
  {
    if path == [] then Some(w)
    else if (w.Array? || w.Map?) && path[0] < |w.items| then Part(w.items[path[0]], path[1..])
    else None
  }

  ghost predicate PointsTo(w: Wire, path: seq<nat>, pointer: nat)
  {
    var part := Part(w, path);
    part.Some? && part.value.External? && part.value.pointer == pointer
  }

  lemma PartOfItem(w: Wire, i: nat, path: seq<nat>)
    requires (w.Array? || w.Map?) && i < |w.items|
    ensures Part(w, [i] + path) == Part(w.items[i], path)
  {
    assert ([i] + path)[1..] == path;
  }

  /** The pointers are those of all parts. */
  lemma PointersOfParts(w: Wire, pointer: nat)
    ensures pointer in Pointers(w) <==> exists path :: PointsTo(w, path, pointer)
  {
    if pointer in Pointers(w) {
      var path := PathTo(w, pointer);
    }
    forall path | PointsTo(w, path, pointer)
      ensures pointer in Pointers(w)
    {
      PartPointers(w, path, pointer);
    }
  }

  lemma {:induction false} PathTo(w: Wire, pointer: nat) returns (path: seq<nat>)
    requires pointer in Pointers(w)
    ensures PointsTo(w, path, pointer)
    decreases w, 0
  {
    if w.External? {
      path := [];
    } else {
      var i, rest := PathIn(w.items, pointer);
      path := [i] + rest;
      PartOfItem(w, i, rest);
    }
  }

  lemma {:induction false} PathIn(items: seq<Wire>, pointer: nat) returns (i: nat, path: seq<nat>)
    requires pointer in ItemsPointers(items)
    ensures i < |items| && PointsTo(items[i], path, pointer)
    decreases items, 1
  {
    if pointer in Pointers(items[0]) {
      i := 0;
      path := PathTo(items[0], pointer);
    } else {
      i, path := PathIn(items[1..], pointer);
      i := i + 1;
    }
  }

  lemma {:induction false} PartPointers(w: Wire, path: seq<nat>, pointer: nat)
    requires PointsTo(w, path, pointer)
    ensures pointer in Pointers(w)
    decreases |path|
  {
    if path == [] {
    } else {
      PartPointers(w.items[path[0]], path[1..], pointer);
      ItemPointers(w.items, path[0], pointer);
    }
  }

  lemma {:induction false} ItemPointers(items: seq<Wire>, i: nat, pointer: nat)
    requires i < |items| && pointer in Pointers(items[i])
    ensures pointer in ItemsPointers(items)
    decreases i
  {
    if i == 0 {
    } else {
      ItemPointers(items[1..], i - 1, pointer);
    }
  }

  ghost predicate LeadsToMap(w: Wire, path: seq<nat>)
  {
    Part(w, path).Some? && Part(w, path).value.Map?
  }

  /** There are no maps if no part is one. */
  lemma NoMapsInParts(w: Wire)
    ensures NoMaps(w) <==> !exists path :: LeadsToMap(w, path)
  {
    if !NoMaps(w) {
      var path := PathToMap(w);
    }
    forall path | LeadsToMap(w, path)
      ensures !NoMaps(w)
    {
      MapInside(w, path);
    }
  }

  lemma {:induction false} PathToMap(w: Wire) returns (path: seq<nat>)
    requires !NoMaps(w)
    ensures LeadsToMap(w, path)
    decreases w
  {
    if w.Map? {
      path := [];
    } else {
      var i: nat :| i < |w.items| && !NoMaps(w.items[i]);
      path := PathToMap(w.items[i]);
      PartOfItem(w, i, path);
      path := [i] + path;
    }
  }

  lemma {:induction false} MapInside(w: Wire, path: seq<nat>)
    requires LeadsToMap(w, path)
    ensures !NoMaps(w)
    decreases |path|
  {
    if path == [] {
    } else if w.Array? {
      MapInside(w.items[path[0]], path[1..]);
    }
  }
}
