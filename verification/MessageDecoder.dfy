/** Reading messages: decoding, and releasing what a message points to. */
module MessageDecoder {
  import opened Options
  import opened Words
  import opened Wire

  const TISON_MARKER: nat := 0xa68901f7  // the marker proper, or-ed with version 1 << 8

  class MessageDecoder {
    const memory: nat -> byte  // what lies at and behind the buffer's address
    const size: nat
    const tison: bool
    var cursor: nat
    var malformed: bool
    var fatal: bool
    var freed: seq<nat>
    var externals: nat  // how many pointers were registered
    ghost var outside: bool  // whether memory behind the buffer was read

    constructor (memory: nat -> byte, size: nat, tison: bool)
      ensures this.memory == memory && this.size == size && this.tison == tison
      ensures cursor == 0 && !malformed && !fatal && freed == [] && externals == 0 && !outside
    {
      this.memory, this.size, this.tison := memory, size, tison;
      cursor, malformed, fatal, freed, externals, outside := 0, false, false, [], 0, false;
    }

    predicate Overflown()
      reads `cursor
    {
      cursor > size
    }

    /** The buffer holds these bytes at this place. */
    ghost predicate Holds(at: nat, bytes: seq<byte>)
    {
      at + |bytes| <= size && forall i :: 0 <= i < |bytes| ==> memory(at + i) == bytes[i]
    }

    lemma HoldsBoth(at: nat, a: seq<byte>, b: seq<byte>)
      ensures Holds(at, a + b) <==> Holds(at, a) && Holds(at + |a|, b)
    {
      if Holds(at, a + b) {
        forall i | 0 <= i < |a| ensures memory(at + i) == a[i] { assert (a + b)[i] == a[i]; }
        forall i | 0 <= i < |b| ensures memory(at + |a| + i) == b[i] { assert (a + b)[|a| + i] == b[i]; }
      }
      if Holds(at, a) && Holds(at + |a|, b) {
        forall i | 0 <= i < |a + b| ensures memory(at + i) == (a + b)[i] {
          if i >= |a| { assert memory(at + |a| + (i - |a|)) == b[i - |a|]; }
        }
      }
    }

    // ----- Numbers ----------------------------------------------------------------------

    /** Past the end everything reads as zero. */
    method ReadUint8() returns (b: byte)
      modifies `cursor
      ensures cursor == old(cursor) + 1
      ensures b == if old(cursor) < size then memory(old(cursor)) else 0
    {
      b := if cursor < size then memory(cursor) else 0;
      cursor := cursor + 1;
    }

    /** The number that starts here, and where it ends, whatever bytes there are. */
    ghost function CardinalAt(at: nat): (r: (nat, nat))
      ensures r.1 > at && (r.1 > size ==> at >= size || r.1 == size + 1)
      decreases if at < size then size - at else 0
    {
      if at >= size then (0, at + 1)
      else if memory(at) < 128 then (memory(at), at + 1)
      else
        var (v, next) := CardinalAt(at + 1);
        (memory(at) - 128 + 128 * v, next)
    }

    /** A number that the end cuts off is zero. */
    method ReadCardinal() returns (n: nat)
      modifies `cursor
      ensures var (v, next) := CardinalAt(old(cursor));
        cursor == next > old(cursor) && n == if next > size then 0 else v
    {
      hide Shifted, CardinalAt;
      n := 0;
      var b := ReadUint8();
      var shift := 0;
      ghost var at := old(cursor);
      NotShifted(CardinalAt(at).0);
      CardinalHere(at);
      while b >= 128
        invariant old(cursor) < cursor == at + 1
        invariant b == if at < size then memory(at) else 0
        invariant CardinalAt(at).1 == CardinalAt(old(cursor)).1
        invariant n + Shifted(CardinalAt(at).0, shift) == CardinalAt(old(cursor)).0
        decreases size + 1 - cursor
      {
        CardinalHere(at);
        CardinalHere(at + 1);
        CardinalStep(b - 128, CardinalAt(at + 1).0, shift);
        n := n + Shifted(b - 128, shift);
        at := at + 1;
        shift := shift + 7;
        b := ReadUint8();
      }
      CardinalHere(at);
      if b == 0 && Overflown() {
        return 0;
      }
      n := n + Shifted(b, shift);
    }

    lemma CardinalHere(at: nat)
      ensures at >= size ==> CardinalAt(at) == (0, at + 1)
      ensures at < size && memory(at) < 128 ==> CardinalAt(at) == (memory(at) as nat, at + 1)
      ensures at < size && memory(at) >= 128 ==>
        CardinalAt(at) == (memory(at) - 128 + 128 * CardinalAt(at + 1).0, CardinalAt(at + 1).1)
    {
    }

    /** An encoded cardinal is the number that starts there. */
    lemma {:induction false} HoldsCardinal(at: nat, v: nat)
      requires Holds(at, Cardinal(v))
      ensures CardinalAt(at) == (v, at + |Cardinal(v)|) && at + |Cardinal(v)| <= size
      decreases v
    {
      hide Holds;
      FirstOfCardinal(at, v);
      HoldsInside(at, Cardinal(v));
      if v < 128 {
      } else {
        HoldsCardinal(at + 1, v / 128);
      }
    }

    /** If there is nothing but continuation bytes, the end comes first. */
    lemma {:induction false} CutOff(at: nat)
      requires at <= size && forall i :: at <= i < size ==> memory(i) >= 128
      ensures CardinalAt(at).1 == size + 1
      decreases size - at
    {
      if at == size {
      } else {
        CutOff(at + 1);
      }
    }

    /** The first byte of a cardinal in the buffer, and where the rest of it is. */
    lemma FirstOfCardinal(at: nat, v: nat)
      requires Holds(at, Cardinal(v))
      ensures at < size && memory(at) == FirstByte(v)
      ensures v >= 128 ==> Holds(at + 1, Cardinal(v / 128)) && |Cardinal(v)| == 1 + |Cardinal(v / 128)|
      ensures v < 128 ==> |Cardinal(v)| == 1
    {
      assert memory(at + 0) == Cardinal(v)[0];
      if v >= 128 {
        HoldsBoth(at, [v % 128 + 128], Cardinal(v / 128));
      }
    }

    function Content(at: nat, length: nat): (r: seq<byte>)
      ensures |r| == length
    {
      seq(length, (i: nat) => memory(at + i))
    }

    lemma ContentIs(at: nat, bytes: seq<byte>)
      requires Holds(at, bytes)
      ensures Content(at, |bytes|) == bytes
    {
    }

    /** Numbers of fixed size, and pointers: zero if they do not fit into the rest. */
    method ReadFixed(k: nat) returns (n: nat)
      modifies `cursor
      ensures cursor == old(cursor) + k
      ensures n == if old(cursor) + k <= size then FixedValue(Content(old(cursor), k)) else 0
    {
      n := 0;
      var next := cursor + k;
      if next <= size {
        n := FixedValue(Content(cursor, k));
      }
      cursor := next;
    }

    // ----- Values ------------------------------------------------------------------------

    ghost function Left(): nat
      reads `cursor
    {
      if cursor < size then size - cursor else 0
    }

    /** Where the value ends, if it is what the bytes here spell, in whatever way they do. */
    ghost function EndOf(at: nat, w: Wire): (r: Option<nat>)
      ensures r.Some? ==> r.value > at
      decreases w, 0
    {
      if at >= size then None
      else
        var (n, next) := CardinalAt(at + 1);
        var tag := memory(at);
        match w
        case Smi(value) =>
          var m := if next > size then 0 else n;
          if (tag == TAG_POSITIVE_SMI && value == m) || (tag == TAG_NEGATIVE_SMI && value == -(m as int)) then Some(next) else None
        case Null => if tag == TAG_NULL then Some(at + 1) else None
        case True => if tag == TAG_TRUE then Some(at + 1) else None
        case False => if tag == TAG_FALSE then Some(at + 1) else None
        case Double(bits) => if tag == TAG_DOUBLE && Word64(at + 1) == Some(bits) then Some(at + 9) else None
        case LargeInteger(bits) => if tag == TAG_LARGE_INTEGER && Word64(at + 1) == Some(bits) then Some(at + 9) else None
        case Inline(isString, content) =>
          if tag == TextTag(isString) + 1 && next <= size && |content| == n && content == Content(next, n)
          then Some(next + n) else None
        case External(isString, length, pointer) =>
          if !tison && tag == TextTag(isString) && next <= size && length == n && pointer == PointerAt(next)
          then Some(next + 8) else None
        case Array(items) =>
          if tag == TAG_ARRAY && next <= size && |items| == n then ItemsEnd(next, items) else None
        case Map(items) =>
          if tag == TAG_MAP && next <= size && |items| == 2 * n then ItemsEnd(next, items) else None
    }

    ghost function ItemsEnd(at: nat, items: seq<Wire>): (r: Option<nat>)
      ensures r.Some? ==> r.value >= at
      decreases items, 1
    {
      if items == [] then Some(at)
      else
        match EndOf(at, items[0])
        case None => None
        case Some(end) => ItemsEnd(end, items[1..])
    }

    /** Eight bytes have to be inside the buffer. */
    ghost function Word64(at: nat): Option<nat>
    {
      if at + 8 <= size then Some(FixedValue(Content(at, 8))) else None
    }

    /** A pointer is not checked. */
    ghost function PointerAt(at: nat): nat
    {
      if at + 8 <= size then FixedValue(Content(at, 8)) else 0
    }

    lemma {:induction false} ItemsEndSnoc(at: nat, items: seq<Wire>, w: Wire)
      ensures ItemsEnd(at, items + [w]) == match ItemsEnd(at, items) { case None => None case Some(end) => EndOf(end, w) }
      decreases |items|
    {
      hide EndOf;
      if items == [] {
        assert [w][1..] == [];
      } else {
        assert (items + [w])[1..] == items[1..] + [w];
        match EndOf(at, items[0])
        case None =>
        case Some(end) => ItemsEndSnoc(end, items[1..], w);
      }
    }

    // ----- Encoded values --------------------------------------------------------------------

    /** What is encoded is spelled. */
    lemma {:induction false} EncodedIsSpelled(at: nat, w: Wire)
      requires Sound(w, tison) && Holds(at, Bytes(w))
      ensures EndOf(at, w) == Some(at + |Bytes(w)|) && at + |Bytes(w)| <= size
      decreases w, 0
    {
      hide Holds, Cardinal, CardinalAt, Fixed, FixedValue, Pow256, ItemsEnd, ItemsBytes;
      HoldsBoth(at, [Tag(w)], Body(w));
      HoldsOne(at, Tag(w));
      HoldsInside(at, Bytes(w));
      match w
      case Smi(n) => HoldsCardinal(at + 1, if n >= 0 then n else -n);
      case Double(bits) => HoldsWord(at + 1, bits);
      case LargeInteger(bits) => HoldsWord(at + 1, bits);
      case Inline(_, content) =>
        HoldsBoth(at + 1, Cardinal(|content|), content);
        HoldsCardinal(at + 1, |content|);
        ContentIs(at + 1 + |Cardinal(|content|)|, content);
      case External(_, length, pointer) =>
        HoldsBoth(at + 1, Cardinal(length), Fixed(pointer, 8));
        HoldsCardinal(at + 1, length);
        HoldsWord(at + 1 + |Cardinal(length)|, pointer);
      case Array(items) =>
        HoldsBoth(at + 1, Cardinal(|items|), ItemsBytes(items));
        HoldsCardinal(at + 1, |items|);
        ItemsAreSpelled(at + 1 + |Cardinal(|items|)|, items);
      case Map(items) =>
        HoldsBoth(at + 1, Cardinal(|items| / 2), ItemsBytes(items));
        HoldsCardinal(at + 1, |items| / 2);
        ItemsAreSpelled(at + 1 + |Cardinal(|items| / 2)|, items);
      case _ =>
    }

    lemma {:induction false} ItemsAreSpelled(at: nat, items: seq<Wire>)
      requires Holds(at, ItemsBytes(items)) && forall i :: 0 <= i < |items| ==> Sound(items[i], tison)
      ensures ItemsEnd(at, items) == Some(at + |ItemsBytes(items)|)
      decreases items, 1
    {
      hide Holds, Sound, EndOf, Bytes;
      if items == [] {
      } else {
        HoldsBoth(at, Bytes(items[0]), ItemsBytes(items[1..]));
        EncodedIsSpelled(at, items[0]);
        ItemsAreSpelled(at + |Bytes(items[0])|, items[1..]);
      }
    }

    lemma HoldsWord(at: nat, n: nat)
      requires n < U64 && Holds(at, Fixed(n, 8))
      ensures Word64(at) == Some(n) && PointerAt(at) == n
    {
      hide Fixed, FixedValue, Pow256;
      Pow256Values();
      ContentIs(at, Fixed(n, 8));
      FixedRoundTrip(n, 8);
    }

    lemma HoldsOne(at: nat, b: byte)
      ensures Holds(at, [b]) ==> at < size && memory(at) == b
    {
      if Holds(at, [b]) { assert memory(at + 0) == [b][0]; }
    }

    lemma HoldsInside(at: nat, bytes: seq<byte>)
      requires Holds(at, bytes)
      ensures at + |bytes| <= size
    {
    }

    // ----- Decoding ----------------------------------------------------------------------------

    method MarkMalformed() returns (r: Option<Wire>)
      modifies `malformed
      ensures malformed && r == None
    {
      malformed := true;
      r := None;
    }

    /** All pointers of the message have places in the table, beside those that are there. */
    ghost predicate Registers(w: Wire)
      reads `externals
    {
      externals + |Pointers(w)| <= MAX_EXTERNALS
    }

    /** A text whose length is here is not empty and ends behind the buffer. */
    ghost predicate TextBehind(at: nat)
    {
      var (length, next) := CardinalAt(at);
      next <= size < next + length
    }

    ghost predicate InlineTag(at: nat)
    {
      at < size && (memory(at) == TAG_STRING + 1 || memory(at) == TAG_BYTE_ARRAY + 1)
    }

    /** The state before a value is decoded. */
    predicate Going()
      reads `malformed, `fatal, `externals
    {
      !malformed && !fatal && externals <= MAX_EXTERNALS
    }

    /** The value `r` is what the bytes from `at` on spell, and its pointers were registered. */
    ghost predicate Decoded(at: nat, before: nat, r: Option<Wire>)
      reads `cursor, `malformed, `fatal, `externals
    {
      && externals <= MAX_EXTERNALS && (malformed || fatal <==> r == None) && (tison ==> !fatal)
      && (r.Some? ==> EndOf(at, r.value) == Some(cursor) && externals == before + |Pointers(r.value)|)
    }

    /** If the bytes spell the value `w`, then that is the result, or it has too many pointers. */
    ghost predicate Recognized(at: nat, before: nat, w: Option<Wire>, r: Option<Wire>)
      reads `malformed, `fatal
    {
      w.Some? && EndOf(at, w.value).Some? ==>
        !malformed && (fatal <==> before + |Pointers(w.value)| > MAX_EXTERNALS) && (!fatal ==> r == w)
    }

    /** Whatever bytes there are: a value is decoded exactly if they spell it, except that a
        pointer too many is fatal. */
    method DecodeAny(ghost w: Option<Wire>) returns (r: Option<Wire>)
      requires Going()
      modifies `cursor, `malformed, `fatal, `externals, `outside
      ensures cursor > old(cursor)
      ensures Decoded(old(cursor), old(externals), r) && Recognized(old(cursor), old(externals), w, r)
      ensures outside ==> old(outside) || Overflown()
      ensures InlineTag(old(cursor)) ==> (outside <==> old(outside) || TextBehind(old(cursor) + 1))
      decreases Left(), 0
    {
      hide CardinalAt, Content, Word64, PointerAt, ItemsEnd, ItemsPointers;
      var tag := ReadUint8();
      if tag == TAG_POSITIVE_SMI || tag == TAG_NEGATIVE_SMI {
        r := DecodeSmi(tag == TAG_NEGATIVE_SMI);
      } else if tag == TAG_NULL {
        r := Some(Null);
      } else if tag == TAG_TRUE {
        r := Some(True);
      } else if tag == TAG_FALSE {
        r := Some(False);
      } else if tag == TAG_STRING || tag == TAG_BYTE_ARRAY {
        r := DecodeExternal(tag == TAG_STRING);
      } else if tag == TAG_STRING + 1 || tag == TAG_BYTE_ARRAY + 1 {
        r := DecodeInline(tag == TAG_STRING + 1);
      } else if tag == TAG_ARRAY {
        r := DecodeArray(w);
      } else if tag == TAG_MAP {
        r := DecodeMap(w);
      } else if tag == TAG_DOUBLE || tag == TAG_LARGE_INTEGER {
        r := DecodeFixed(tag == TAG_DOUBLE);
      } else {
        r := MarkMalformed();
      }
    }

    method DecodeSmi(negative: bool) returns (r: Option<Wire>)
      modifies `cursor
      ensures var (n, next) := CardinalAt(old(cursor));
        var m := if next > size then 0 else n;
        cursor == next > old(cursor) && r == Some(Smi(if negative then -m else m))
    {
      hide CardinalAt;
      var n := ReadCardinal();
      r := Some(Smi(if negative then -(n as int) else n));
    }

    method DecodeFixed(isDouble: bool) returns (r: Option<Wire>)
      requires !malformed
      modifies `cursor, `malformed
      ensures cursor == old(cursor) + 8 && (malformed <==> r == None)
      ensures r == match Word64(old(cursor)) {
        case Some(n) => Some(if isDouble then Double(n) else LargeInteger(n))
        case None => None }
    {
      hide FixedValue;
      var n := ReadFixed(8);
      if n == 0 && Overflown() {
        r := MarkMalformed();
      } else {
        r := Some(if isDouble then Double(n) else LargeInteger(n));
      }
    }

    /** The announced length is believed: memory behind the buffer is read exactly if the
        text is not empty and ends there. */
    method DecodeInline(isString: bool) returns (r: Option<Wire>)
      requires !malformed
      modifies `cursor, `malformed, `outside
      ensures outside <==> old(outside) || TextBehind(old(cursor))
      ensures TextBehind(old(cursor)) ==> Overflown()
      ensures cursor > old(cursor) && (malformed <==> r == None)
      ensures var (length, next) := CardinalAt(old(cursor));
        if next > size then r == None
        else r == Some(Inline(isString, Content(next, length))) && cursor == next + length
    {
      hide CardinalAt;
      var length := ReadCardinal();
      if length == 0 && Overflown() {
        r := MarkMalformed();
        return;
      }
      r := Some(Inline(isString, Content(cursor, length)));
      cursor := cursor + length;
      outside := outside || (length > 0 && Overflown());
    }

    /** Pointers are not accepted in TISON messages.  In IPC messages the table of the decoder
        has to hold them all. */
    method DecodeExternal(isString: bool) returns (r: Option<Wire>)
      requires Going()
      modifies `cursor, `malformed, `fatal, `externals
      ensures cursor > old(cursor) && (malformed || fatal <==> r == None)
      ensures var (length, next) := CardinalAt(old(cursor));
        && (malformed <==> tison || next > size)
        && (fatal <==> !malformed && old(externals) == MAX_EXTERNALS)
        && (r.Some? ==> r.value == External(isString, length, PointerAt(next)) && cursor == next + 8)
      ensures externals == old(externals) + if r.Some? then 1 else 0
    {
      hide CardinalAt, FixedValue;
      var length := ReadCardinal();
      if (length == 0 && Overflown()) || tison {
        r := MarkMalformed();
        return;
      }
      var pointer := ReadFixed(8);
      RegisterExternal();
      r := if fatal then None else Some(External(isString, length, pointer));
    }

    method RegisterExternal()
      requires externals <= MAX_EXTERNALS && !fatal
      modifies `fatal, `externals
      ensures fatal <==> old(externals) == MAX_EXTERNALS
      ensures externals == if fatal then old(externals) else old(externals) + 1
    {
      if externals >= MAX_EXTERNALS {
        fatal := true;
        return;
      }
      externals := externals + 1;
    }

    /** What the tag in front of the cursor is. */
    ghost predicate Behind(tag: byte)
      reads `cursor
    {
      1 <= cursor <= size && memory(cursor - 1) == tag
    }

    method DecodeArray(ghost w: Option<Wire>) returns (r: Option<Wire>)
      requires Going() && Behind(TAG_ARRAY)
      modifies `cursor, `malformed, `fatal, `externals, `outside
      ensures cursor > old(cursor)
      ensures Decoded(old(cursor) - 1, old(externals), r) && Recognized(old(cursor) - 1, old(externals), w, r)
      ensures outside ==> old(outside) || Overflown()
      decreases Left(), 2
    {
      hide CardinalAt, ItemsEnd, ItemsPointers;
      var length := ReadCardinal();
      if length == 0 && Overflown() {
        r := MarkMalformed();
        return;
      }
      var items := DecodeItems(length, if w.Some? && w.value.Array? then Some(w.value.items) else None);
      r := if malformed || fatal then None else Some(Array(items));
    }

    method DecodeMap(ghost w: Option<Wire>) returns (r: Option<Wire>)
      requires Going() && Behind(TAG_MAP)
      modifies `cursor, `malformed, `fatal, `externals, `outside
      ensures cursor > old(cursor)
      ensures Decoded(old(cursor) - 1, old(externals), r) && Recognized(old(cursor) - 1, old(externals), w, r)
      ensures outside ==> old(outside) || Overflown()
      decreases Left(), 2
    {
      hide CardinalAt, ItemsEnd, ItemsPointers;
      var length := ReadCardinal();
      if length == 0 && Overflown() {
        r := MarkMalformed();
        return;
      }
      var items := DecodeItems(length * 2, if w.Some? && w.value.Map? then Some(w.value.items) else None);
      r := if malformed || fatal then None else Some(Map(items));
    }

    /** The elements of an array or map; stops at the first malformed one. */
    method DecodeItems(length: nat, ghost expected: Option<seq<Wire>>) returns (items: seq<Wire>)
      requires Going()
      modifies `cursor, `malformed, `fatal, `externals, `outside
      ensures cursor >= old(cursor) && externals <= MAX_EXTERNALS && (tison ==> !fatal)
      ensures !malformed && !fatal ==>
        && |items| == length && ItemsEnd(old(cursor), items) == Some(cursor)
        && externals == old(externals) + |ItemsPointers(items)|
      ensures expected.Some? && |expected.value| == length && ItemsEnd(old(cursor), expected.value).Some? ==>
        && !malformed && (fatal <==> old(externals) + |ItemsPointers(expected.value)| > MAX_EXTERNALS)
        && (!fatal ==> items == expected.value)
      ensures outside ==> old(outside) || Overflown()
      decreases Left(), 1
    {
      hide EndOf, Pointers;
      ghost var good :=
        expected.Some? && |expected.value| == length && ItemsEnd(old(cursor), expected.value).Some?;
      items := [];
      for i := 0 to length
        invariant cursor >= old(cursor) && Going() && |items| == i
        invariant outside ==> old(outside) || Overflown()
        invariant ItemsEnd(old(cursor), items) == Some(cursor)
        invariant externals == old(externals) + |ItemsPointers(items)|
        invariant good ==>
          && items == expected.value[..i] && ItemsEnd(cursor, expected.value[i..]).Some?
          && externals + |ItemsPointers(expected.value[i..])| == old(externals) + |ItemsPointers(expected.value)|
      {
        if good {
          var rest := expected.value[i..];
          assert rest[0] == expected.value[i] && rest[1..] == expected.value[i + 1..];
        }
        ghost var before := cursor;
        var inner := DecodeAny(if good then Some(expected.value[i]) else None);
        if malformed || fatal {
          return;
        }
        ItemsEndSnoc(old(cursor), items, inner.value);
        ItemsPointersSnoc(items, inner.value);
        items := items + [inner.value];
      }
    }

    // ----- TISON messages -------------------------------------------------------------------

    /** The buffer holds the message, as far as either of them goes. */
    ghost predicate Agrees(message: seq<byte>)
    {
      forall i :: 0 <= i < |message| && i < size ==> memory(i) == message[i]
    }

    lemma AgreesHolds(message: seq<byte>, from: nat, to: nat)
      requires Agrees(message) && from <= to <= |message| && to <= size
      ensures Holds(from, message[from..to])
    {
    }

    /** The buffer starts with the marker and the length of the rest. */
    ghost predicate Headed()
    {
      && 4 <= size && FixedValue(Content(0, 4)) == TISON_MARKER
      && var (length, next) := CardinalAt(4);
      next <= size && length == size - next
    }

    /** The buffer is the marker, the length of the rest, and bytes that spell the value. */
    ghost predicate Spelled(w: Wire)
    {
      Headed() && EndOf(CardinalAt(4).1, w) == Some(size)
    }

    /** Decodes a whole message, exactly if there is one.  A part of an encoded message, or one with
        more behind it, is malformed. */
    method DecodeTison(ghost w: Wire) returns (r: Option<Wire>)
      requires tison && cursor == 0 && !malformed && !fatal && externals == 0 && !outside
      modifies `cursor, `malformed, `fatal, `externals, `outside
      ensures (malformed <==> r == None) && !fatal
      ensures r == Some(w) <==> Spelled(w)
      ensures r.Some? ==> Spelled(r.value)
      ensures outside ==> r == None
      ensures Sound(w, true) && Agrees(Message(w)) ==>
        !outside && if size == |Message(w)| then r == Some(w) else r == None
      ensures Headed() && InlineTag(CardinalAt(4).1) ==> (outside <==> TextBehind(CardinalAt(4).1 + 1))
      ensures !Headed() ==> !outside
    {
      hide EndOf, CardinalAt, FixedValue, TextBehind, Agrees, Sound, Message;
      MessageIsSpelled(w);
      var marker := ReadFixed(4);
      if marker != TISON_MARKER {
        r := MarkMalformed();
        return;
      }
      var payloadSize := ReadCardinal();
      if payloadSize != size - cursor {
        r := MarkMalformed();
        return;
      }
      assert Headed();
      r := DecodeAny(Some(w));
      if malformed {
        return;
      }
      if size - cursor != 0 {
        r := MarkMalformed();
      }
    }

    /** An encoded message is spelled by the buffer if it is all of it, and otherwise has no proper start. */
    lemma MessageIsSpelled(w: Wire)
      ensures tison && Sound(w, true) && Agrees(Message(w)) ==>
        if size == |Message(w)| then Spelled(w) else !Headed()
    {
      hide Holds, Agrees, Sound, Bytes, Cardinal, CardinalAt, Fixed, FixedValue, EndOf, Message;
      var message, p := Message(w), |Bytes(w)|;
      MessageParts(w);
      if tison && Sound(w, true) && Agrees(message) && size >= 4 {
        MarkerHere(w);
        if size < 4 + |Cardinal(p)| {
          CutCardinal(message, p);
          CutOff(4);
        } else {
          AgreesHolds(message, 4, 4 + |Cardinal(p)|);
          HoldsCardinal(4, p);
          if size == |message| {
            AgreesHolds(message, 4 + |Cardinal(p)|, |message|);
            EncodedIsSpelled(4 + |Cardinal(p)|, w);
          }
        }
      }
    }

    lemma MarkerHere(w: Wire)
      requires Agrees(Message(w)) && size >= 4
      ensures FixedValue(Content(0, 4)) == TISON_MARKER
    {
      hide Agrees, Bytes, Cardinal, Fixed, FixedValue, Pow256, Message;
      MessageParts(w);
      Pow256Values();
      AgreesHolds(Message(w), 0, 4);
      ContentIs(0, Fixed(TISON_MARKER, 4));
      FixedRoundTrip(TISON_MARKER, 4);
    }

    /** A buffer that ends inside the length holds continuation bytes up to its end. */
    lemma CutCardinal(message: seq<byte>, p: nat)
      requires Agrees(message) && 4 <= size < 4 + |Cardinal(p)| <= |message|
      requires message[4..4 + |Cardinal(p)|] == Cardinal(p)
      ensures forall i :: 4 <= i < size ==> memory(i) >= 128
    {
      hide Cardinal;
      forall i | 4 <= i < size
        ensures memory(i) >= 128
      {
        assert message[i] == message[4..4 + |Cardinal(p)|][i - 4];
        ContinuationByte(p, i - 4);
      }
    }

    // ----- Releasing a message --------------------------------------------------------------

    /** Walks over a value and frees what it points to.  There is no case for maps: a message with
        one is fatal, any other is released completely. */
    method Deallocate(ghost w: Option<Wire>)
      requires !fatal && !tison
      modifies `cursor, `fatal, `freed
      ensures cursor > old(cursor)
      ensures !fatal ==> old(cursor) < size && 1 <= memory(old(cursor)) <= 13 && memory(old(cursor)) != TAG_MAP
      ensures w.Some? && EndOf(old(cursor), w.value).Some? ==>
        && (fatal <==> !NoMaps(w.value))
        && (!fatal ==> EndOf(old(cursor), w.value) == Some(cursor) && freed == old(freed) + Pointers(w.value))
      decreases Left(), 0
    {
      hide CardinalAt, FixedValue, ItemsEnd, ItemsPointers;
      var tag := ReadUint8();
      if tag == TAG_POSITIVE_SMI || tag == TAG_NEGATIVE_SMI {
        var _ := ReadCardinal();
      } else if tag == TAG_NULL || tag == TAG_TRUE || tag == TAG_FALSE {
      } else if tag == TAG_STRING || tag == TAG_BYTE_ARRAY {
        var _ := ReadCardinal();
        var pointer := ReadFixed(8);
        freed := freed + [pointer];
      } else if tag == TAG_STRING + 1 || tag == TAG_BYTE_ARRAY + 1 {
        var length := ReadCardinal();
        cursor := cursor + length;
      } else if tag == TAG_ARRAY {
        DeallocateArray(w);
      } else if tag == TAG_DOUBLE || tag == TAG_LARGE_INTEGER {
        var _ := ReadFixed(8);
      } else {
        fatal := true;
      }
      if w.Some? && !fatal { assert freed + [] == freed; }
    }

    method DeallocateArray(ghost w: Option<Wire>)
      requires !fatal && !tison && Behind(TAG_ARRAY)
      modifies `cursor, `fatal, `freed
      ensures cursor > old(cursor)
      ensures w.Some? && EndOf(old(cursor) - 1, w.value).Some? ==>
        && (fatal <==> !NoMaps(w.value))
        && (!fatal ==> EndOf(old(cursor) - 1, w.value) == Some(cursor) && freed == old(freed) + Pointers(w.value))
      decreases Left(), 1
    {
      hide CardinalAt;
      ghost var good := w.Some? && EndOf(old(cursor) - 1, w.value).Some?;
      ghost var items := if good then w.value.items else [];
      var length := ReadCardinal();
      ghost var start := cursor;
      for i := 0 to length
        invariant cursor > old(cursor) && !fatal
        invariant good ==>
          && |items| == length && (forall k :: 0 <= k < i ==> NoMaps(items[k]))
          && ItemsEnd(cursor, items[i..]) == ItemsEnd(start, items)
          && freed + ItemsPointers(items[i..]) == old(freed) + ItemsPointers(items)
      {
        ghost var rest := if good then items[i..] else [];
        if good {
          assert rest[0] == items[i] && rest[1..] == items[i + 1..];
          ConcatAssociates(freed, Pointers(rest[0]), ItemsPointers(rest[1..]));
        }
        Deallocate(if good then Some(items[i]) else None);
        if fatal {
          return;
        }
      }
    }
  }

  /** Marker, payload length, payload. */
  ghost function Message(w: Wire): (r: seq<byte>)
  {
    Fixed(TISON_MARKER, 4) + Cardinal(|Bytes(w)|) + Bytes(w)
  }

  lemma MessageParts(w: Wire)
    ensures var m, c := Message(w), |Cardinal(|Bytes(w)|)|;
      && |m| == 4 + c + |Bytes(w)| && m[0..4] == Fixed(TISON_MARKER, 4)
      && m[4..4 + c] == Cardinal(|Bytes(w)|) && m[4 + c..|m|] == Bytes(w)
  {
    hide Fixed, Cardinal, Bytes;
  }

  /** All bytes of a cardinal but the last say that more is to come. */
  lemma {:induction false} ContinuationByte(n: nat, i: nat)
    requires i < |Cardinal(n)| - 1
    ensures Cardinal(n)[i] >= 128
  {
    if i == 0 {
    } else {
      ContinuationByte(n / 128, i - 1);
    }
  }

  /** The bytes of a value of each kind. */
  lemma ValueBytes()
    ensures Bytes(Smi(300)) == [1, 172, 2] && Bytes(Smi(-1)) == [2, 1]
    ensures Bytes(Null) == [3] && Bytes(True) == [4] && Bytes(False) == [5]
    ensures Bytes(Double(258)) == [7, 2, 1, 0, 0, 0, 0, 0, 0]
    ensures Bytes(LargeInteger(258)) == [8, 2, 1, 0, 0, 0, 0, 0, 0]
  {
    hide Cardinal, Fixed, ItemsBytes;
    SmallCardinals();
    FixedBytes();
  }

  lemma PointerBytes()
    ensures Bytes(External(true, 1, 258)) == [10, 1, 2, 1, 0, 0, 0, 0, 0, 0]
    ensures Bytes(External(false, 1, 258)) == [12, 1, 2, 1, 0, 0, 0, 0, 0, 0]
  {
    hide Cardinal, Fixed, ItemsBytes;
    SmallCardinals();
    FixedBytes();
  }

  lemma MessageBytes()
    ensures Bytes(Inline(true, [104, 105])) == [11, 2, 104, 105] && Bytes(Inline(false, [7])) == [13, 1, 7]
    ensures Bytes(Map([Null, True])) == [9, 1, 3, 4]
    ensures Message(Array([Null, True])) == [0xf7, 0x01, 0x89, 0xa6, 4, 6, 2, 3, 4]
  {
    hide Cardinal, Fixed, ItemsBytes;
    SmallCardinals();
    FixedBytes();
    TwoValues();
  }

  lemma SmallCardinals()
    ensures Cardinal(1) == [1] && Cardinal(2) == [2] && Cardinal(4) == [4] && Cardinal(300) == [172, 2]
  {
    assert Cardinal(300) == [172] + Cardinal(2);
  }

  lemma TwoValues()
    ensures ItemsBytes([Null, True]) == [3, 4]
  {
    assert [Null, True][1..] == [True] && [True][1..] == [];
    assert ItemsBytes([True]) == [4] + [];
  }

  lemma FixedBytes()
    ensures Fixed(258, 8) == [2, 1, 0, 0, 0, 0, 0, 0]
    ensures Fixed(TISON_MARKER, 4) == [0xf7, 0x01, 0x89, 0xa6]
  {
    assert Fixed(0, 2) == [0, 0];
    assert Fixed(0, 4) == [0, 0] + Fixed(0, 2);
    assert Fixed(0, 6) == [0, 0] + Fixed(0, 4);
    assert Fixed(1, 7) == [1] + Fixed(0, 6);
    assert Fixed(0xa6, 1) == [0xa6];
    assert Fixed(0xa689, 2) == [0x89] + Fixed(0xa6, 1);
    assert Fixed(0xa68901, 3) == [0x01] + Fixed(0xa689, 2);
  }

  /** The marker, a payload of two bytes, and a string of five bytes that are not there. */
  const SHORT_MESSAGE: seq<byte> := [0xf7, 0x01, 0x89, 0xa6, 2, 11, 5]

  /** A buffer with such a message is malformed, but its text is read behind the end first. */
  method TextBehindBuffer(memory: nat -> byte) returns (d: MessageDecoder, r: Option<Wire>)
    requires forall i :: 0 <= i < 7 ==> memory(i) == SHORT_MESSAGE[i]
    ensures d.memory == memory && d.size == 7 && d.outside && r == None
  {
    d := new MessageDecoder(memory, 7, true);
    d.CardinalHere(4);
    d.CardinalHere(6);
    assert d.Content(0, 4) == [0xf7, 0x01, 0x89, 0xa6];
    MarkerBytes();
    r := d.DecodeTison(Null);
  }

  lemma MarkerBytes()
    ensures FixedValue([0xf7, 0x01, 0x89, 0xa6]) == TISON_MARKER
  {
    assert FixedValue([0xa6]) == 0xa6;
    assert [0x89, 0xa6][1..] == [0xa6] && [0x01, 0x89, 0xa6][1..] == [0x89, 0xa6];
    assert [0xf7, 0x01, 0x89, 0xa6][1..] == [0x01, 0x89, 0xa6];
    assert FixedValue([0x89, 0xa6]) == 0xa689;
    assert FixedValue([0x01, 0x89, 0xa6]) == 0xa68901;
  }

  function FirstByte(v: nat): byte
  {
    if v >= 128 then v % 128 + 128 else v
  }

  function Shifted(n: nat, shift: nat): nat
  {
    n * Pow2(shift)
  }

  lemma NotShifted(n: nat)
    ensures Shifted(n, 0) == n
  {
  }

  lemma CardinalStep(digit: nat, rest: nat, shift: nat)
    ensures Shifted(digit + 128 * rest, shift) == Shifted(digit, shift) + Shifted(rest, shift + 7)
  {
    Pow2Add(shift, 7);
    assert Pow2(7) == 128;
    var p := Pow2(shift);
    assert (digit + 128 * rest) * p == digit * p + (128 * rest) * p;
    assert (128 * rest) * p == rest * (p * 128);
  }
}
