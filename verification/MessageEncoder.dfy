/** Writing messages: one pass without a buffer finds the size, a second one fills it. */
module MessageEncoder {
  import opened Options
  import opened Words
  import opened Encoding
  import opened Received
  import Wire
  import Decoder = MessageDecoder

  const INT_MAX: nat := 0x7fff_ffff

  /** Who owns which memory: blocks copied for the message, blocks the allocator still
      has, and the addresses of external byte arrays that were put into the message. */
  datatype Ledger = Ledger(copied: seq<nat>, supply: seq<nat>, handed: seq<nat>)

  /** No block is lost and, when the message is written, its pointers are just the newly
      copied blocks and the newly handed over addresses. */
  ghost predicate Settled(before: Ledger, after: Ledger, pointers: seq<nat>, sizing: bool)
  {
    && |before.copied| <= |after.copied|
    && after.copied + after.supply == before.copied + before.supply
    && (!sizing ==>
      multiset(after.copied) + multiset(after.handed)
      == multiset(before.copied) + multiset(before.handed) + multiset(pointers))
  }

  /** Eight blocks are held, and the next one is neither held nor left. */
  ghost predicate Lost(all: seq<nat>, after: Ledger)
  {
    && |all| > Wire.MAX_EXTERNALS && |after.copied| == Wire.MAX_EXTERNALS
    && after.copied + [all[Wire.MAX_EXTERNALS]] + after.supply == all
  }

  /** A refused encoding loses at most one block.  If it is `fit`, so that only a lack of memory or of
      places for blocks can be the reason, it loses one exactly if there are more than eight. */
  ghost predicate Refused(before: Ledger, after: Ledger, fit: bool)
  {
    var all := before.copied + before.supply;
    && |before.copied| <= |after.copied|
    && (after.copied + after.supply == all || Lost(all, after))
    && (fit ==> if |all| > Wire.MAX_EXTERNALS then Lost(all, after) else after.copied + after.supply == all)
  }

  /** There are free places for the external byte arrays that are handed over. */
  ghost predicate Placed(need: Need, ledger: Ledger)
  {
    |ledger.handed| + |need.handed| <= Wire.MAX_EXTERNALS
  }

  /** There is memory for what a message needs, and there are free places in the tables. */
  ghost predicate Affordable(need: Need, ledger: Ledger, sizing: bool)
  {
    && Placed(need, ledger)
    && (!sizing ==> |ledger.copied| + need.copies <= Wire.MAX_EXTERNALS && need.copies <= |ledger.supply|)
  }

  ghost predicate Spent(need: Need, before: Ledger, after: Ledger, sizing: bool)
  {
    && after.handed == before.handed + need.handed
    && |after.copied| == |before.copied| + (if sizing then 0 else need.copies)
    && |after.copied| + |after.supply| == |before.copied| + |before.supply|
  }

  lemma SpentTwice(first: Need, second: Need, a: Ledger, b: Ledger, c: Ledger, sizing: bool)
    requires Spent(first, a, b, sizing) && Spent(second, b, c, sizing)
    ensures Spent(Both(first, second), a, c, sizing)
  {
  }

  /** What is affordable after something was spent. */
  lemma AffordableNext(first: Need, second: Need, before: Ledger, after: Ledger, sizing: bool)
    requires Spent(first, before, after, sizing)
    requires Affordable(Need([], 0), after, sizing)
    ensures Affordable(Both(first, second), before, sizing) <==> Affordable(second, after, sizing)
    ensures Placed(Both(first, second), before) <==> Placed(second, after)
  {
  }

  ghost function PairNeed(slots: seq<Value>, i: nat, spent: Need, tison: bool): Need
    requires i + 1 < |slots| && Valid(slots[i]) && Valid(slots[i + 1])
  {
    Both(Both(spent, NeedOf(slots[i], tison)), NeedOf(slots[i + 1], tison))
  }

  lemma PairNeedsBoth(spent: Need, first: Need, second: Need, ledger: Ledger, sizing: bool)
    ensures Affordable(Both(Both(spent, first), second), ledger, sizing) ==> Affordable(Both(spent, first), ledger, sizing)
    ensures Placed(Both(Both(spent, first), second), ledger) ==> Placed(Both(spent, first), ledger)
  {
  }

  lemma NeedsMore(first: Need, second: Need, rest: Need, ledger: Ledger, sizing: bool)
    ensures Both(first, Both(second, rest)) == Both(Both(first, second), rest)
    ensures Affordable(Both(first, Both(second, rest)), ledger, sizing) ==> Affordable(Both(first, second), ledger, sizing)
    ensures Placed(Both(first, Both(second, rest)), ledger) ==> Placed(Both(first, second), ledger)
  {
  }

  lemma SettledTwice(a: Ledger, b: Ledger, c: Ledger, first: seq<nat>, second: seq<nat>, sizing: bool)
    requires Settled(a, b, first, sizing) && Settled(b, c, second, sizing)
    ensures Settled(a, c, first + second, sizing)
  {
  }

  class MessageEncoder {
    const buffer: array?<byte>  // null when encoding for size
    const tison: bool
    var cursor: nat
    var nesting: nat
    var payloadSize: nat
    var supply: seq<nat>
    var copied: seq<nat>
    var externals: seq<Option<nat>>
    ghost var written: seq<byte>
    ghost var handed: seq<nat>

    constructor (buffer: array?<byte>, tison: bool, payloadSize: nat, supply: seq<nat>)
      requires forall i :: 0 <= i < |supply| ==> supply[i] < Wire.U64
      ensures this.buffer == buffer && this.tison == tison && this.payloadSize == payloadSize
      ensures Output() && Tables() && nesting == 0 && written == []
      ensures this.supply == supply && copied == [] && handed == []
    {
      this.buffer, this.tison, this.payloadSize, this.supply := buffer, tison, payloadSize, supply;
      cursor, nesting, copied, externals, written, handed := 0, 0, [], [], [], [];
    }

    ghost predicate Output()
      reads `cursor, `written, buffer
    {
      && |written| == cursor
      && (buffer != null ==> cursor <= buffer.Length && buffer[..cursor] == written)
    }

    /** The external byte arrays are remembered by the pass that finds the size only. */
    ghost predicate Tables()
      reads `copied, `externals, `handed, `supply
    {
      && |copied| <= Wire.MAX_EXTERNALS && |externals| == |handed| <= Wire.MAX_EXTERNALS
      && (tison ==> copied == [] && handed == [])
      && (forall i :: 0 <= i < |supply| ==> supply[i] < Wire.U64)
      && (forall i :: 0 <= i < |externals| ==>
        externals[i] == if buffer == null then Some(handed[i]) else None)
    }

    ghost predicate Room(n: nat)
      reads `written
    {
      buffer != null ==> |written| + n <= buffer.Length
    }

    ghost function Owned(): Ledger
      reads `copied, `supply, `handed
    {
      Ledger(copied, supply, handed)
    }

    /** The value is in the output, and all memory is accounted for. */
    ghost predicate Succeeded(before: seq<byte>, ledger: Ledger, w: Wire.Wire)
      reads `written, `copied, `supply, `handed
    {
      && written == before + Wire.Bytes(w)
      && Settled(ledger, Owned(), Wire.Pointers(w), buffer == null)
    }

    ghost predicate Failed(before: seq<byte>, ledger: Ledger, size: nat, fit: bool)
      reads `written, `copied, `supply, `handed
    {
      && before <= written && |written| <= |before| + size
      && Refused(ledger, Owned(), fit)
    }

    /** As `Succeeded`, with a head and the first items of an array or a map. */
    ghost predicate Progress(before: seq<byte>, ledger: Ledger, head: seq<byte>, done: seq<Wire.Wire>, spent: Need)
      reads `written, `copied, `supply, `handed
    {
      && written == before + (head + Wire.ItemsBytes(done))
      && Spent(spent, ledger, Owned(), buffer == null)
      && Settled(ledger, Owned(), Wire.ItemsPointers(done), buffer == null)
    }

    // ----- Bytes ------------------------------------------------------------------------------

    method WriteUint8(b: byte)
      requires Output() && Room(1)
      modifies `cursor, `written, buffer
      ensures Output() && written == old(written) + [b]
    {
      if buffer != null {
        buffer[cursor] := b;
      }
      cursor, written := cursor + 1, written + [b];
    }

    /** Also what writes numbers of a fixed width: they are copied as they lie in memory. */
    method WriteBytes(bytes: seq<byte>)
      requires Output() && Room(|bytes|)
      modifies `cursor, `written, buffer
      ensures Output() && written == old(written) + bytes
    {
      for i := 0 to |bytes|
        invariant Output() && Room(|bytes| - i) && written == old(written) + bytes[..i]
      {
        WriteUint8(bytes[i]);
        assert bytes[..i + 1] == bytes[..i] + [bytes[i]];
      }
      assert bytes[..|bytes|] == bytes;
    }

    method WriteCardinal(n: nat)
      requires Output() && Room(|Wire.Cardinal(n)|)
      modifies `cursor, `written, buffer
      ensures Output() && written == old(written) + Wire.Cardinal(n)
    {
      var value := n;
      while value >= 128
        invariant Output() && Room(|Wire.Cardinal(value)|)
        invariant written + Wire.Cardinal(value) == old(written) + Wire.Cardinal(n)
      {
        ConcatAssociates(written, [(value % 128 + 128) as byte], Wire.Cardinal(value / 128));
        WriteUint8(value % 128 + 128);
        value := value / 128;
      }
      WriteUint8(value);
    }

    method WriteHead(tag: byte, n: nat)
      requires Output() && Room(1 + |Wire.Cardinal(n)|)
      modifies `cursor, `written, buffer
      ensures Output() && written == old(written) + ([tag] + Wire.Cardinal(n))
    {
      hide Output, Wire.Cardinal;
      ConcatAssociates(written, [tag], Wire.Cardinal(n));
      WriteUint8(tag);
      WriteCardinal(n);
    }

    // ----- Texts ------------------------------------------------------------------------------

    method WriteInline(isString: bool, content: seq<byte>)
      requires Output() && Room(1 + |Wire.Cardinal(|content|)| + |content|)
      modifies `cursor, `written, buffer
      ensures Output() && written == old(written) + Wire.Bytes(Wire.Inline(isString, content))
    {
      hide Output, Wire.Cardinal;
      ghost var head := [Wire.TextTag(isString) + 1] + Wire.Cardinal(|content|);
      ConcatAssociates([(Wire.TextTag(isString) + 1) as byte], Wire.Cardinal(|content|), content);
      ConcatAssociates(written, head, content);
      WriteHead(Wire.TextTag(isString) + 1, |content|);
      WriteBytes(content);
    }

    method WritePointer(isString: bool, length: nat, pointer: nat)
      requires Output() && Room(1 + |Wire.Cardinal(length)| + 8)
      modifies `cursor, `written, buffer
      ensures Output() && written == old(written) + Wire.Bytes(Wire.External(isString, length, pointer))
    {
      hide Output, Wire.Cardinal, Wire.Fixed;
      ghost var head := [Wire.TextTag(isString)] + Wire.Cardinal(length);
      ConcatAssociates([Wire.TextTag(isString)], Wire.Cardinal(length), Wire.Fixed(pointer, 8));
      ConcatAssociates(written, head, Wire.Fixed(pointer, 8));
      WriteHead(Wire.TextTag(isString), length);
      WriteBytes(Wire.Fixed(pointer, 8));
    }

    /** Take a block from the allocator; the content goes there, out of sight of the message. */
    method Allocate() returns (data: Option<nat>)
      requires Tables() && !tison
      modifies `copied, `supply
      ensures Tables()
      ensures data.Some? ==> data.value < Wire.U64 && Settled(old(Owned()), Owned(), [data.value], false)
      ensures data.None? ==> Refused(old(Owned()), Owned(), true)
      ensures data.Some? <==> |old(copied)| < Wire.MAX_EXTERNALS && old(supply) != []
      ensures data.Some? ==> |copied| == |old(copied)| + 1 && |supply| == |old(supply)| - 1
    {
      if supply == [] {
        return None;
      }
      var block := supply[0];
      supply := supply[1..];
      if |copied| >= Wire.MAX_EXTERNALS {
        return None;
      }
      copied := copied + [block];
      return Some(block);
    }

    method EncodeCopy(isString: bool, content: seq<byte>) returns (ok: bool, ghost w: Wire.Wire)
      requires Output() && Tables() && Room(TextSize(|content|, tison))
      modifies `cursor, `written, buffer, `copied, `supply
      ensures Output() && Tables()
      ensures ok ==>
        && RepresentsText(isString, content, w, tison) && written == old(written) + Wire.Bytes(w)
        && Settled(old(Owned()), Owned(), Wire.Pointers(w), buffer == null)
        && Spent(TextNeed(|content|, tison), old(Owned()), Owned(), buffer == null)
      ensures !ok ==> written == old(written) && Refused(old(Owned()), Owned(), true)
      ensures ok <==> Affordable(TextNeed(|content|, tison), old(Owned()), buffer == null)
    {
      hide Output, Wire.Bytes, Wire.Cardinal;
      if tison || |content| <= MAX_INLINED_SIZE {
        w := Wire.Inline(isString, content);
        WriteInline(isString, content);
        return true, w;
      }
      var data := 0;
      if buffer != null {
        var block := Allocate();
        if block.None? {
          return false, Wire.Null;
        }
        data := block.value;
      }
      w := Wire.External(isString, |content|, data);
      WritePointer(isString, |content|, data);
      return true, w;
    }

    // ----- Objects ----------------------------------------------------------------------------

    method EncodeByteArray(content: seq<byte>, address: nat, raw: bool) returns (ok: bool, ghost w: Wire.Wire)
      requires Output() && Tables() && address < Wire.U64
      requires Room(LeafSize(ExternalBytes(content, address, raw), tison))
      modifies `cursor, `written, buffer, `copied, `supply, `externals, `handed
      ensures Output() && Tables()
      ensures ok ==>
        && RepresentsLeaf(ExternalBytes(content, address, raw), w, tison) && written == old(written) + Wire.Bytes(w)
        && Settled(old(Owned()), Owned(), Wire.Pointers(w), buffer == null)
        && Spent(LeafNeed(ExternalBytes(content, address, raw), tison), old(Owned()), Owned(), buffer == null)
      ensures !ok ==>
        && old(written) <= written && |written| <= |old(written)| + LeafSize(ExternalBytes(content, address, raw), tison)
        && Refused(old(Owned()), Owned(),
                   (raw || !tison) && Placed(LeafNeed(ExternalBytes(content, address, raw), tison), old(Owned())))
      ensures ok <==>
        (raw || !tison) && Affordable(LeafNeed(ExternalBytes(content, address, raw), tison), old(Owned()), buffer == null)
    {
      hide Output, Wire.Bytes, Wire.Cardinal;
      if tison {
        if !raw {
          return false, Wire.Null;
        }
        ok, w := EncodeCopy(false, content);
        return;
      }
      w := Wire.External(false, |content|, address);
      assert |Wire.Bytes(w)| == 9 + |Wire.Cardinal(|content|)| by {
        LeafSound(ExternalBytes(content, address, raw), w, tison);
      }
      WritePointer(false, |content|, address);
      if |externals| >= Wire.MAX_EXTERNALS {
        return false, w;
      }
      externals := externals + [if buffer == null then Some(address) else None];
      handed := handed + [address];
      return true, w;
    }

    method EncodeNumber(tag: byte, bits: nat)
      requires Output() && Room(9)
      modifies `cursor, `written, buffer
      ensures Output() && written == old(written) + ([tag] + Wire.Fixed(bits, 8))
    {
      hide Output, Wire.Fixed;
      ConcatAssociates(written, [tag], Wire.Fixed(bits, 8));
      WriteUint8(tag);
      WriteBytes(Wire.Fixed(bits, 8));
    }

    method EncodeScalar(v: Value) returns (ok: bool, ghost w: Wire.Wire)
      requires Output() && Valid(v) && Room(LeafSize(v, tison))
      requires !v.Elements? && !v.Map? && !v.Text? && !v.ExternalBytes?
      modifies `cursor, `written, buffer
      ensures Output()
      ensures ok ==> RepresentsLeaf(v, w, tison) && written == old(written) + Wire.Bytes(w) && Wire.Pointers(w) == []
      ensures !ok ==> written == old(written)
      ensures ok <==> !v.Tombstone? && !v.Unsupported?
    {
      hide Output, Wire.Cardinal, Wire.Fixed;
      ok, w := true, Wire.Null;
      match v {
        case Smi(n) =>
          if n >= 0 {
            WriteHead(Wire.TAG_POSITIVE_SMI, n);
          } else {
            WriteHead(Wire.TAG_NEGATIVE_SMI, -n);
          }
          w := Wire.Smi(n);
        case Null =>
          WriteUint8(Wire.TAG_NULL);
        case True =>
          WriteUint8(Wire.TAG_TRUE);
          w := Wire.True;
        case False =>
          WriteUint8(Wire.TAG_FALSE);
          w := Wire.False;
        case Double(bits) =>
          EncodeNumber(Wire.TAG_DOUBLE, bits);
          w := Wire.Double(bits);
        case LargeInteger(bits) =>
          EncodeNumber(Wire.TAG_LARGE_INTEGER, bits);
          w := Wire.LargeInteger(bits);
        case _ =>
          ok := false;
      }
    }

    method EncodeLeaf(v: Value) returns (ok: bool, ghost w: Wire.Wire)
      requires Output() && Tables() && Valid(v) && Room(LeafSize(v, tison)) && !v.Elements? && !v.Map?
      modifies `cursor, `written, buffer, `copied, `supply, `externals, `handed
      ensures Output() && Tables()
      ensures ok ==> RepresentsLeaf(v, w, tison) && Succeeded(old(written), old(Owned()), w)
      ensures ok ==> Spent(LeafNeed(v, tison), old(Owned()), Owned(), buffer == null)
      ensures !ok ==>
        Failed(old(written), old(Owned()), LeafSize(v, tison),
               EncodableLeaf(v, tison) && Placed(LeafNeed(v, tison), old(Owned())))
      ensures ok <==>
        && EncodableLeaf(v, tison) && Affordable(LeafNeed(v, tison), old(Owned()), buffer == null)
    {
      hide Output, Tables, Wire.Bytes, Wire.Pointers, Wire.Cardinal;
      if v.Text? {
        if !Readable(v) {
          return false, Wire.Null;
        }
        ok, w := EncodeCopy(v.isString, Content(v));
      } else if v.ExternalBytes? {
        ok, w := EncodeByteArray(v.content, v.address, v.raw);
      } else {
        NothingMore();
        ok, w := EncodeScalar(v);
      }
    }

    /** One object, nested one level deeper than what it is in. */
    method EncodeAny(v: Value) returns (ok: bool, ghost w: Wire.Wire)
      requires Output() && Tables() && Valid(v) && Room(SizeOf(v, tison))
      modifies `cursor, `nesting, `written, buffer, `copied, `supply, `externals, `handed
      ensures Output() && Tables() && nesting == old(nesting)
      ensures ok ==> Represents(v, w, nesting, tison) && Succeeded(old(written), old(Owned()), w)
      ensures ok ==> Spent(NeedOf(v, tison), old(Owned()), Owned(), buffer == null)
      ensures !ok ==>
        Failed(old(written), old(Owned()), SizeOf(v, tison),
               Encodable(v, nesting, tison) && Placed(NeedOf(v, tison), old(Owned())))
      ensures ok <==> Encodable(v, nesting, tison) && Affordable(NeedOf(v, tison), old(Owned()), buffer == null)
      decreases v, 3
    {
      hide *;
      if nesting + 1 > MAX_NESTING {
        TooDeep(v);
        return false, Wire.Null;
      }
      nesting := nesting + 1;
      if v.Elements? {
        ElementsMeaning(v, nesting - 1, tison);
        ok, w := EncodeArray(v.backing, v.start, v.end);
      } else if v.Map? {
        MapMeaning(v, nesting - 1, tison);
        ok, w := EncodeMap(v.size, v.slots);
      } else {
        LeafMeaning(v, nesting - 1, tison);
        ok, w := EncodeLeaf(v);
      }
      nesting := nesting - 1;
    }

    lemma TooDeep(v: Value)
      requires Valid(v) && nesting >= MAX_NESTING
      ensures !Encodable(v, nesting, tison) && Failed(written, Owned(), SizeOf(v, tison), false)
    {
    }

    /** An object as the next item of an array or a map. */
    method EncodeItem(
      v: Value, ghost before: seq<byte>, ghost ledger: Ledger, ghost head: seq<byte>, ghost done: seq<Wire.Wire>,
      ghost spent: Need, ghost size: nat)
      returns (ok: bool, ghost w: Wire.Wire)
      requires Output() && Tables() && Valid(v) && Room(SizeOf(v, tison)) && Progress(before, ledger, head, done, spent)
      requires |written| + SizeOf(v, tison) <= |before| + size
      modifies `cursor, `nesting, `written, buffer, `copied, `supply, `externals, `handed
      ensures Output() && Tables() && nesting == old(nesting)
      ensures ok ==>
        && Represents(v, w, nesting, tison) && Progress(before, ledger, head, done + [w], Both(spent, NeedOf(v, tison)))
        && |written| == |old(written)| + SizeOf(v, tison)
      ensures !ok ==>
        Failed(before, ledger, size, Encodable(v, nesting, tison) && Placed(Both(spent, NeedOf(v, tison)), ledger))
      ensures ok <==> Encodable(v, nesting, tison) && Affordable(Both(spent, NeedOf(v, tison)), ledger, buffer == null)
      decreases v, 4
    {
      hide Output, Tables, Represents, Encodable, Valid, SizeOf, NeedOf, Spent, Wire.Bytes, Wire.Pointers, Wire.ItemsBytes,
        Wire.ItemsPointers;
      ghost var middle := Owned();
      NothingMore();
      AffordableNext(spent, NeedOf(v, tison), ledger, middle, buffer == null);
      ok, w := EncodeAny(v);
      if ok {
        RepresentsSound(v, w, nesting, tison);
        Wire.ItemsBytesSnoc(done, w);
        Wire.ItemsPointersSnoc(done, w);
        ConcatAssociates(head, Wire.ItemsBytes(done), Wire.Bytes(w));
        ConcatAssociates(before, head + Wire.ItemsBytes(done), Wire.Bytes(w));
        SettledTwice(ledger, middle, Owned(), Wire.ItemsPointers(done), Wire.Pointers(w), buffer == null);
        SpentTwice(spent, NeedOf(v, tison), ledger, middle, Owned(), buffer == null);
      }
    }

    lemma StillFailed(before: seq<byte>, ledger: Ledger, size: nat, fit: bool, fitter: bool)
      requires Failed(before, ledger, size, fit) && (fitter ==> fit)
      ensures Failed(before, ledger, size, fitter)
    {
    }

    lemma NothingMore()
      requires Tables()
      ensures Affordable(Need([], 0), Owned(), buffer == null)
    {
    }

    method EncodeArray(backing: seq<Value>, start: nat, end: nat) returns (ok: bool, ghost w: Wire.Wire)
      requires Output() && Tables() && start <= end <= |backing| && AllValid(backing)
      requires Room(1 + |Wire.Cardinal(end - start)| + SizeRange(backing, start, end, tison))
      modifies `cursor, `nesting, `written, buffer, `copied, `supply, `externals, `handed
      ensures Output() && Tables() && nesting == old(nesting)
      ensures ok ==>
        && w.Array? && RepresentsRange(backing, start, end, w.items, nesting, tison)
        && Succeeded(old(written), old(Owned()), w)
        && Spent(NeedRange(backing, start, end, tison), old(Owned()), Owned(), buffer == null)
      ensures !ok ==>
        Failed(old(written), old(Owned()), 1 + |Wire.Cardinal(end - start)| + SizeRange(backing, start, end, tison),
               && EncodableRange(backing, start, end, nesting, tison)
               && Placed(NeedRange(backing, start, end, tison), old(Owned())))
      ensures ok <==>
        && EncodableRange(backing, start, end, nesting, tison)
        && Affordable(NeedRange(backing, start, end, tison), old(Owned()), buffer == null)
      decreases backing, 5
    {
      hide Output, Tables, Owned, Progress, Succeeded, Failed, Valid, AllValid, Represents, RepresentsRange, RangeContinues,
        Encodable, EncodableRange, SizeOf, SizeRange, NeedOf, NeedRange, Both, Spent, Affordable, Placed, Wire.Cardinal;
      ghost var before, ledger := written, Owned();
      ghost var head := [Wire.TAG_ARRAY] + Wire.Cardinal(end - start);
      ghost var size := 1 + |Wire.Cardinal(end - start)| + SizeRange(backing, start, end, tison);
      WriteHead(Wire.TAG_ARRAY, end - start);
      ghost var done: seq<Wire.Wire>, spent := [], Need([], 0);
      NothingDone(before, ledger, head, NeedRange(backing, start, end, tison));
      RangeStarts(backing, start, end, nesting, tison);
      for i := start to end
        invariant Output() && Tables() && nesting == old(nesting)
        invariant Progress(before, ledger, head, done, spent)
        invariant RangeContinues(backing, start, i, end, done, nesting, tison)
        invariant |written| + SizeRange(backing, i, end, tison) == |before| + size
        invariant Both(spent, NeedRange(backing, i, end, tison)) == NeedRange(backing, start, end, tison)
        invariant EncodableRange(backing, i, end, nesting, tison) <==> EncodableRange(backing, start, end, nesting, tison)
      {
        RangeUnfolds(backing, i, end, nesting, tison);
        NeedsMore(spent, NeedOf(backing[i], tison), NeedRange(backing, i + 1, end, tison), ledger, buffer == null);
        ghost var item;
        ok, item := EncodeItem(backing[i], before, ledger, head, done, spent, size);
        if !ok {
          StillFailed(before, ledger, size, Encodable(backing[i], nesting, tison)
                      && Placed(Both(spent, NeedOf(backing[i], tison)), ledger),
                      EncodableRange(backing, start, end, nesting, tison)
                      && Placed(NeedRange(backing, start, end, tison), ledger));
          return false, item;
        }
        RangeStep(backing, start, i, end, done, item, nesting, tison);
        done, spent := done + [item], Both(spent, NeedOf(backing[i], tison));
      }
      RangeUnfolds(backing, end, end, nesting, tison);
      Afforded(before, ledger, head, done, spent);
      RangeEnds(backing, start, end, done, nesting, tison);
      RangeSound(backing, start, end, done, nesting, tison);
      w := Wire.Array(done);
      AllDone(before, ledger, head, w, spent);
      ok := true;
    }

    lemma NothingDone(before: seq<byte>, ledger: Ledger, head: seq<byte>, need: Need)
      requires written == before + head && ledger == Owned()
      ensures Progress(before, ledger, head, [], Need([], 0)) && Both(Need([], 0), need) == need
    {
      assert head + [] == head;
      assert forall m: multiset<nat> :: m + multiset([]) == m;
    }

    lemma Afforded(before: seq<byte>, ledger: Ledger, head: seq<byte>, done: seq<Wire.Wire>, spent: Need)
      requires Tables() && Progress(before, ledger, head, done, spent)
      ensures Spent(spent, ledger, Owned(), buffer == null) && Affordable(spent, ledger, buffer == null)
      ensures Both(spent, Need([], 0)) == spent
    {
      hide Settled, Wire.ItemsBytes, Wire.ItemsPointers;
    }

    lemma AllDone(before: seq<byte>, ledger: Ledger, head: seq<byte>, w: Wire.Wire, spent: Need)
      requires w.Array? || w.Map?
      requires Progress(before, ledger, head, w.items, spent)
      requires w.Array? ==> head == [Wire.TAG_ARRAY] + Wire.Cardinal(|w.items|)
      requires w.Map? ==> head == [Wire.TAG_MAP] + Wire.Cardinal(|w.items| / 2)
      ensures Succeeded(before, ledger, w)
    {
      hide Settled, Spent, Wire.Cardinal, Wire.ItemsBytes, Wire.ItemsPointers;
      ConcatAssociates([Wire.Tag(w)], Wire.Cardinal(if w.Array? then |w.items| else |w.items| / 2), Wire.ItemsBytes(w.items));
    }

    /** A key and its value. */
    method EncodePair(
      slots: seq<Value>, i: nat, ghost before: seq<byte>, ghost ledger: Ledger, ghost head: seq<byte>,
      ghost done: seq<Wire.Wire>, ghost spent: Need, ghost size: nat)
      returns (ok: bool, ghost key: Wire.Wire, ghost value: Wire.Wire)
      requires Output() && Tables() && i + 1 < |slots| && Valid(slots[i]) && Valid(slots[i + 1])
      requires Room(SizeOf(slots[i], tison) + SizeOf(slots[i + 1], tison)) && Progress(before, ledger, head, done, spent)
      requires |written| + SizeOf(slots[i], tison) + SizeOf(slots[i + 1], tison) <= |before| + size
      modifies `cursor, `nesting, `written, buffer, `copied, `supply, `externals, `handed
      ensures Output() && Tables() && nesting == old(nesting)
      ensures ok ==>
        && Represents(slots[i], key, nesting, tison) && Represents(slots[i + 1], value, nesting, tison)
        && Progress(before, ledger, head, done + [key] + [value], PairNeed(slots, i, spent, tison))
        && |written| == |old(written)| + SizeOf(slots[i], tison) + SizeOf(slots[i + 1], tison)
      ensures !ok ==>
        Failed(before, ledger, size,
               && Encodable(slots[i], nesting, tison) && Encodable(slots[i + 1], nesting, tison)
               && Placed(PairNeed(slots, i, spent, tison), ledger))
      ensures ok <==>
        && Encodable(slots[i], nesting, tison) && Encodable(slots[i + 1], nesting, tison)
        && Affordable(PairNeed(slots, i, spent, tison), ledger, buffer == null)
      decreases slots, 4
    {
      hide Output, Tables, Owned, Progress, Failed, Valid, Represents, Encodable, SizeOf, NeedOf, Both, Affordable, Placed;
      ghost var first, second := NeedOf(slots[i], tison), NeedOf(slots[i + 1], tison);
      PairNeedsBoth(spent, first, second, ledger, buffer == null);
      ok, key := EncodeItem(slots[i], before, ledger, head, done, spent, size);
      value := key;
      if !ok {
        StillFailed(before, ledger, size, Encodable(slots[i], nesting, tison) && Placed(Both(spent, first), ledger),
                    Encodable(slots[i], nesting, tison) && Encodable(slots[i + 1], nesting, tison)
                    && Placed(PairNeed(slots, i, spent, tison), ledger));
      } else {
        ok, value := EncodeItem(slots[i + 1], before, ledger, head, done + [key], Both(spent, first), size);
      }
    }

    method EncodeMap(size: nat, slots: seq<Value>) returns (ok: bool, ghost w: Wire.Wire)
      requires Output() && Tables() && |slots| % 2 == 0 && size <= Keys(slots, 0) && AllValid(slots)
      requires Room(1 + |Wire.Cardinal(size)| + SizePairs(slots, 0, size, tison))
      modifies `cursor, `nesting, `written, buffer, `copied, `supply, `externals, `handed
      ensures Output() && Tables() && nesting == old(nesting)
      ensures ok ==>
        && w.Map? && RepresentsPairs(slots, 0, size, w.items, nesting, tison)
        && Succeeded(old(written), old(Owned()), w)
        && Spent(NeedPairs(slots, 0, size, tison), old(Owned()), Owned(), buffer == null)
      ensures !ok ==>
        Failed(old(written), old(Owned()), 1 + |Wire.Cardinal(size)| + SizePairs(slots, 0, size, tison),
               && EncodablePairs(slots, 0, size, nesting, tison)
               && Placed(NeedPairs(slots, 0, size, tison), old(Owned())))
      ensures ok <==>
        && EncodablePairs(slots, 0, size, nesting, tison)
        && Affordable(NeedPairs(slots, 0, size, tison), old(Owned()), buffer == null)
      decreases slots, 5
    {
      hide Output, Tables, Owned, Progress, Succeeded, Failed, Valid, AllValid, Keys, Represents, RepresentsPairs,
        PairsContinue, Encodable, EncodablePairs, SizeOf, SizePairs, NeedOf, NeedPairs, Both, Spent, Affordable, Placed, Wire.Cardinal;
      ghost var before, ledger := written, Owned();
      ghost var head := [Wire.TAG_MAP] + Wire.Cardinal(size);
      ghost var total := 1 + |Wire.Cardinal(size)| + SizePairs(slots, 0, size, tison);
      WriteHead(Wire.TAG_MAP, size);
      ghost var done: seq<Wire.Wire>, spent := [], Need([], 0);
      NothingDone(before, ledger, head, NeedPairs(slots, 0, size, tison));
      PairsStart(slots, size, nesting, tison);
      var i, count := 0, 0;
      while count < size
        invariant i % 2 == 0 && count <= size && size - count <= Keys(slots, i)
        invariant Output() && Tables() && nesting == old(nesting)
        invariant Progress(before, ledger, head, done, spent)
        invariant PairsContinue(slots, i, size - count, size, done, nesting, tison)
        invariant |written| + SizePairs(slots, i, size - count, tison) == |before| + total
        invariant Both(spent, NeedPairs(slots, i, size - count, tison)) == NeedPairs(slots, 0, size, tison)
        invariant EncodablePairs(slots, i, size - count, nesting, tison) <==> EncodablePairs(slots, 0, size, nesting, tison)
        decreases |slots| - i
      {
        PairsUnfold(slots, i, size - count, nesting, tison);
        if slots[i].Tombstone? {
          PairsSkip(slots, i, size - count, size, done, nesting, tison);
        } else {
          ghost var first, second := NeedOf(slots[i], tison), NeedOf(slots[i + 1], tison);
          ghost var rest := NeedPairs(slots, i + 2, size - count - 1, tison);
          NeedsMore(spent, first, Both(second, rest), ledger, buffer == null);
          NeedsMore(Both(spent, first), second, rest, ledger, buffer == null);
          ghost var key, value;
          ok, key, value := EncodePair(slots, i, before, ledger, head, done, spent, total);
          if !ok {
            StillFailed(before, ledger, total, Encodable(slots[i], nesting, tison) && Encodable(slots[i + 1], nesting, tison)
                        && Placed(PairNeed(slots, i, spent, tison), ledger),
                        EncodablePairs(slots, 0, size, nesting, tison)
                        && Placed(NeedPairs(slots, 0, size, tison), ledger));
            return false, key;
          }
          PairsStep(slots, i, size - count, size, done, key, value, nesting, tison);
          done, spent := done + [key] + [value], Both(Both(spent, first), second);
          count := count + 1;
        }
        i := i + 2;
      }
      PairsUnfold(slots, i, 0, nesting, tison);
      Afforded(before, ledger, head, done, spent);
      PairsEnd(slots, i, size, done, nesting, tison);
      PairsSound(slots, 0, size, done, nesting, tison);
      w := Wire.Map(done);
      AllDone(before, ledger, head, w, spent);
      ok := true;
    }

    // ----- TISON ------------------------------------------------------------------------------

    /** The pass that finds the size learns the payload's length only at the end, and counts
        it there; the pass that writes knows it, and puts it first. */
    method EncodeTison(v: Value) returns (ok: bool, ghost w: Wire.Wire)
      requires Output() && Tables() && Valid(v) && tison && nesting == 0 && written == []
      requires buffer != null ==> payloadSize == SizeOf(v, true)
      requires Room(4 + |Wire.Cardinal(SizeOf(v, true))| + SizeOf(v, true))
      modifies this, buffer
      ensures Output()
      ensures ok <==> Encodable(v, 0, true)
      ensures ok ==> Represents(v, w, 0, true) && cursor == |Decoder.Message(w)| && payloadSize == SizeOf(v, true)
      ensures ok && buffer != null ==> buffer[..cursor] == Decoder.Message(w)
    {
      hide Tables, Valid, Represents, Encodable, SizeOf, NeedOf, Wire.Cardinal, Wire.Fixed, Wire.Bytes;
      NothingMore();
      TisonNeedsNothing(v);
      WriteBytes(Wire.Fixed(Decoder.TISON_MARKER, 4));
      if buffer != null {
        WriteCardinal(payloadSize);
      }
      ok, w := EncodeAny(v);
      if !ok {
        return;
      }
      RepresentsSound(v, w, 0, true);
      if buffer == null {
        payloadSize := cursor - 4;
        WriteCardinal(payloadSize);
      }
    }
  }

  /** Both passes.  Whatever is encoded is decoded again as a value that stands for it. */
  method TisonEncode(v: Value) returns (message: Option<array<byte>>, ghost w: Wire.Wire)
    requires Valid(v)
    ensures message.Some? <==> Encodable(v, 0, true)
    ensures message.Some? ==> Represents(v, w, 0, true) && message.value[..] == Decoder.Message(w)
    ensures message.Some? ==> StandsFor(w, v, true)
  {
    hide Valid, Represents, StandsFor, Encodable, SizeOf, Wire.Cardinal, Wire.Fixed, Wire.Bytes;
    var sizer := new MessageEncoder(null, true, 0, []);
    var ok, first := sizer.EncodeTison(v);
    if !ok {
      return None, Wire.Null;
    }
    var bytes := new byte[sizer.cursor];
    RepresentsSound(v, first, 0, true);
    var encoder := new MessageEncoder(bytes, true, sizer.payloadSize, []);
    ok, w := encoder.EncodeTison(v);
    RepresentsSound(v, w, 0, true);
    RepresentsStands(v, w, 0, true);
    assert bytes[..bytes.Length] == bytes[..];
    return Some(bytes), w;
  }

  /** Every encodable object survives: what comes back stands for it. */
  method TisonRoundTrip(v: Value) returns (r: Option<Wire.Wire>)
    requires Valid(v)
    ensures r.Some? <==> Encodable(v, 0, true)
    ensures r.Some? ==> Represents(v, r.value, 0, true) && StandsFor(r.value, v, true)
  {
    hide Valid, Represents, StandsFor, Encodable, Wire.Cardinal, Wire.Fixed, Wire.Bytes, Decoder.Message;
    var message, w := TisonEncode(v);
    if message.None? {
      return None;
    }
    RepresentsSound(v, w, 0, true);
    var bytes := message.value[..];
    var decoder := new Decoder.MessageDecoder((i: nat) => if i < |bytes| then bytes[i] else 0, |bytes|, true);
    r := decoder.DecodeTison(w);
  }

  /** The size is found, but the writing pass takes a ninth block before it sees that there is no
      place for it. */
  ghost predicate LosesBlock(v: Value, supply: seq<nat>)
    requires Valid(v)
  {
    && Encodable(v, 0, false) && |Handed(v)| <= Wire.MAX_EXTERNALS
    && NeedOf(v, false).copies > Wire.MAX_EXTERNALS && |supply| > Wire.MAX_EXTERNALS
  }

  lemma NotTaken(after: Ledger, supply: seq<nat>, need: Need)
    requires Refused(Ledger([], supply, []), after, true) && |need.handed| <= Wire.MAX_EXTERNALS
    requires !Affordable(need, Ledger([], supply, []), false)
    ensures need.copies > Wire.MAX_EXTERNALS && |supply| > Wire.MAX_EXTERNALS ==>
      after.copied == supply[..Wire.MAX_EXTERNALS] && after.supply == supply[Wire.MAX_EXTERNALS + 1..]
    ensures !(need.copies > Wire.MAX_EXTERNALS && |supply| > Wire.MAX_EXTERNALS) ==> after.copied + after.supply == supply
  {
    assert [] + supply == supply;
  }

  /** Both passes of an IPC message.  When it succeeds, the blocks that the message needs are
      taken from the allocator, and the pointers in the message are these blocks and the
      addresses of the external byte arrays, each as often as it occurs there; when it does
      not, what was copied is reported, so that it can be freed, and a block may be lost. */
  method IpcEncode(v: Value, supply: seq<nat>)
    returns (message: Option<array<byte>>, copied: seq<nat>, left: seq<nat>, ghost w: Wire.Wire)
    requires Valid(v) && forall i :: 0 <= i < |supply| ==> supply[i] < Wire.U64
    ensures message.Some? <==> Encodable(v, 0, false) && Affordable(NeedOf(v, false), Ledger([], supply, []), false)
    ensures message.Some? ==>
      var n := NeedOf(v, false).copies;
      && Represents(v, w, 0, false) && message.value[..] == Wire.Bytes(w)
      && n <= |supply| && copied == supply[..n] && left == supply[n..]
      && multiset(Wire.Pointers(w)) == multiset(supply[..n]) + multiset(Handed(v))
    ensures message.None? ==>
      if LosesBlock(v, supply) then copied == supply[..Wire.MAX_EXTERNALS] && left == supply[Wire.MAX_EXTERNALS + 1..]
      else copied + left == supply
  {
    hide Valid, Represents, Encodable, SizeOf, NeedOf, Wire.Bytes, Wire.Pointers, MessageEncoder.Output, MessageEncoder.Tables,
      Refused;
    var sizer := new MessageEncoder(null, false, 0, supply);
    var ok, first := sizer.EncodeAny(v);
    if !ok {
      return None, [], supply, Wire.Null;
    }
    RepresentsSound(v, first, 0, false);
    Cursor(sizer);
    message, copied, left, w := IpcWrite(v, supply, sizer.cursor);
  }

  /** The second pass. */
  method IpcWrite(v: Value, supply: seq<nat>, size: nat)
    returns (message: Option<array<byte>>, copied: seq<nat>, left: seq<nat>, ghost w: Wire.Wire)
    requires Valid(v) && forall i :: 0 <= i < |supply| ==> supply[i] < Wire.U64
    requires Encodable(v, 0, false) && |Handed(v)| <= Wire.MAX_EXTERNALS && size == SizeOf(v, false)
    ensures message.Some? <==> Affordable(NeedOf(v, false), Ledger([], supply, []), false)
    ensures message.Some? ==>
      var n := NeedOf(v, false).copies;
      && Represents(v, w, 0, false) && message.value[..] == Wire.Bytes(w)
      && n <= |supply| && copied == supply[..n] && left == supply[n..]
      && multiset(Wire.Pointers(w)) == multiset(supply[..n]) + multiset(Handed(v))
    ensures message.None? ==>
      if LosesBlock(v, supply) then copied == supply[..Wire.MAX_EXTERNALS] && left == supply[Wire.MAX_EXTERNALS + 1..]
      else copied + left == supply
  {
    hide Valid, Represents, Encodable, SizeOf, NeedOf, Wire.Bytes, Wire.Pointers, MessageEncoder.Output, MessageEncoder.Tables,
      Refused;
    var buffer := new byte[size];
    var encoder := new MessageEncoder(buffer, false, 0, supply);
    var ok;
    ok, w := encoder.EncodeAny(v);
    copied, left := encoder.copied, encoder.supply;
    if !ok {
      NotTaken(encoder.Owned(), supply, NeedOf(v, false));
      return None, copied, left, w;
    }
    RepresentsSound(v, w, 0, false);
    Cursor(encoder);
    Taken(encoder.Owned(), supply, NeedOf(v, false), Wire.Pointers(w));
    assert buffer[..buffer.Length] == buffer[..];
    message := Some(buffer);
  }

  lemma Taken(after: Ledger, supply: seq<nat>, need: Need, pointers: seq<nat>)
    requires Settled(Ledger([], supply, []), after, pointers, false) && Spent(need, Ledger([], supply, []), after, false)
    ensures need.copies <= |supply| && after.copied == supply[..need.copies] && after.supply == supply[need.copies..]
    ensures multiset(pointers) == multiset(supply[..need.copies]) + multiset(need.handed)
  {
    assert [] + supply == supply && after.handed == need.handed;
    assert after.copied + after.supply == supply;
  }

  lemma Cursor(encoder: MessageEncoder)
    requires encoder.Output()
    ensures encoder.cursor == |encoder.written|
    ensures encoder.buffer != null ==>
      encoder.cursor <= encoder.buffer.Length && encoder.buffer[..encoder.cursor] == encoder.written
  {
  }

  // ----- Messages that are never read ---------------------------------------------------------

  ghost predicate NoRepeats(s: seq<nat>)
  {
    forall x :: multiset(s)[x] <= 1
  }

  lemma PrefixHasNoRepeats(s: seq<nat>, n: nat)
    requires NoRepeats(s) && n <= |s|
    ensures NoRepeats(s[..n])
  {
    assert s == s[..n] + s[n..];
    forall x ensures multiset(s[..n])[x] <= 1 {
      assert multiset(s)[x] == multiset(s[..n])[x] + multiset(s[n..])[x];
    }
  }

  /** The blocks that a message takes, and the arrays that it hands over. */
  ghost predicate AllDifferent(v: Value, supply: seq<nat>)
    requires Valid(v) && NeedOf(v, false).copies <= |supply|
  {
    NoRepeats(Handed(v)) && forall i :: 0 <= i < NeedOf(v, false).copies ==> supply[i] !in Handed(v)
  }

  lemma DifferentIff(blocks: seq<nat>, handed: seq<nat>, pointers: seq<nat>)
    requires multiset(pointers) == multiset(blocks) + multiset(handed) && NoRepeats(blocks)
    ensures NoRepeats(pointers) <==> NoRepeats(handed) && forall i :: 0 <= i < |blocks| ==> blocks[i] !in handed
  {
    if NoRepeats(pointers) {
      forall x ensures multiset(handed)[x] <= 1 {
        assert multiset(pointers)[x] == multiset(blocks)[x] + multiset(handed)[x];
      }
      forall i | 0 <= i < |blocks| ensures blocks[i] !in handed {
        assert blocks[i] in multiset(blocks) && multiset(pointers)[blocks[i]] <= 1;
      }
    }
    if NoRepeats(handed) && forall i :: 0 <= i < |blocks| ==> blocks[i] !in handed {
      forall x ensures multiset(pointers)[x] <= 1 {
        assert multiset(pointers)[x] == multiset(blocks)[x] + multiset(handed)[x];
        assert x in multiset(blocks) ==> x in blocks;
      }
    }
  }

  method Discard(bytes: seq<byte>, ghost w: Wire.Wire) returns (fatal: bool, freed: seq<nat>)
    requires Wire.Sound(w, false) && bytes == Wire.Bytes(w) && |bytes| <= INT_MAX
    ensures fatal <==> !Wire.NoMaps(w)
    ensures !fatal ==> freed == Wire.Pointers(w)
  {
    hide Wire.Sound, Wire.Bytes, Wire.Pointers, Wire.NoMaps, Decoder.MessageDecoder.EndOf;
    var decoder := new Decoder.MessageDecoder((i: nat) => if i < |bytes| then bytes[i] else 0, INT_MAX, false);
    decoder.EncodedIsSpelled(0, w);
    decoder.Deallocate(Some(w));
    fatal, freed := decoder.fatal, decoder.freed;
  }

  /** A message that is discarded unread frees what it points to: the blocks that were taken
      for it and the external byte arrays that were handed over.  With a map in it, it is
      fatal instead.  No address is freed twice if and only if the external byte arrays are
      different ones, and different from the blocks. */
  method IpcDiscard(v: Value, supply: seq<nat>)
    returns (sent: bool, fatal: bool, freed: seq<nat>, left: seq<nat>)
    requires Valid(v) && (forall i :: 0 <= i < |supply| ==> supply[i] < Wire.U64) && NoRepeats(supply)
    requires SizeOf(v, false) <= INT_MAX
    ensures sent <==> Encodable(v, 0, false) && Affordable(NeedOf(v, false), Ledger([], supply, []), false)
    ensures sent ==> (fatal <==> SelectsMap(v))
    ensures sent ==> NeedOf(v, false).copies <= |supply| && left == supply[NeedOf(v, false).copies..]
    ensures sent && !fatal ==>
      && multiset(freed) == multiset(supply[..NeedOf(v, false).copies]) + multiset(Handed(v))
      && (NoRepeats(freed) <==> AllDifferent(v, supply))
  {
    hide Valid, Represents, Encodable, SizeOf, NeedOf, SelectsMap, Wire.Bytes, Wire.Pointers, Wire.NoMaps;
    var message, copied, rest, w := IpcEncode(v, supply);
    if message.None? {
      return false, false, [], rest;
    }
    left := rest;
    RepresentsSound(v, w, 0, false);
    MapsIff(v, w, 0, false);
    sent := true;
    fatal, freed := Discard(message.value[..], w);
    if !fatal {
      PrefixHasNoRepeats(supply, NeedOf(v, false).copies);
      DifferentIff(supply[..NeedOf(v, false).copies], Handed(v), Wire.Pointers(w));
    }
  }

  function Twice(content: seq<byte>, address: nat): (v: Value)
    requires address < Wire.U64
    ensures Valid(v)
  {
    var b := ExternalBytes(content, address, true);
    assert Valid(b);
    var v := Elements([b, b], 0, 2);
    assert AllValid(v.backing);
    v
  }

  /** The encoder does not notice that an external byte array occurs twice: such a list is
      encodable, and its memory is handed over twice. */
  lemma HandedTwice(content: seq<byte>, address: nat)
    requires address < Wire.U64
    ensures Handed(Twice(content, address)) == [address, address]
    ensures Encodable(Twice(content, address), 0, false) && !SelectsMap(Twice(content, address))
    ensures Affordable(NeedOf(Twice(content, address), false), Ledger([], [], []), false)
    ensures !AllDifferent(Twice(content, address), [])
  {
    hide NeedRange, EncodableRange, Encodable, NeedOf, SizeOf, SizeRange, Represents, RepresentsRange, SelectsMap, AllValid;
    var v := Twice(content, address);
    var b, backing := v.backing[0], v.backing;
    ElementsMeaning(v, 0, false);
    LeafMeaning(b, 1, false);
    TwiceUnfolded(backing, address);
    NoMapTwice(v);
    assert multiset([address, address])[address] == 2;
  }

  lemma TwiceUnfolded(backing: seq<Value>, address: nat)
    requires AllValid(backing) && |backing| == 2 && backing[0] == backing[1]
    requires Encodable(backing[0], 1, false) && NeedOf(backing[0], false) == Need([address], 0)
    ensures NeedRange(backing, 0, 2, false) == Need([address, address], 0) && EncodableRange(backing, 0, 2, 1, false)
  {
    hide NeedRange, EncodableRange, Encodable, NeedOf, SizeOf, SizeRange;
    RangeUnfolds(backing, 0, 2, 1, false);
    RangeUnfolds(backing, 1, 2, 1, false);
    RangeUnfolds(backing, 2, 2, 1, false);
  }

  lemma NoMapTwice(v: Value)
    requires Valid(v) && v.Elements? && |v.backing| == 2 && v.start == 0 && v.end == 2
    requires v.backing[0] == v.backing[1] && v.backing[0].ExternalBytes?
    ensures !SelectsMap(v)
  {
    assert !RangeSelectsMap(v.backing, 2, 2);
    assert !RangeSelectsMap(v.backing, 1, 2);
  }

  /** And when it is discarded, that memory is freed twice. */
  method FreedTwice(content: seq<byte>, address: nat) returns (freed: seq<nat>)
    requires address < Wire.U64 && SizeOf(Twice(content, address), false) <= INT_MAX
    ensures multiset(freed) == multiset{address, address}
  {
    hide NeedOf, Encodable, SelectsMap, SizeOf, Valid, Affordable, AllDifferent;
    HandedTwice(content, address);
    var sent, fatal, all, left := IpcDiscard(Twice(content, address), []);
    freed := all;
  }

  // ----- Messages that are read -----------------------------------------------------------------

  /** What a message points to is in the decoder's one table of eight, where the encoder has two: one for
      blocks, one for external byte arrays. */
  ghost predicate Receivable(v: Value)
    requires Valid(v)
  {
    NeedOf(v, false).copies + |Handed(v)| <= Wire.MAX_EXTERNALS
  }

  /** A message that is sent is received as a value that stands for the object, with the blocks and the
      external byte arrays of the message, if and only if all of these have a place in the decoder's table.
      Otherwise the receiver is stopped. */
  method IpcRoundTrip(v: Value, supply: seq<nat>) returns (sent: bool, fatal: bool, r: Option<Wire.Wire>)
    requires Valid(v) && forall i :: 0 <= i < |supply| ==> supply[i] < Wire.U64
    requires SizeOf(v, false) <= INT_MAX
    ensures sent <==> Encodable(v, 0, false) && Affordable(NeedOf(v, false), Ledger([], supply, []), false)
    ensures sent ==> (fatal <==> !Receivable(v)) && (r.Some? <==> Receivable(v))
    ensures r.Some? ==>
      && sent && NeedOf(v, false).copies <= |supply| && Represents(v, r.value, 0, false) && StandsFor(r.value, v, false)
      && multiset(Wire.Pointers(r.value)) == multiset(supply[..NeedOf(v, false).copies]) + multiset(Handed(v))
  {
    hide Valid, Represents, StandsFor, Encodable, SizeOf, NeedOf, Wire.Bytes, Wire.Pointers, Affordable;
    var message, copied, left, w := IpcEncode(v, supply);
    if message.None? {
      return false, false, None;
    }
    RepresentsSound(v, w, 0, false);
    RepresentsStands(v, w, 0, false);
    SameCount(Wire.Pointers(w), supply[..NeedOf(v, false).copies], Handed(v));
    var bytes := message.value[..];
    var decoder := new Decoder.MessageDecoder((i: nat) => if i < |bytes| then bytes[i] else 0, INT_MAX, false);
    decoder.EncodedIsSpelled(0, w);
    r := decoder.DecodeAny(Some(w));
    sent, fatal := true, decoder.fatal;
  }

  lemma SameCount(all: seq<nat>, a: seq<nat>, b: seq<nat>)
    requires multiset(all) == multiset(a) + multiset(b)
    ensures |all| == |a| + |b|
  {
    assert |multiset(all)| == |multiset(a)| + |multiset(b)|;
  }

  // ----- Messages at the limits --------------------------------------------------------------------

  const LONG: nat := 129  // the length of the shortest text that is copied

  /** Some long strings, and then some other objects. */
  function Strings(content: seq<byte>, n: nat, more: seq<Value>): (v: Value)
    requires |content| == LONG && AllValid(more)
    ensures Valid(v) && v.Elements? && v.start == 0 && v.end == |v.backing| == n + |more|
    ensures forall i :: 0 <= i < n ==> IsLong(v.backing[i])
    ensures forall i :: 0 <= i < |more| ==> v.backing[n + i] == more[i]
  {
    var backing := seq(n, i => Text(true, content, 0, LONG, true)) + more;
    assert AllValid(backing);
    Elements(backing, 0, n + |more|)
  }

  ghost predicate IsLong(v: Value)
  {
    v.Text? && Readable(v) && |Content(v)| == LONG
  }

  lemma LongMeaning(v: Value)
    requires IsLong(v)
    ensures Valid(v) && NeedOf(v, false) == Need([], 1) && SizeOf(v, false) == 11 && Encodable(v, 1, false)
  {
    assert Wire.Cardinal(LONG) == [129, 1];
  }

  /** Each long string takes a block. */
  lemma {:induction false} StringsNeed(backing: seq<Value>, i: nat, n: nat)
    requires i <= n <= |backing| && AllValid(backing) && forall k :: 0 <= k < n ==> IsLong(backing[k])
    requires EncodableRange(backing, n, |backing|, 1, false)
    ensures var need := NeedRange(backing, n, |backing|, false);
      NeedRange(backing, i, |backing|, false) == Need(need.handed, n - i + need.copies)
    ensures SizeRange(backing, i, |backing|, false) == 11 * (n - i) + SizeRange(backing, n, |backing|, false)
    ensures EncodableRange(backing, i, |backing|, 1, false)
    decreases n - i
  {
    hide NeedRange, EncodableRange, SizeRange, AllValid, NeedOf, Encodable, SizeOf, IsLong;
    if i == n {
    } else {
      StringsNeed(backing, i + 1, n);
      RangeUnfolds(backing, i, |backing|, 1, false);
      LongMeaning(backing[i]);
    }
  }

  /** Nine long strings are too many for the table of blocks; with nine blocks, one is lost. */
  method NinthBlockLost(content: seq<byte>, supply: seq<nat>) returns (sent: bool, copied: seq<nat>, left: seq<nat>)
    requires |content| == LONG && |supply| == 9 && forall i :: 0 <= i < |supply| ==> supply[i] < Wire.U64
    ensures !sent && copied == supply[..8] && left == []
  {
    hide NeedOf, NeedRange, Encodable, EncodableRange, SizeOf, SizeRange, AllValid, Strings, Represents, Wire.Bytes, Wire.Pointers;
    NoValues();
    var v := Strings(content, 9, []);
    ElementsMeaning(v, 0, false);
    RangeUnfolds(v.backing, 9, 9, 1, false);
    StringsNeed(v.backing, 0, 9);
    var message, blocks, rest, w := IpcEncode(v, supply);
    sent, copied, left := message.Some?, blocks, rest;
  }

  lemma NoValues()
    ensures AllValid([])
  {
  }

  function EightAndOne(content: seq<byte>, address: nat): (v: Value)
    requires |content| == LONG && address < Wire.U64
    ensures Valid(v)
  {
    assert AllValid([ExternalBytes(content, address, true)]);
    Strings(content, 8, [ExternalBytes(content, address, true)])
  }

  /** Eight long strings and an external byte array fit the tables of the encoder, but not the
      decoder's. */
  lemma NinePointers(content: seq<byte>, address: nat)
    requires |content| == LONG && address < Wire.U64
    ensures var v := EightAndOne(content, address);
      && Encodable(v, 0, false) && NeedOf(v, false) == Need([address], 8) && SizeOf(v, false) <= INT_MAX
      && !Receivable(v)
  {
    hide NeedOf, NeedRange, Encodable, EncodableRange, SizeOf, SizeRange, AllValid, IsLong;
    var v := EightAndOne(content, address);
    ElementsMeaning(v, 0, false);
    RangeUnfolds(v.backing, 9, 9, 1, false);
    RangeUnfolds(v.backing, 8, 9, 1, false);
    OneExternal(v.backing[8]);
    StringsNeed(v.backing, 0, 8);
    assert Wire.Cardinal(9) == [9];
  }

  lemma OneExternal(v: Value)
    requires v.ExternalBytes? && v.address < Wire.U64 && |v.content| == LONG
    ensures Valid(v) && NeedOf(v, false) == Need([v.address], 0) && SizeOf(v, false) == 11 && Encodable(v, 1, false)
  {
    assert Wire.Cardinal(LONG) == [129, 1];
  }

  /** It can be sent, and stops the receiver. */
  method NinthPointerFatal(content: seq<byte>, address: nat, supply: seq<nat>) returns (sent: bool, fatal: bool)
    requires |content| == LONG && address < Wire.U64
    requires |supply| == 8 && forall i :: 0 <= i < |supply| ==> supply[i] < Wire.U64
    ensures sent && fatal
  {
    hide NeedOf, Encodable, SizeOf, EightAndOne, Represents, Wire.Pointers;
    NinePointers(content, address);
    var r;
    sent, fatal, r := IpcRoundTrip(EightAndOne(content, address), supply);
  }

  /** An empty map can be sent, and discarding the message is fatal. */
  method EmptyMapFatal() returns (sent: bool, fatal: bool)
    ensures sent && fatal
  {
    hide Represents;
    var v := Map(0, []);
    assert AllValid(v.slots);
    assert Encodable(v, 0, false) && NeedOf(v, false) == Need([], 0) && SelectsMap(v);
    assert Wire.Cardinal(0) == [0];
    var freed, left;
    sent, fatal, freed, left := IpcDiscard(v, []);
  }

  /** A slice of a string comes back as the bytes that it selects. */
  method SliceRoundTrip(bytes: seq<byte>, from: nat, to: nat) returns (r: Option<Wire.Wire>)
    requires from <= to <= |bytes|
    ensures r == Some(Wire.Inline(true, bytes[from..to]))
  {
    hide Represents, Encodable, StandsFor;
    var v := Text(true, bytes, from, to, true);
    LeafMeaning(v, 0, true);
    r := TisonRoundTrip(v);
    SliceIs(v, r.value);
  }

  lemma SliceIs(v: Value, w: Wire.Wire)
    requires v.Text? && StandsFor(w, v, true)
    ensures w == Wire.Inline(v.isString, v.bytes[v.from..v.to])
  {
    assert w.content == v.bytes[v.from..v.to];
  }
}
