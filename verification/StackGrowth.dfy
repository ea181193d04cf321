/** Stacks that grow.  The interpreter works on a loaded stack with pointers; what is on
    the stack refers to slots by their distance from its base, so it can be moved. */
module StackGrowth {
  import opened Options

  type Word = int

  /** Where a stack can be, given that the marker is above all watermarks. */
  type Address = a: nat | a + 3 < 0xffff_ffff_ffff_ffff

  const MARKER: nat := 0xffff_ffff_ffff_ffff
  const RESERVED: nat := 3    // slots for the exception and for unwinding
  const FRAME_SIZE: nat := 2
  const BLOCK_SALT: int := 0x01020304

  /** A stack object: the slots from `top` to the end, the base, are in use. */
  class Stack {
    var address: Address  // of the first slot; the garbage collector may change it
    const slots: array<Word>
    var task: nat
    var top: int      // -1 while the interpreter has the stack
    var tryTop: int

    constructor (address: Address, length: nat)
      ensures this.address == address && fresh(slots) && slots.Length == length
    {
      this.address, task, slots, top, tryTop := address, 0, new Word[length], length, length;
    }

    ghost predicate AtRest()
      reads `top, `tryTop
    {
      0 <= top <= slots.Length && 0 <= tryTop <= slots.Length
    }

    /** Everything that matters about a stack: what is on it, and where, counted from the
        base, the innermost try is. */
    ghost function View(): (seq<Word>, int)
      requires AtRest()
      reads `top, `tryTop, slots
    {
      (slots[top..], slots.Length - tryTop)
    }

    /** To a stack of any length that has room for what is on this one. */
    method CopyTo(other: Stack)
      requires AtRest() && other != this && other.slots != slots
      requires slots.Length - top <= other.slots.Length && slots.Length - tryTop <= other.slots.Length
      modifies other`top, other`tryTop, other`task, other.slots
      ensures other.AtRest() && other.View() == View() && other.task == task
      ensures other.slots.Length - other.top == slots.Length - top
    {
      var displacement := other.slots.Length - slots.Length;
      for i := top to slots.Length
        invariant other.slots[top + displacement..i + displacement] == slots[top..i]
      {
        other.slots[i + displacement] := slots[i];
      }
      other.task, other.top, other.tryTop := task, displacement + top, displacement + tryTop;
      assert other.slots[other.top..] == other.slots[top + displacement..slots.Length + displacement];
      assert slots[top..] == slots[top..slots.Length];
    }
  }

  datatype OverflowState = RESUME | PREEMPT | EXCEPTION

  /** One attempt at allocating a new stack: where it is, or where the old one is after a
      garbage collection. */
  datatype Attempt = Success(address: Address) | Failure(moved: Address)

  class Interpreter {
    const maxLength: nat
    var stack: Stack
    var limit: int
    var base: int
    var sp: int
    var trySp: int
    var watermark: nat

    constructor (stack: Stack, maxLength: nat)
      requires stack.AtRest()
      ensures this.stack == stack && this.maxLength == maxLength && watermark == 0
    {
      this.stack, this.maxLength := stack, maxLength;
      limit, base, sp, trySp, watermark := 0, 0, 0, 0, 0;
    }

    /** The interpreter has the stack, and its watermark unless it is to be preempted. */
    ghost predicate Loaded()
      reads this, stack
    {
      && limit == stack.address && base == limit + stack.slots.Length
      && limit <= sp <= base && limit <= trySp <= base && stack.top == -1
      && (watermark == MARKER || watermark == limit + RESERVED)
    }

    /** As for a stack at rest, but what is on the stack starts where `p` points to. */
    ghost function View(p: int): (seq<Word>, int)
      requires Loaded() && limit <= p <= base
      reads this, stack, stack.slots
    {
      (stack.slots[p - limit..], base - trySp)
    }

    function ToBlock(p: int): int
      reads `base
    {
      base - p + BLOCK_SALT
    }

    function FromBlock(block: int): int
      reads `base
    {
      base - (block - BLOCK_SALT)
    }

    /** The slot that a block on the stack refers to. */
    ghost function Slot(block: int): Word
      requires Loaded() && 0 < block - BLOCK_SALT <= base - limit
      reads this, stack, stack.slots
    {
      stack.slots[FromBlock(block) - limit]
    }

    method LoadStack() returns (p: int)
      requires stack.AtRest()
      modifies this, stack`top
      ensures Loaded() && stack == old(stack) && p == sp
      ensures View(p) == old(stack.View()) && base - p == |View(p).0|
      ensures watermark == if old(watermark) == MARKER then MARKER else limit + RESERVED
    {
      limit, base := stack.address, stack.address + stack.slots.Length;
      sp, trySp := stack.address + stack.top, stack.address + stack.tryTop;
      stack.top := -1;
      if watermark != MARKER {
        watermark := limit + RESERVED;
      }
      p := sp;
    }

    method StoreStack(p: int)
      requires Loaded() && limit <= p <= base
      modifies this, stack`top, stack`tryTop
      ensures stack == old(stack) && stack.AtRest() && stack.View() == old(View(p))
      ensures stack.slots.Length - stack.top == old(base) - p
      ensures watermark == if old(watermark) == MARKER then MARKER else 0
    {
      stack.top, stack.tryTop := p - stack.address, trySp - stack.address;
      limit, base, sp := 0, 0, 0;
      if watermark != MARKER {
        watermark := 0;
      }
    }

    /** A garbage collection moves the stack, and changes nothing on it.  The third time,
        there is none. */
    method Gc(p: int, attempt: nat, moved: Address) returns (q: int)
      requires Loaded() && limit <= p <= base
      modifies this, stack`top, stack`tryTop, stack`address
      ensures Loaded() && stack == old(stack) && limit <= q <= base
      ensures base - q == old(base) - p && View(q) == old(View(p))
      ensures watermark == MARKER <==> old(watermark) == MARKER
    {
      if attempt == 3 {
        return p;
      }
      StoreStack(p);
      stack.address := moved;
      q := LoadStack();
    }

    /** A new length: by half, or more if that is not enough, but never beyond the maximum. */
    predicate Grows(length: int, needed: int, newLength: int)
    {
      && needed <= newLength <= maxLength
      && (newLength == maxLength || 2 * newLength >= 3 * length - 1)
      && (2 * newLength <= 3 * length || newLength == needed)
    }

    /** The length of the stack to grow to, if there is one that helps. */
    method NewLength(p: int, maxHeight: nat) returns (r: Option<nat>)
      requires Loaded() && limit <= p <= base && p - limit < Needed(maxHeight)
      ensures r.Some? <==> base - p + Needed(maxHeight) <= maxLength
      ensures r.Some? ==> base - limit < r.value && Grows(base - limit, base - p + Needed(maxHeight), r.value)
    {
      var length := stack.slots.Length;
      if length >= maxLength {
        return None;
      }
      var headroom := p - limit;
      var newLength := Max(length + length / 2, length - headroom + Needed(maxHeight));
      newLength := Min(maxLength, newLength);
      if headroom + (newLength - length) < Needed(maxHeight) {
        return None;
      }
      return Some(newLength);
    }

    /** Up to four attempts, with a garbage collection after each failure. */
    method AllocateStack(p: int, length: nat, attempts: seq<Attempt>) returns (q: int, r: Option<Stack>)
      requires Loaded() && limit <= p <= base && |attempts| == 4
      modifies this, stack`top, stack`tryTop, stack`address
      ensures Loaded() && stack == old(stack) && limit <= q <= base
      ensures base - q == old(base) - p && View(q) == old(View(p))
      ensures watermark == MARKER <==> old(watermark) == MARKER
      ensures r.Some? <==> exists i :: 0 <= i < 4 && attempts[i].Success?
      ensures r.Some? ==> fresh(r.value) && fresh(r.value.slots) && r.value.slots.Length == length
    {
      q := p;
      for i := 0 to 4
        invariant Loaded() && stack == old(stack) && limit <= q <= base
        invariant base - q == old(base) - p && View(q) == old(View(p))
        invariant watermark == MARKER <==> old(watermark) == MARKER
        invariant forall k :: 0 <= k < i ==> attempts[k].Failure?
      {
        if attempts[i].Success? {
          var grown := new Stack(attempts[i].address, length);
          return q, Some(grown);
        }
        if i < 3 {
          q := Gc(q, i + 1, attempts[i].moved);
        }
      }
      r := None;
    }

    method MoveTo(p: int, other: Stack) returns (q: int)
      requires Loaded() && limit <= p <= base && watermark != MARKER
      requires other != stack && other.slots != stack.slots && stack.slots.Length <= other.slots.Length
      modifies this, stack`top, stack`tryTop, other`top, other`tryTop, other`task, other.slots
      ensures Loaded() && stack == other && limit <= q <= base && base - q == old(base) - p && View(q) == old(View(p))
      ensures watermark == limit + RESERVED && stack.task == old(stack.task)
    {
      StoreStack(p);
      stack.CopyTo(other);
      stack := other;
      q := LoadStack();
    }

    /** Growing the stack, when a call needs more of it than there is above the watermark.
        What is on the stack stays the same. */
    method HandleStackOverflow(p: int, maxHeight: nat, attempts: seq<Attempt>) returns (q: int, state: OverflowState)
      requires Loaded() && limit <= p <= base && p - maxHeight < watermark && |attempts| == 4
      modifies this, stack`top, stack`tryTop, stack`address
      ensures state == PREEMPT <==> old(watermark) == MARKER
      ensures state == PREEMPT ==> watermark == 0 && q == p && stack == old(stack)
      ensures state == RESUME <==>
        && old(watermark) != MARKER && old(base) - p + Needed(maxHeight) <= maxLength
        && exists i :: 0 <= i < 4 && attempts[i].Success?
      ensures state != PREEMPT ==> Loaded() && limit <= q <= base && base - q == old(base) - p && View(q) == old(View(p))
      ensures state == RESUME ==>
        && old(stack.slots.Length) < stack.slots.Length && stack.task == old(stack.task)
        && Grows(old(stack.slots.Length), old(base) - p + Needed(maxHeight), stack.slots.Length)
        && watermark == limit + RESERVED <= q - maxHeight - FRAME_SIZE
    {
      if watermark == MARKER {
        watermark := 0;
        return p, PREEMPT;
      }
      var newLength := NewLength(p, maxHeight);
      if newLength.None? {
        return p, EXCEPTION;
      }
      var space;
      q, space := AllocateStack(p, newLength.value, attempts);
      if space.None? {
        return q, EXCEPTION;
      }
      q := MoveTo(q, space.value);
      state := RESUME;
    }

    /** The check before a call.  When the call goes ahead there is room for it; and unless
        the interpreter stops, blocks made from pointers before lead to the same slots after. */
    method CheckStackOverflow(p: int, maxHeight: nat, attempts: seq<Attempt>) returns (q: int, state: OverflowState)
      requires Loaded() && limit <= p <= base && |attempts| == 4
      modifies this, stack`top, stack`tryTop, stack`address
      ensures state == PREEMPT <==> old(watermark) == MARKER && p - maxHeight < MARKER
      ensures state == RESUME && watermark != MARKER ==> watermark == limit + RESERVED <= q - maxHeight
      ensures state != PREEMPT ==>
        Loaded() && limit <= q <= base && base - q == old(base) - p && base - trySp == old(base - trySp)
      ensures state != PREEMPT ==>
        forall r :: p <= r < old(base) ==> Slot(old(ToBlock(r))) == old(stack.slots[r - limit])
    {
      if p - maxHeight >= watermark {
        return p, RESUME;
      }
      q, state := HandleStackOverflow(p, maxHeight, attempts);
      if state != PREEMPT {
        forall r | p <= r < old(base) ensures Slot(old(ToBlock(r))) == old(stack.slots[r - limit]) {
          assert View(q).0[r - p] == old(View(p)).0[r - p];
        }
      }
    }
  }

  function Needed(maxHeight: nat): nat
  {
    maxHeight + FRAME_SIZE + RESERVED
  }

  function Max(a: int, b: int): int
  {
    if a < b then b else a
  }

  function Min(a: int, b: int): int
  {
    if a < b then a else b
  }
}
