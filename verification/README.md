# A verified model of the Toit virtual machine's algorithmic cores

This project models the parts of the Toit virtual machine that are algorithms in their own
right, and proves what they are for. Each module is one component:

| component | modules |
|---|---|
| streaming run-length DEFLATE compressor, rolling Adler-32 | `Deflate`, `RleModel`, `RleRoundTrip`, `RleSize`, `Packing`, `ZlibRle`, `Adler32` |
| hashed maps and sets, and iteration over them | `Collections`, `Probing`, `HashTable`, `HashFind`, `HashedCollection`, `HashDo`, `Insertion`, `Hashed`, `History` |
| try/finally, growing stacks, preemption | `Unwind`, `TryFinally`, `FinallyLaws`, `StackGrowth`, `Preemption` |
| TISON and IPC messages | `Wire`, `MessageDecoder`, `Encoding`, `Received`, `MessageEncoder` |
| finalizers, lock levels, `ar` archives, bytemap blur | `Finalizers`, `Locking`, `Archive`, `Blur` |

`Words` and `Options` hold arithmetic and the option type. Code that updates state in place is
a class or a method with loops, proved against functions on values; protocols between threads
are state machines over their atomic steps.

The main results:

- **Compression round trip.** `Deflate` is a small inflater written from RFC 1951 (sections
  3.1.1, 3.2.3, 3.2.5 and 3.2.6) that knows nothing about the compressor. For every input, cut
  into pieces in any way, with any output buffers, inflating what `add` and `finish` produce
  gives the input back, and the bytes do not depend on the cutting. The compressor is modelled
  with its packed 32-bit words and its bit packer. `finish` without a preceding `add` emits no
  block header, and its output does not inflate: the round trip holds exactly if something was
  written. The last buffer loses nothing if it has seven free bytes.
- **It does compress.** Where the input repeats itself with a period of one to four bytes, behind
  anything and with anything behind it, every 257 further bytes cost at most 18 bits, beside a fixed
  amount for the beginning and the end; n equal bytes take at most 18(n/257 + 2) + 19 bits; and no
  input of n bytes takes more than 9n + 10. These bounds are about the bytes that are sent, and say
  nothing of how runs are found.
- **Sets and maps.** Beginning with an empty collection, over any sequence of operations, a
  hashed set or map is a list of entries in the order of insertion whose keys are told apart by
  their equality; what a lookup finds is what the last operation on an equal key has left. This
  covers collections without an index, rebuilds, shrinking with a compaction of the backing, and
  iteration both ways. What a `do` delivers is also told from the operations alone: an entry stands
  where its key first came in since it was last removed, all such keys are there, in that order; a
  map delivers the key that came in then and the value that was stored last, a set the key that was
  stored last.
- **Hash index.** The HASH_FIND bytecode, restarted after every block call, refines lookup and
  insertion: it finds an equal live key if and only if there is one, calls `not_found` once
  otherwise, and keeps every live key reachable through reused slots, rebuilds and removals. A new
  key goes to the first slot of its probe sequence that is free or belongs to a removed key.
  The basis is that triangular probing modulo a power of two visits all slots, and first
  returns to its start after 2n - 1 steps. A rebuild comes to an end exactly if the new index has
  a free slot for every slot of the old one. The simple rebuild takes the low bits of an entry
  for its home slot, which is right exactly up to 4096 slots.
- **Iteration.** Whatever skip distances are recorded in tombstones, and wherever the bytecode
  bails out, a `do` delivers exactly the live entries, in order, forwards and backwards.
- **try/finally.** For programs of nested try statements, calls, scopes, throws, non-local
  returns and non-local branches, the interpreter does what the structure of the program says:
  each finally runs once, after its body, however that is left; then the exception, return or
  branch goes on, unless the finally itself starts another one. The library's `catch`, which is a
  return in a finally, returns the exception of its block. The basis is that every throw, return
  or branch runs exactly the linked handlers beyond its target, innermost first, and then arrives
  with the value it set out with, on a chain of links that each try extends and restores. What this
  means for a trace is proved apart from the structure: in any program whose tries are marked, with
  everything it emits marked with the try it is in, each try that is entered is left once, behind
  all that its body emits and before anything around it; and a value returned, thrown or carried by
  a branch through any number of finallys that complete normally arrives, after their events,
  innermost first.
- **Messages.** The pass that finds the size and the pass that writes agree, although they
  handle the payload length at different places. Encoding succeeds exactly for a class of
  objects that is spelled out, and decoding TISON gives a value that stands for the object: a text is,
  byte by byte, the bytes that a slice selects, a list its elements, a map its live pairs, all the
  way down. For any bytes whatsoever, a buffer is accepted as a TISON message of a value if and only
  if it consists of the marker, the length of the rest, and bytes that spell that value; each proper
  prefix and each extension of an encoded message is malformed.
  The decoder believes the length of an inline text, and reads memory behind the buffer exactly
  if the text ends there; what it accepts as a TISON message it has read inside the buffer.
- **Memory of IPC messages.** A sent message points to the blocks that were taken for it and to
  the external byte arrays of the object. It is received as a value that stands for the object if
  and only if these are at most eight together: the encoder has two tables of eight, the decoder
  one, and a ninth pointer stops the receiver. A refused object costs a block if and only if it is
  encodable, has at most eight external byte arrays and more than eight texts to copy, and there
  are more than eight blocks: the ninth is taken before it is found that there is no place for it.
  A discarded message frees what it points to, if the object contains no map; `deallocate` has no
  case for maps, so with a map it is fatal. The encoder does not notice that an external byte array
  occurs twice in an object, and then its memory is freed twice: every address is freed once if and
  only if the external byte arrays of the object are all different, and different from the blocks.
  Each of these failures has an example.
- **Stacks and preemption.** Growing a stack changes neither what is on it nor what blocks on
  it refer to, makes it longer by half or by what is needed, and makes the call that caused it
  possible. Under every interleaving, a request
  for preemption stays until the interpreter consumes it and stops; from its next check on the
  interpreter does nothing else.
- **The rest.** Removing dead finalizers while relinking them keeps both lists sound, and every
  finalizer is in one place. Lock levels exclude circular waiting. Archives come back as they
  were built, and any bytes are read as an entry exactly if they are one. Blurring in place equals
  blurring out of place, away from the edges, and a blurred pixel is the binomially weighted sum of
  those around it, divided by a power of two and rounded down.

Where comments and code of the original disagree, the model follows the code: the index keeps
12 bits of a hash, and a new index is filled to 85 percent.

## Model

| member | source | states |
|---|---|---|
| `Deflate.ReadSymbolBits` | src/nano_zlib.cc:178-186 | The fixed Huffman code of every symbol, bits as they are packed, is read back as that symbol, whatever follows. |
| `Deflate.KnownStream` | src/nano_zlib.cc:178-197 | The three bytes that stand for the letter `a` in every deflate stream with fixed codes inflate to it. |
| `RleModel.StepAllConcat` | src/nano_zlib.cc:36-172 | Compressing two pieces one after the other is compressing their concatenation. |
| `RleModel.StepGrowth` | src/nano_zlib.cc:42-46 | One more byte of input adds at most 72 bits of output, which the headroom test allows for. |
| `RleModel.FinishGrowth` | src/nano_zlib.cc:188-197 | Finishing adds at most 36 bits before the end of the block. |
| `RleModel.FlushAllGrowth` | src/nano_zlib.cc:210-248 | A pending run of 3 to 260 bytes takes at most 36 bits, and 18 if it fits one match. |
| `RleRoundTrip.LengthCodeTable` | src/nano_zlib.cc:220-240 | The computed length code, extra bits and base agree with the table of RFC 1951 section 3.2.5 for all lengths from 11. |
| `RleRoundTrip.DecodesMatch` | src/nano_zlib.cc:210-248 | A match copies exactly the periodic run that it stands for. |
| `RleRoundTrip.FlushAllMeaning` | src/nano_zlib.cc:210-248 | Flushing a run, in one or several matches, keeps the decoded bytes plus what is pending equal to the consumed input. |
| `RleRoundTrip.RecognizeMeaning` | src/nano_zlib.cc:48-126 | Starting a run of period one to four moves bytes from the lookahead into the run and loses none. |
| `RleRoundTrip.AbsorbMeaning` | src/nano_zlib.cc:127-166 | Extending or ending a run keeps the same equation in all five modes. |
| `RleRoundTrip.StepMeaning` | src/nano_zlib.cc:36-172 | The loop of `add` keeps it: what the emitted bits decode to, the pending run and the lookahead are the consumed bytes. |
| `RleRoundTrip.StepAllMeaning` | src/nano_zlib.cc:36-172 | It holds after every input. |
| `RleRoundTrip.FinishDecodes` | src/nano_zlib.cc:188-197 | All emitted symbols decode to the input, and decoding stops before the padding. |
| `RleRoundTrip.RoundTrip` | src/nano_zlib.cc:36-260 | Bytes that hold the emitted bits and less than a byte of padding inflate to the input. |
| `RleSize.NeverLonger` | src/nano_zlib.cc:36-260 | No input of n bytes takes more than 9n + 10 bits. |
| `RleSize.RepeatsAreShort` | src/nano_zlib.cc:48-166 | A stretch that repeats itself with a period of one to four bytes takes at most 18 bits for every 257 bytes, and 244 more in all, behind any prefix and before any rest, which take at most nine bits a byte. |
| `RleSize.EqualIsShort` | src/nano_zlib.cc:56-67 | n equal bytes take at most 3 + 9 + 18(n/257 + 2) + 7 bits. |
| `Packing.PackedComparisons` | src/nano_zlib.cc:56-125 | Comparing masked and shifted 32-bit words is comparing the last bytes they hold. |
| `Packing.Reverse7Bits` | src/nano_zlib.cc:174-176 | Reversing a 7-bit number reverses its bits. |
| `Packing.Reverse8Bits` | src/utils.h:181-184 | Reversing a byte nibble by nibble reverses its bits. |
| `ZlibRle.FindRunPacked` | src/nano_zlib.cc:56-125 | The tests on packed words find the same run as the definition on bytes. |
| `ZlibRle.ZlibRle.SetOutputBuffer` | src/nano_zlib.cc:28-32 | Another buffer does not change what is to be emitted. |
| `ZlibRle.ZlibRle.OutputByte` | src/nano_zlib.cc:20-26 | The byte joins the stream, and is stored if there is room for it. |
| `ZlibRle.ZlibRle.OutputBits` | src/nano_zlib.cc:250-260 | Bits, least significant first, join those already packed; whole bytes leave the 32-bit word. |
| `ZlibRle.ZlibRle.Literal` | src/nano_zlib.cc:178-186 | The bits of one literal are emitted. |
| `ZlibRle.ZlibRle.OutputUnemitted` | src/nano_zlib.cc:199-206 | The bytes of the lookahead are emitted as literals, oldest first. |
| `ZlibRle.ZlibRle.OutputRepetitions` | src/nano_zlib.cc:210-248 | One match, or all matches, of the pending run are emitted, each of a legal length. |
| `ZlibRle.ZlibRle.AddByte` | src/nano_zlib.cc:47-169 | One round of the loop on packed state is one step of the model on bytes. |
| `ZlibRle.ZlibRle.Add` | src/nano_zlib.cc:36-172 | A prefix of the input is consumed, all of it unless output room runs out, some of it if there is headroom; no emitted byte is dropped. |
| `ZlibRle.ZlibRle.Finish` | src/nano_zlib.cc:188-197 | The stream is the emitted bits, the end of the block, and zeros; at most seven bytes are added. |
| `ZlibRle.CompressedUnique` | src/nano_zlib.cc:36-260 | The compressed form of an input is unique, so it does not depend on how input or output was divided. |
| `ZlibRle.CompressedSaves` | src/nano_zlib.cc:36-260 | The bytes of a compressed form obey these bounds. |
| `ZlibRle.MissingHeader` | src/nano_zlib.cc:37-41 | What `finish` emits when nothing was added does not inflate. |
| `ZlibRle.RleAdd` | src/primitive_zlib.cc:71-85 | It fails, and changes nothing, exactly if an argument is out of range; otherwise the reported counts are the bytes read and the bytes put at the index, and nothing before it changes. |
| `ZlibRle.ReportRoundTrip` | src/primitive_zlib.cc:75-84 | Both counts are read back from the one number that reports them. |
| `ZlibRle.RleFinish` | src/primitive_zlib.cc:87-97 | It fails exactly if the index is out of range; otherwise the rest of the stream is put at the index, as much as fits, and all of it if seven bytes are free. |
| `ZlibRle.Compress` | src/primitive_zlib.cc:71-97 | After any calls of `rle_add`, each with its own data, buffer and index, and one of `rle_finish`, the parts of the buffers that were written are together the compressed form of what was read, inflate to it, and are as short as its repetitions allow. |
| `ZlibRle.Encoder.WriteSome` | lib/zlib.toit:119-130 | Each round makes progress, because the buffer is flushed at three quarters. |
| `ZlibRle.Encoder.Write` | lib/zlib.toit:117-130 | All of a collection is written, once. |
| `ZlibRle.Encoder.Close` | lib/zlib.toit:132-138 | What was sent inflates to what was written, if anything was, and is as short as its repetitions allow; otherwise it does not inflate. |
| `Adler32.FirstByte` | src/nano_zlib.h:44-58 | What the first byte of a stream contributes to both sums. |
| `Adler32.RemoveFirst` | src/nano_zlib.h:44-58 | Subtracting that modulo 65521 gives the sums without the byte. |
| `Adler32.Adler32.Add` | src/nano_zlib.h:29-38 | The state is the checksum state of RFC 1950 for all data so far, with both sums reduced. |
| `Adler32.Adler32.Unadd` | src/nano_zlib.h:44-58 | It is the state for the data without that prefix. |
| `Adler32.Adler32.Get` | src/nano_zlib.h:60-65 | The four bytes are the checksum, most significant first. |
| `Adler32.ChecksumOfAbc` | src/nano_zlib.h:29-65 | The checksum of `abc` is 0x024d0127. |
| `Probing.ProbesDistinct` | src/interpreter_run.cc:1638-1662 | The first n probes modulo n, a power of two, are pairwise different. |
| `Probing.FirstReturn` | src/interpreter_run.cc:1655-1662 | Among the first 2n - 1 steps only the last returns to the start. |
| `Probing.AllVisited` | src/interpreter_run.cc:1655-1662 | Every slot is among the first n probes. |
| `Probing.NextProbe` | src/primitive_core.cc:2107-2112 | Adding the step and wrapping around leads to the next probe. |
| `HashTable.InsertWellPlaced` | src/primitive_core.cc:2107-2113 | An entry put into the first free slot of its probe sequence keeps every entry reachable from its home slot. |
| `HashTable.ProbingEndsIff` | src/primitive_core.cc:2107-2112 | A probe sequence meets a free slot if and only if there is one. |
| `HashTable.FirstFree` | src/primitive_core.cc:2107-2112 | The loop finds a free slot with only used slots before it, if there is one. |
| `HashTable.RebuildHashIndex` | src/primitive_core.cc:2088-2117 | The new index has the same entries, each as often, and each reachable. |
| `HashTable.RebuildWithin` | src/primitive_core.cc:2088-2117 | With loops that give up after some attempts, the rebuild is completed only if a free slot is left whenever one is looked for, also for the zeros of the old index, and then as many attempts as there are slots are enough. |
| `HashFind.NotThere` | src/interpreter_run.cc:1655-1736 | A search that ends without a match has excluded every live key. |
| `HashFind.InsertCompletes` | src/interpreter_run.cc:1570-1597 | Entering a key in a free or deleted slot of its probe sequence makes the table complete again. |
| `HashFind.Frame.Examine` | src/interpreter_run.cc:1705-1735 | A used slot is passed over, or is a candidate: a live key with the same hash bits. |
| `HashFind.Frame.Search` | src/interpreter_run.cc:1638-1736 | The search stops at a candidate, or at the end with no match passed over. |
| `HashFind.Frame.Enter` | src/interpreter_run.cc:1570-1597 | One slot is filled, the first of the probe sequence that is free or belongs to a tombstone; spaces left goes down exactly if it was free. |
| `HashFind.Frame.Resume` | src/interpreter_run.cc:1496-1736 | In each of the four states, the next call or result that the bytecode makes, and what it has established. |
| `HashedCollection.LowBitsNameHomeIff` | src/primitive_core.cc:2095-2107 | The low bits of all entries name the home slots of their hashes if and only if there are at most 4096 slots. |
| `HashedCollection.SimpleRebuildTable` | lib/core/collections.toit:2153-2187 | A simple rebuild into at most 4096 slots keeps every live key findable. |
| `HashedCollection.NewIndexSize` | lib/core/collections.toit:2004-2014 | The new size is the smallest power of two above the number of entries and an eighth more, and at least twice the old one unless it may shrink. |
| `HashedCollection.NewSpaces` | lib/core/collections.toit:2004-2014 | Of the slots 85 percent may be used, rounded down, or as many as there are keys and one more. |
| `HashedCollection.Compact` | lib/core/collections.toit:2154-2161 | Everything but the tombstones moves to the front, in order. |
| `HashedCollection.FullRebuild` | lib/core/collections.toit:2165-2181 | Entering all live keys again gives a complete table with room for another one. |
| `HashedCollection.SimpleRebuild` | lib/core/collections.toit:2182-2187 | So does the primitive, for small indexes. |
| `HashedCollection.Rebuild` | lib/core/collections.toit:2153-2187 | A rebuild, with or without an old index, shrinking or not, compacting or not, keeps the table, except possibly for the key being inserted, and leaves an index of that size with that many spaces, less the keys. |
| `HashedCollection.RebuildAndRetry` | lib/core/collections.toit:2080-2141 | After a rebuild the new key is entered, found to be entered, or rebuilt once more with the right size. |
| `HashedCollection.FindBody` | lib/core/collections.toit:2080-2141 | An equal live key is found and nothing changes, if and only if there is one; otherwise not_found is called exactly once, and a key that it appends is entered together with all others. A key that is already appended is entered without calling it. |
| `HashDo.LiveFromSkip` | src/interpreter_core.cc:302-319 | Skipping over tombstones loses no entry. |
| `HashDo.SetSkip` | src/interpreter_core.cc:286-299 | Recording a distance over tombstones keeps all distances safe. |
| `HashDo.RemoveKeepsValid` | lib/core/collections.toit:2515-2522 | So does removing entries. |
| `HashDo.AppendKeepsValid` | lib/core/collections.toit:2544-2550 | So does appending, because no distance leads past the end. |
| `HashDo.PassTombs` | src/interpreter_core.cc:277-320 | The loop stops at the next entry or the end, with only tombstones passed. |
| `HashDo.HashDo` | src/interpreter_core.cc:234-321 | The next entry of a plain scan is delivered, with its value in a map, and with at most the distance to it recorded; or there is none; or, at a shared tombstone only, the bail-out index is where the scan is. |
| `HashDo.SkipForward` | lib/core/collections.toit:1968-1979 | The distance used and recorded passes tombstones only. |
| `HashDo.SkipBackward` | lib/core/collections.toit:1985-1996 | The same, backwards. |
| `HashDo.Continue` | lib/core/collections.toit:2304-2333 | The loop after a bail-out delivers exactly the remaining entries. |
| `HashDo.Do` | lib/core/collections.toit:2696-2726 | A whole iteration calls the block with exactly the live keys, in maps with their values, in order, and changes skip distances only. |
| `Insertion.CountIsLength` | lib/core/collections.toit:1926-1929 | The number of live keys is the number of entries. |
| `Insertion.RemovedEntries` | lib/core/collections.toit:2515-2522 | Putting tombstones for a key and its value removes one entry and keeps the order of the others. |
| `Insertion.ChangedEntry` | lib/core/collections.toit:2544-2553 | Replacing the key of a set, or the value of a map, changes one entry in its place. |
| `Insertion.CompactedEntries` | lib/core/collections.toit:2154-2161 | Compacting the backing keeps the list of entries. |
| `Insertion.ScanForwards` | lib/core/collections.toit:2304-2333 | A scan with the stride of the collection sees the entries in order. |
| `Insertion.ScanBackwards` | lib/core/collections.toit:2304-2333 | A backward scan sees them in reverse order. |
| `Insertion.SameEntries` | src/interpreter_core.cc:286-299 | Recording skip distances does not change the entries. |
| `Hashed.AfterIsUnique` | lib/core/collections.toit:2288-2295 | No operation makes two keys equal. |
| `Hashed.LookupAfter` | lib/core/collections.toit:2544-2553 | After an operation a lookup of an equal key gives what it stored, and of any other key what it gave before. |
| `Hashed.LookupAfterAll` | lib/core/collections.toit:2515-2553 | After any operations a lookup gives what the last one on an equal key has left. |
| `Hashed.Hashed.constructor` | lib/core/collections.toit:1904-1910 | A new collection is empty. |
| `Hashed.Hashed.Find` | lib/core/collections.toit:2032-2061 | With or without an index, the entry of an equal key is found if and only if there is one; otherwise not_found is called once, and what it appends is an entry. |
| `Hashed.Hashed.Store` | lib/core/collections.toit:2288-2295 | Adding to a set, or setting in a map, gives the list of entries that it is meant to give. |
| `Hashed.Hashed.Contains` | lib/core/collections.toit:1936-1938 | True exactly if there is an entry with an equal key. |
| `Hashed.Hashed.Get` | lib/core/collections.toit:2535-2538 | The value of that entry. |
| `Hashed.Hashed.Remove` | lib/core/collections.toit:2515-2522 | The entry with an equal key is gone, also when the collection shrinks afterwards, and whether there was one is reported. |
| `Hashed.Hashed.ShrinkIfNeeded` | lib/core/collections.toit:2524-2526 | Shrinking keeps the entries and the table. |
| `Hashed.Hashed.Do` | lib/core/collections.toit:2696-2726 | The block is called for the entries in the order of insertion, or in reverse. |
| `Hashed.Run` | lib/core/collections.toit:2032-2187 | Any operations, beginning with an empty collection, leave the list of entries that they are meant to leave. |
| `History.SinceIs` | lib/core/collections.toit:2515-2553 | The operation at which a key came in, computed from the end of the operations, is the one that stores an equal key, has none before it since the last removal, and no removal behind it; there is one exactly if some store is not followed by a removal. |
| `History.EntriesInOrder` | lib/core/collections.toit:2288-2295 | The entries are strictly ordered by these operations; the key of an entry is the one given there in a map, and the one given last in a set, and the value is the one given last. |
| `History.RunAndDo` | lib/core/collections.toit:2696-2726 | After any operations, a `do` calls its block once for each key that came in and was not removed, in the order in which they came in, or in reverse, with the key of that operation and the last value in a map, and the last key in a set. |
| `Unwind.ReasonRoundTrip` | src/interpreter_run.cc:1066-1108 | The reason word tells throws, returns and branches apart, with their arguments. |
| `Unwind.HandlersOfChain` | src/interpreter_run.cc:1127-1160 | The chain moves strictly toward the base, and its links beyond the target are a prefix of it. |
| `Unwind.LinkedAbove` | src/interpreter_run.cc:1110-1125 | Pushing and popping above the links keeps the chain. |
| `Unwind.BaseIsTarget` | src/interpreter_run.cc:1020-1029 | No link lies across the base. |
| `Unwind.Interpreter.Throw` | src/interpreter_run.cc:1020-1029 | The stack is set up for unwinding to the base with the exception, which is a target on every chain of links. |
| `Unwind.Interpreter.NonLocalReturn` | src/interpreter_run.cc:1066-1091 | It is set up for unwinding to the frame that the block lives in. |
| `Unwind.Interpreter.NonLocalBranch` | src/interpreter_run.cc:1093-1108 | It is set up for unwinding to the block's home method and position. |
| `Unwind.Interpreter.EnterTry` | src/compiler/byte_gen.cc:360-368 | LINK, the block pointer and the call of the body make a chain with one more link, whose handler is at the return address. |
| `Unwind.Interpreter.EnterFinally` | src/compiler/byte_gen.cc:369-372 | Dropping the result and UNLINK give the chain from before the LINK, with the three words for the UNWIND on top. |
| `Unwind.Interpreter.UnwindStep` | src/interpreter_run.cc:1127-1228 | The innermost handler beyond the target is entered with the words that continue the unwind; or the target is reached with the right stack, result and position. |
| `Unwind.AfterBody` | src/interpreter_run.cc:1127-1228 | A finally body that completes normally leaves the unwind on its way, one handler further. |
| `Unwind.RunUnwind` | src/interpreter_run.cc:1020-1228 | The handlers that run are exactly those beyond the target, innermost first, each once; then the target continues with the value. |
| `Unwind.TryNormally` | src/compiler/byte_gen.cc:355-395 | A try statement whose body and handler complete normally restores the chain and the height of the stack. |
| `TryFinally.CatchReturnsException` | lib/core/exceptions.toit:122-137 | A `catch` returns the exception of its block, null if there is none, and lets returns and branches out of the block pass. |
| `TryFinally.ExecExit` | src/compiler/byte_gen.cc:855-892 | Leaving a call or scope of the same activation directly skips no finally; through a block it goes by way of the innermost finally in between, if there is one. |
| `TryFinally.ExecScope` | src/compiler/byte_gen.cc:504-519 | A branch out of a scope continues behind it with the stack from before it. |
| `TryFinally.ExecCall` | src/interpreter_run.cc:1031-1064 | A return from a call, local or not, continues behind it with the result and the stack from before it. |
| `TryFinally.ExecTryBody` | src/compiler/byte_gen.cc:355-372 | However the body of a try completes, its finally is entered next, at the return address, with the chain from before the try and with words that tell how the body completed. |
| `TryFinally.ExecFinally` | src/compiler/byte_gen.cc:372-395 | The finally sees whether there is an exception and which; behind it the completion of the body goes on, unless the finally has its own. |
| `TryFinally.Exec` | src/interpreter_run.cc:1020-1228 | Every piece of code has the events and the completion that the structure says, and leaves stack, chain and address as that completion demands. |
| `TryFinally.RunProgram` | src/interpreter_run.cc:1020-1228 | A whole program has the events that its structure says, and ends with an empty stack and no link, or is fatal, exactly if an exception leaves it. |
| `FinallyLaws.AllClean` | src/compiler/byte_gen.cc:355-395 | A marked program, however it completes, has left each try that it entered, innermost first, with everything it emits belonging to the innermost open try. |
| `FinallyLaws.AllOnce` | src/compiler/byte_gen.cc:355-395 | In its events each try is entered at most once, and left as often. |
| `FinallyLaws.RunMarked` | src/interpreter_run.cc:1020-1228 | Both hold of what the interpreter does with any program that is marked. |
| `FinallyLaws.CompletionSurvives` | src/interpreter_run.cc:1127-1228 | Inside any number of tries whose finallys complete normally, code completes as it does outside, and its events are followed by those of the finallys, innermost first. |
| `FinallyLaws.FinallySees` | src/compiler/byte_gen.cc:372-395 | An exception is seen by the exception part of a finally, through other finallys; every other completion leads to the other part. |
| `FinallyLaws.FinallyOverrides` | src/compiler/byte_gen.cc:372-395 | A finally that returns, branches or throws does so whatever its body does. |
| `FinallyLaws.ReturnArrives` | src/interpreter_run.cc:1066-1091 | A value returned through tries is the result of the call. |
| `FinallyLaws.ThrowArrives` | lib/core/exceptions.toit:122-137 | A value thrown through tries is the result of the `catch`. |
| `FinallyLaws.BranchArrives` | src/interpreter_run.cc:1093-1108 | A branch through tries continues behind its scope, whether that is the innermost or the next, and skips what is left of it. |
| `FinallyLaws.ReturnThroughTries` | src/interpreter_run.cc:1066-1228 | On the interpreter, the last event of a call that returns a value through tries is that value. |
| `FinallyLaws.ReturnFromTry` | src/compiler/byte_gen.cc:355-395 | The whole trace of a return from the middle of a try. |
| `FinallyLaws.CatchFromTry` | lib/core/exceptions.toit:122-137 | The whole trace of an exception that passes a finally and is caught. |
| `FinallyLaws.BreakFromTry` | src/compiler/byte_gen.cc:355-395 | The whole trace of a branch out of a try. |
| `StackGrowth.Stack.CopyTo` | src/objects.cc:278-289 | What is on the stack, and the innermost try, are at the same distances from the new base, if there is room for them. |
| `StackGrowth.Interpreter.LoadStack` | src/interpreter.cc:61-73 | The loaded stack is the stored one, and a request for preemption is not lost. |
| `StackGrowth.Interpreter.StoreStack` | src/interpreter.cc:75-88 | The stored stack is the loaded one. |
| `StackGrowth.Interpreter.NewLength` | src/interpreter.cc:223-236 | A length is found exactly if the call fits into a stack of the maximal length, and then the call fits into that length, which is one and a half times the old one, or what is needed if that is more, or the maximum. |
| `StackGrowth.Interpreter.AllocateStack` | src/interpreter.cc:244-257 | Four attempts with garbage collections between them; the contents survive, wherever the stack is moved. |
| `StackGrowth.Interpreter.HandleStackOverflow` | src/interpreter.cc:214-271 | The three outcomes occur exactly when they should; growing keeps the contents and gives that length, and the call then passes the check with a frame to spare. |
| `StackGrowth.Interpreter.CheckStackOverflow` | src/interpreter_run.cc:143-160 | When a call goes ahead there is room for it; blocks made before lead to the same contents after. |
| `Preemption.InvAlways` | src/interpreter.cc:51-88 | In every reachable state the watermark is the marker, or what the interpreter itself put there. |
| `Preemption.MarkerStays` | src/interpreter.cc:61-88 | Once set, the marker stays until it is consumed, under every interleaving. |
| `Preemption.CheckLeadsOut` | src/interpreter_run.cc:143-172 | From the first check after a request on, of either kind, the interpreter takes no step before it consumes the request, except for handling the check once. |
| `Preemption.ConsumedMeansPreempted` | src/interpreter_run.cc:149-172 | After consuming it the interpreter does nothing but stop with that result. |
| `Preemption.ConsumedOnce` | src/interpreter.cc:214-220 | Between two consumptions lies another request. |
| `Preemption.CheckIsExact` | src/interpreter_run.cc:143-147 | Without a request, the check compares with the end of the usable stack. |
| `Preemption.LoopsEnd` | src/interpreter.cc:67-71 | Only a request makes an exchange fail, and then the loop ends. |
| `Preemption.CanBePreempted` | src/interpreter_run.cc:143-172 | From every reachable state in which the interpreter runs, a request, a check and the way out lead to a stop with no request left. |
| `Preemption.CanBeStarted` | src/interpreter.cc:61-73 | From every reachable state in which it has stopped and there is no request, loading a stack installs the watermark of that stack. |
| `Wire.FixedRoundTrip` | src/messaging.cc:696-716 | A number that fits into some bytes is read back from them. |
| `Wire.PointersOfParts` | src/messaging.cc:533-537 | The pointers of a value are those of its parts, however deep in arrays and maps. |
| `Wire.NoMapsInParts` | src/messaging.cc:522-556 | A value has no maps exactly if none of its parts is one. |
| `MessageDecoder.MessageDecoder.ReadCardinal` | src/messaging.cc:682-694 | Whatever bytes there are, the result is the number that their low seven bits spell up to the first byte without the high bit, and zero if the end comes first. |
| `MessageDecoder.MessageDecoder.HoldsCardinal` | src/messaging.cc:387-393 | For an encoded cardinal that is the encoded number, and its end is the end of the encoding. |
| `MessageDecoder.ValueBytes` | src/messaging.cc:133-208 | The bytes of a number, a negative number, null, the booleans, a double and a large integer, one of each. |
| `MessageDecoder.PointerBytes` | src/messaging.cc:364-380 | The bytes of a string and of a byte array behind a pointer. |
| `MessageDecoder.MessageBytes` | src/messaging.cc:109-131 | The bytes of inline texts, of a map, and of a whole TISON message with an array. |
| `MessageDecoder.MessageDecoder.EncodedIsSpelled` | src/messaging.cc:133-208 | The bytes of an encoded value spell that value, and end where they end. |
| `MessageDecoder.MessageDecoder.DecodeInline` | src/messaging.cc:558-574 | Whatever the bytes are, the text is what lies behind its length, unless the length is cut off; memory behind the buffer is read exactly if the text is not empty and ends there. |
| `MessageDecoder.MessageDecoder.DecodeExternal` | src/messaging.cc:443-452 | A pointer is registered if it is one of the first eight; the ninth is fatal. It is malformed exactly in TISON, or when the length is cut off. |
| `MessageDecoder.MessageDecoder.DecodeAny` | src/messaging.cc:477-513 | Whatever the bytes are: what is decoded is a value that they spell, up to the cursor, with all its pointers registered; and if they spell a value then it is decoded, or is fatal because it has too many pointers. Reading behind the buffer leaves the cursor behind it. |
| `MessageDecoder.MessageDecoder.DecodeTison` | src/messaging.cc:454-475 | Whatever the buffer holds, a value is the result if and only if the buffer is the marker, the length of the rest, and bytes that spell the value to the end. Every proper prefix and every extension of an encoded message is malformed, and is recognized inside the buffer. Nothing is accepted that was read from behind it, and nothing is read there without a marker and the right length; a text as payload is read there exactly if it ends there. |
| `MessageDecoder.TextBehindBuffer` | src/messaging.cc:454-475 | A message of seven bytes is malformed, but a text is read behind it. |
| `MessageDecoder.MessageDecoder.Deallocate` | src/messaging.cc:522-556 | If the bytes spell a value, exactly these are consumed and each of its pointers is freed, in order; with a map, and only then, it is fatal. A tag that is not known is fatal. |
| `Encoding.RepresentsSound` | src/messaging.cc:133-271 | All encodings of an object have the same size, and the decoder accepts them. |
| `Encoding.TisonNeedsNothing` | src/messaging.cc:273-276 | A TISON message needs no memory beside it. |
| `Encoding.MapsIff` | src/messaging.cc:233-271 | A message contains a map exactly if the object does, within what its slices select. |
| `Encoding.ElementsIff` | src/messaging.cc:210-231 | A list is encodable exactly if it is not more than eight deep and every element of its range is encodable. |
| `Encoding.MapIff` | src/messaging.cc:233-271 | A map is, exactly if its keys that are not removed and their values are. |
| `Encoding.LeafIff` | src/messaging.cc:133-208 | Everything else is, except texts whose bytes cannot be had, structs in TISON, and objects of other classes. |
| `Received.RepresentsStands` | src/messaging.cc:173-271 | In a value that represents an object, each text has the bytes of its slice at their positions, each list the elements of its range, each map the pairs at the first slots that are not tombstones, down to the leaves. |
| `MessageEncoder.MessageEncoder.WriteCardinal` | src/messaging.cc:387-393 | Seven bits per byte are written, or counted when there is no buffer. |
| `MessageEncoder.MessageEncoder.EncodeCopy` | src/messaging.cc:333-380 | Small texts, and all in TISON, are written inline, others behind a pointer to a new block; it fails exactly if there is no block or no place for it, and in the second case the block is lost. |
| `MessageEncoder.MessageEncoder.EncodeByteArray` | src/messaging.cc:273-292 | In an IPC message an external byte array is handed over by its address, whatever it holds, and it fails exactly for the ninth; in TISON its bytes are copied, if it holds raw bytes. Only the size pass remembers which array it was. |
| `MessageEncoder.MessageEncoder.EncodeArray` | src/messaging.cc:210-231 | The elements of the range are encoded in order; it succeeds exactly if each of them can be. |
| `MessageEncoder.MessageEncoder.EncodeMap` | src/messaging.cc:233-271 | The live pairs are encoded in order, tombstones are dropped; it succeeds exactly if each can be. |
| `MessageEncoder.MessageEncoder.EncodeAny` | src/messaging.cc:133-208 | What is written stands for the object, with all blocks accounted for; it succeeds exactly if the object is encodable at this nesting and there is memory. A failure for lack of memory or places loses a block exactly if there are more than eight. |
| `MessageEncoder.MessageEncoder.EncodeTison` | src/messaging.cc:109-131 | Both passes end at the length of the message, and the second one writes it. |
| `MessageEncoder.TisonEncode` | src/primitive_encoding.cc:141-162 | The result is exactly the message, if the object is encodable, and an error otherwise; the value in it stands for the object, position by position. |
| `MessageEncoder.TisonRoundTrip` | src/primitive_encoding.cc:141-171 | Every encodable object comes back as a value that stands for it, position by position: texts as the bytes that the slice selects, lists as their range, maps without tombstones. |
| `MessageEncoder.SliceRoundTrip` | src/objects.cc:66-69 | A slice of a string comes back as the bytes from its start up to its end. |
| `MessageEncoder.IpcEncode` | src/primitive_core.cc:1878-1896 | If the object is encodable and there are blocks enough, the message takes exactly the blocks it needs, and its pointers are these and the addresses of the object's external byte arrays, each as often. A failure loses the ninth block under an exact condition on object and blocks, and none otherwise. |
| `MessageEncoder.NinthBlockLost` | src/messaging.cc:364-372 | A list of nine long strings, with nine blocks, is refused and costs a block. |
| `MessageEncoder.IpcRoundTrip` | src/primitive_core.cc:1977-1990 | A sent message is received as a value that stands for the object, position by position, with the pointers of the message, if and only if blocks and external byte arrays are at most eight together; otherwise it is fatal. |
| `MessageEncoder.NinePointers` | src/messaging.cc:443-452 | Eight long strings and an external byte array fit the two tables of the encoder and not the one of the decoder. |
| `MessageEncoder.NinthPointerFatal` | src/messaging.cc:443-452 | They are sent, and stop the receiver. |
| `MessageEncoder.IpcDiscard` | src/messaging.cc:522-556 | Discarding a message is fatal exactly if the object contains a map; otherwise exactly these are freed, and none of them twice if and only if they are all different. |
| `MessageEncoder.EmptyMapFatal` | src/messaging.cc:522-556 | An empty map is sent, and discarding it is fatal. |
| `MessageEncoder.HandedTwice` | src/messaging.cc:273-292 | A list with the same external byte array twice is encodable and hands its memory over twice. |
| `MessageEncoder.FreedTwice` | src/messaging.cc:522-556 | Discarding that message frees the memory twice. |
| `Finalizers.Fifo.Append` | src/linked.h:367-374 | The node is the last one, and the tail points to it. |
| `Finalizers.Fifo.RemoveFirst` | src/linked.h:330-334 | The first node leaves the list and is linked to nothing. |
| `Finalizers.Fifo.Round` | src/linked.h:247-281 | One round of the removal, with the node possibly relinked into another list meanwhile, keeps both lists linked, distinct and with correct tails. |
| `Finalizers.Fifo.RemoveDead` | src/linked.h:350-356 | Live nodes stay in order; dead ones move in order to the end of the other list and lose their keys. |
| `Finalizers.Fifo.Contains` | src/heap.cc:371-376 | Whether some node has the key. |
| `Finalizers.ObjectHeap.AddFinalizer` | src/primitive_core.cc:2003-2008 | A new node is the last registered one; it is refused exactly if the key has one already, and fails exactly if there is no memory for it, changing nothing. |
| `Finalizers.ObjectHeap.ProcessRegisteredFinalizers` | src/heap.cc:334-352 | Registered are the live nodes, runnable are the old runnable and then the dead ones, each behind as many others as before it were live, or dead; every node is in exactly one place. |
| `Finalizers.ObjectHeap.RemoveFinalizer` | src/heap.cc:395-406 | Exactly the nodes of that key are gone, and whether there were any is reported. |
| `Finalizers.ObjectHeap.NextFinalizerToRun` | src/heap.cc:421-430 | The runnable finalizers run in order, and none runs again. |
| `Finalizers.SelectParts` | src/heap.cc:334-352 | Live and dead nodes together are all nodes. |
| `Finalizers.SelectIsPicked` | src/heap.cc:334-352 | Of the live nodes, as of the dead ones, each stands behind exactly those that stood before it. |
| `Locking.InvAlways` | src/os_posix.cc:137-162 | In every state of every run, levels strictly increase along each thread's lockers and each mutex has one holder. |
| `Locking.FatalIff` | src/os_posix.cc:145-154 | Comparing with the innermost locker fails exactly if some held level is not below the wanted one. |
| `Locking.NoCycle` | src/os_posix.cc:145-162 | No thread waits for itself, directly or through others. |
| `Locking.Progress` | src/os_posix.cc:137-162 | Whenever a thread is blocked, some thread that holds a lock has a step to take. |
| `Archive.WriteString` | src/ar.cc:49-61 | The field holds the text, cut off or filled up with spaces, and nothing else changes. |
| `Archive.WriteDigits` | src/ar.cc:67-72 | The digits are at the end of the field if there are places for them; otherwise the loop runs out of the field. |
| `Archive.WriteNumber` | src/ar.cc:63-82 | The field holds the number, left-aligned, if there are places for its digits; otherwise it is not trimmed, but the field and the byte behind it are filled with the byte before it. |
| `Archive.NumbersFit` | src/ar.cc:92-122 | All numbers that are written fit their fields. |
| `Archive.ArchiveBytes` | src/ar.cc:92-152 | The bytes of an archive's header and of the entry of a file with three bytes. |
| `Archive.WriteHeader` | src/ar.cc:92-122 | The 60 bytes are the header of the file. |
| `Archive.MemoryBuilder.Add` | src/ar.cc:136-152 | The archive is the old one and the entry of the file, if the size remains an int; without memory it is lost. |
| `Archive.NameKeptIff` | src/ar.cc:212-228 | A name survives if and only if it has at most 16 bytes and does not end in a space or a slash. |
| `Archive.ParseSize` | src/ar.cc:197-210 | The result is the number that the digits at the start of the field spell, if they fill it or a space follows, and an error otherwise. |
| `Archive.SizeInField` | src/ar.cc:63-82 | The size of a written header is read back. |
| `Archive.ParseName` | src/ar.cc:212-228 | Spaces at the end, and one slash before them, are removed. |
| `Archive.MemoryReader.Next` | src/ar.cc:232-253 | Whatever the bytes are, an entry is read exactly if there is one behind the header of the archive, and the end is reported exactly there. On a built archive the next file is returned with its content, and after the last one the end. |
| `Archive.MemoryReader.Find` | src/ar.cc:255-273 | The first file of that name is found; if there is none, that is the result. |
| `Archive.RoundTrip` | src/ar.cc:128-253 | What is put into an archive comes out again, in order, if the size of the archive is an int. |
| `Blur.SumOfRow` | src/primitive_bitmap.cc:953-962 | The coefficients add up to the power of two that the sum is divided by. |
| `Blur.TableIsPascal` | src/primitive_bitmap.cc:953-962 | The table holds binomial coefficients. |
| `Blur.AverageFits` | src/primitive_bitmap.cc:1003-1012 | Every average fits a byte. |
| `Blur.AverageIs` | src/primitive_bitmap.cc:1003-1013 | The average is the weighted sum divided by the power of two, rounded down. |
| `Blur.DotOfOne` | src/primitive_bitmap.cc:1003-1012 | The sum over a single pixel is that pixel times its coefficient. |
| `Blur.DotAdds` | src/primitive_bitmap.cc:1003-1012 | The sum over a sum of lines is the sum of the sums. |
| `Blur.OnePixelSpreads` | src/primitive_bitmap.cc:953-1013 | A single pixel among zeros contributes to each pixel within the radius by its coefficient in the table. |
| `Blur.BlurLine` | src/primitive_bitmap.cc:1001-1021 | With a delay of 16 pixels, every pixel that is not too close to an end becomes the weighted sum of the original pixels around it, divided by the power of two and rounded down. |
| `Blur.Pixel` | src/primitive_bitmap.cc:995-1046 | After both passes a pixel is the average of averages. |
| `Blur.BytemapBlur` | src/primitive_bitmap.cc:972-1049 | All inner pixels are as blurred out of place: first each row, then each column of that, is weighted, divided and rounded down; errors occur exactly for bad arguments, and change nothing. |
| `Blur.ThreePixels` | src/primitive_bitmap.cc:972-1049 | Of three pixels in a row with 8 in the middle, the middle one becomes a quarter of its neighbours and 16. |

## Left out

- HashedCollection.FindBody: sizes and 85 percent of them are exact integers here, where the library computes with floating point; indexes and backings are unbounded, and allocation does not fail.
- HashFind.Frame.Resume: does not model the bail-outs for arguments that the library never passes.
- Hashed.Hashed.Find: equality is an equivalence that agrees with the hash codes, as the library demands of keys; blocks that change the collection while it is searched are not covered, and neither are the other uses of `find_`, such as `get` with a block to initialize.
- Adler32.Adler32.Add: the count stays below 2^31; where the 32-bit count would overflow, nothing is claimed.
- HashDo.HashDo: does not model the bail-outs for a wrong block arity; blocks that change the collection during an iteration are not covered.
- Unwind.RunUnwind: covers finally bodies that complete normally; `TryFinally.Exec` covers those that do not.
- TryFinally.Exec: methods are laid out where they are called, so there is no recursion; local variables other than the exception, and the boolean beside it, are not modelled, and the compiler's choice of shorter bytecodes is not either.
- TryFinally.CatchReturnsException: a `catch` that neither prints a trace nor unwinds; the blocks that decide about these, and the exception for canceled tasks, are left out.
- Unwind.Interpreter.Throw: an exception without any handler is fatal here, as it is for the interpreter; the entry stub that always installs one is not modelled.
- StackGrowth.Interpreter.HandleStackOverflow: does not model the pushing of the exception, and a request that arrives in the middle is covered by `Preemption` only.
- Preemption.MarkerStays: the accesses to the watermark are sequentially consistent, as they are by default for atomics.
- MessageEncoder.MessageEncoder.EncodeAny: lengths are unbounded where the code uses ints; large arrays, which the encoder refuses, count as unsupported; the texts behind pointers are not followed, and neutering external byte arrays after sending is not modelled, since the array table is filled by the other pass.
- MessageEncoder.IpcRoundTrip: as `IpcDiscard`, requires the message to be no longer than the largest int.
- MessageEncoder.IpcDiscard: requires the message to be no longer than the largest int, which is the buffer size that the decoder assumes.
- MessageDecoder.MessageDecoder.DecodeAny: lengths are unbounded where the code uses ints; allocation failures are not modelled, and neither is the accounting for the registered memory once a message is decoded.
- Finalizers.ObjectHeap.ProcessRegisteredFinalizers: liveness and the forwarding of references are parameters; tracing output and the finalizers of the virtual machine itself, which run the same loop, are left out.
- Locking.Progress: the chain of lockers of a thread is a sequence instead of linked objects; condition variables and the temporary unlocking by an `Unlocker`, which is a leave and an enter, are not separate steps.
- Archive.MemoryBuilder.Add: requires the archive to be no longer than the largest int; the code computes the new size as an int, and what happens when that overflows is undefined.
- Archive.RoundTrip: as `Archive.MemoryBuilder.Add`.
- Archive.WriteNumber: the comment in the code says that a number that does not fit is trimmed; it is not, but no number that is written is that large.
- Archive.MemoryReader.Next: sizes in foreign archives are unbounded numbers; running out of memory is not modelled, and file access is left out.
- Blur.BytemapBlur: pixels near the edges are unspecified, as the original says.
- Gzip and zlib framing, the uncompressed encoder, the miniz based primitives.
- `fast_at`, number comparison, and the other bytecodes: they would only add easy members.
- Garbage collection, the scheduler, flash, networking, cryptography, fonts and the other bitmap operations.
