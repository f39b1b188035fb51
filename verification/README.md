# jevmachopp, modelled and proved

This project models the stateful and arithmetic core of jevmachopp, a C++ library and tool set for Mach-O files
and for booting XNU kernels on bare metal, and proves what that code is for.

* **The single-producer, multi-consumer ring buffer** (`SpmcRing`, `SpmcInvariant`, `SpmcRefinement`,
  `SpmcCalls`, `SpmcHarness`, `SpmcProgress`, `SpmcTermination`) is a transition system. One event is one access to
  shared memory: an atomic load of the index pair, one *word* of a slot written or copied, the publishing store, a
  compare-and-swap. Words move in any order and race with the other threads. Main results: every interleaving
  refines a FIFO queue of capacity N - 1 (`RefinesQueue`), each completed call is one operation of it
  (`PopsAreOperations`, `PushesAreOperations`), torn copies never get out (`PopIsUntorn`), a finished harness run
  partitions the pushed sequence (`TerminatedRunPartitions`, `HarnessChecksPass`), every run can be completed
  (`CanFinish`), its work is bounded and every fair schedule terminates (`WorkBounded`, `FairRunsTerminate`), and
  failed compare-and-swaps are bounded (`FailuresBounded`).
* **The sequential ring buffer** (`RingBuffers`) is a class over an array that stands for doubly mapped memory,
  proved against a queue; `RingSizing` is the compile-time choice of its size.
* **The NVRAM escape codec** (`NvramEscape`, `NvramCodec`): round trip, zero-freedom, exact length and optimality
  of the greedy encoder, and the loops proved against them, with the exact conditions under which they leave
  their spans.
* **The function-start lookup** (`Uleb128`, `LebIterator`, `FunctionStarts`): each layer, from bytes over the
  backward scan, the bidirectional iterator and the running sum to the floor lookup, refines a list of deltas.
* **The XNU relocation** (`AddrRanges`, `JumpStub`, `MemoryMap`, `XnuBoot`): layout, in-place map rewriting and
  the overlapping copy compose into `BootedMapIsTrue`, and `Boot` runs them.
* **The flattened device tree** (`DeviceTree`) and **the hex parser** (`Hex`).

`Bits` holds bytes and wrapping arithmetic, `Wrappers` an option type. Indices, addresses and counters are
unbounded naturals reduced modulo 2^64 or 2^32 where the code wraps. `dafny verify dfyconfig.toml` checks
everything.

Some intended properties do not hold of the code. For each, a lemma gives an input that breaks it and another the
exact condition under which it holds:

| intended | breaks on | holds exactly when |
|---|---|---|
| `emplace_multiple` stays in its two mappings if the span fits `remaining()` | `RemainingDoesNotBoundBlock` | `EmplaceMultiple`: wr_idx + n <= 2N |
| the second mapping starts where the mirror pointer is | `StaticAssertIsNotEnough` | `MirrorMeetsIff`: the pointer lies on a page boundary |
| an encoder span as large as the data is large enough | `LiteralsOverrun` | `EscapeDataToData`: body and terminator fit |
| the decoder reads the encoder's output back | `RunCannotBeReadBack` | `SelfDecodeIff`: the span has the body's size and the data is no longer |
| `--` works at every position of a ULEB128 buffer | `StepBackCanAssert`, `LookupCanAssert` | `RetreatAt`, `AlwaysSafeIff`: the number there is no longer than what precedes it |
| every function start is searched | `MissingTerminator` | `ZeroTerminatorIff`: the last delta is 0 |
| the two address views agree | `ViewsCanDisagree` | `ViewsAgreeIff`: the text segment's file offset is 0 |
| the harness finishes | `OneSlotBlocks` | `CanFinishIff`: the buffer has two slots or more, or nothing is pushed |
| the stub's loop ends | `StubCanRunOn` | `StubStopsIff`: the size is a multiple of 16 |
| its copy is a correct move | `OverlapLosesByte` | `StubCorrectIff`: the destination is not above the source, or from its end on, or there is one round |
| the stub survives its own copy | `StubCanOverwriteItself` | `StubIntactIff`, `Boot`: the new place is not above the payload, or from the stub's end on |
| an entry gets its segment's name | `NameCanRunOn` | `PrintedNameIff`: the name field is terminated, or vmaddr ends in a zero byte |
| blanked entries keep the names distinct | `NamesCanCollide` | `NamesStayDistinctIff`: no kept entry has a name that is given away |
| `children()` lists the children; `node_sizeof()` is the length | `NodeSizeCanBeWrong` | `ChildrenExactIff`, `NodeSizeExactIff`: only last children have children |

The code is followed where its comments say otherwise: lib/jevmachopp/XNUBoot.cpp:200-201 calls the firmware's
register wrong, but the address written there is the one after the move (`MappedRegisters`).

## Model

| member | source | states |
|---|---|---|
| SpmcRing.SlotOfMaskedIndex | include/jevmachopp/RingBuffer.h:347-354 | Masking a raw index and following the mirror mapping leads to the physical slot raw mod N, so element v and element v + N are the same memory. |
| SpmcInvariant.FullMarkExact | include/jevmachopp/RingBuffer.h:79-83 | The wrapping test `rd == wr - N + 1` holds exactly when N - 1 values are queued, also while its right side wraps below zero. |
| SpmcInvariant.EmplaceReturnsArgument | include/jevmachopp/RingBuffer.h:86-89 | The copy read back out of the slot before publication is the whole value that was pushed, whatever the consumers do meanwhile. |
| SpmcInvariant.RunInv | include/jevmachopp/RingBuffer.h:70-182 | Every state reached by any interleaving of one producer and any number of consumers satisfies the invariant: every queued value is whole in its slot, no unpublished write touches one, and a copy is torn only after the read index has passed it. |
| SpmcRefinement.StepRefines | include/jevmachopp/RingBuffer.h:70-182 | Each memory access is one step, or none, of a FIFO queue of capacity N - 1; the labels carry the arguments and results actually passed. |
| SpmcRefinement.RefinesQueue | include/jevmachopp/RingBuffer.h:70-182 | The trace of every run is an execution of the FIFO queue that ends with the contents inputs[rd..wr]. |
| SpmcRefinement.AssertionsHold | include/jevmachopp/RingBuffer.h:171 | No assertion in pop, empty or finish fails in any run: rd <= wr in every pair loaded. |
| SpmcRefinement.PoppedIsPrefix | include/jevmachopp/RingBuffer.h:157-182 | The values returned, in compare-and-swap order, are a prefix of the values pushed, and fewer than N are outstanding. |
| SpmcRefinement.PopIsUntorn | doc/concurrency-notes.txt:41-68 | A copy with partial garbage in any word can only end in a failed compare-and-swap, which starts the loop again; a successful one returns the whole value pushed at that index. |
| SpmcRefinement.ResultsAreDequeues | tools/jev-ringbuf/jev-ringbuf.cpp:40-52 | A consumer's result list is exactly the values its own dequeues returned, in order. |
| SpmcCalls.PopIsOneOperation | include/jevmachopp/RingBuffer.h:157-182 | A step ends a consumer's pop exactly if it is a dequeue, or a dequeue of nothing, by that consumer, and the call returns what was dequeued; after a lost compare-and-swap pop goes on. |
| SpmcCalls.PopsAreOperations | include/jevmachopp/RingBuffer.h:157-182 | In every run the completed calls of pop are, one for one and in order, the consumer's operations on the queue. |
| SpmcCalls.PushesAreOperations | include/jevmachopp/RingBuffer.h:70-91 | In every run the completed calls of push are the enqueues, one each, of the first inputs in order. |
| SpmcCalls.LoopEndsIff | tools/jev-ringbuf/jev-ringbuf.cpp:40 | A consumer leaves its loop exactly when `empty()` finds nothing, and `done` has been set by then. |
| SpmcHarness.NothingLostOrDuplicated | tools/jev-ringbuf/jev-ringbuf.cpp:38-55 | At every moment of every run the result lists together hold each value taken exactly once. |
| SpmcHarness.TerminatedRunPartitions | tools/jev-ringbuf/jev-ringbuf.cpp:31-61 | When all threads have returned, the result lists together are the pushed sequence as a multiset: reading `is_done()` before `empty()` loses nothing. |
| SpmcHarness.ResultsInPushOrder | tools/jev-ringbuf/jev-ringbuf.cpp:97-106 | Each result list reads the pushed sequence at strictly increasing indices. |
| SpmcHarness.HarnessChecksPass | tools/jev-ringbuf/jev-ringbuf.cpp:87-110 | For pushes 1..n: the sizes add up to n, twice the sum is n(n+1), and every list is strictly increasing. |
| SpmcHarness.FailuresBounded | include/jevmachopp/RingBuffer.h:167-179 | Lock freedom: with C consumers, the compare-and-swaps of a run that find the read index moved number at most C - 1 per value delivered. |
| SpmcProgress.CanFinish | tools/jev-ringbuf/jev-ringbuf.cpp:31-61 | From whatever state an interleaving has reached, all threads can still return: no deadlock and no trap. |
| SpmcTermination.WorkBounded | tools/jev-ringbuf/jev-ringbuf.cpp:31-61 | In any run, under any scheduler, the accesses other than blocked pushes, failed tests of `done` and pops that find nothing are bounded by a number computed from the configuration. |
| SpmcTermination.FairRunsTerminate | tools/jev-ringbuf/jev-ringbuf.cpp:31-61 | After more rounds than that number, in each of which every thread still running gets a turn (a consumer two), all threads have returned. |
| SpmcTermination.FairRunsExist | tools/jev-ringbuf/jev-ringbuf.cpp:31-61 | Such schedules exist, of any length. |
| SpmcProgress.CanFinishIff | tools/jev-ringbuf/jev-ringbuf.cpp:57-61 | Runs in which all threads return exist exactly when the capacity N - 1 is not zero or nothing is pushed. |
| SpmcProgress.OneSlotBlocks | include/jevmachopp/RingBuffer.h:79-83 | With one slot the producer waits forever: nothing is ever published. |
| RingBuffers.StoredIsPushes | include/jevmachopp/RingBuffer.h:128-140 | Storing a span in one block is pushing its elements one after the other. |
| RingBuffers.RemainingDoesNotBoundBlock | include/jevmachopp/RingBuffer.h:130-131 | `span.size() <= remaining()` does not keep the block inside the two mappings: for every span of two or more elements there is a write index from which an empty buffer is overrun. |
| RingBuffers.RingBuffer.constructor | include/jevmachopp/RingBuffer.h:273-274 | A new buffer is empty and not done. |
| RingBuffers.RingBuffer.Count | include/jevmachopp/RingBuffer.h:220-224 | The wrapping difference of the indices is the length of the queue. |
| RingBuffers.RingBuffer.Remaining | include/jevmachopp/RingBuffer.h:231-233 | Length and remaining space add up to N - 1. |
| RingBuffers.RingBuffer.Full | include/jevmachopp/RingBuffer.h:235-243 | True exactly when N - 1 values are queued. |
| RingBuffers.RingBuffer.Empty | include/jevmachopp/RingBuffer.h:254-261 | True exactly when the queue is empty. |
| RingBuffers.RingBuffer.Emplace | include/jevmachopp/RingBuffer.h:63-67 | Appends the value and returns it. |
| RingBuffers.RingBuffer.EmplaceMultiple | include/jevmachopp/RingBuffer.h:128-140 | Appends the whole span exactly when wr_idx + n <= 2N; otherwise the block leaves the mappings. |
| RingBuffers.RingBuffer.Peek | include/jevmachopp/RingBuffer.h:142-148 | Returns the oldest value, if any, and removes nothing. |
| RingBuffers.RingBuffer.Pop | include/jevmachopp/RingBuffer.h:150-155 | Returns and removes the oldest value; nothing from an empty queue. |
| RingBuffers.RingBuffer.Finish | include/jevmachopp/RingBuffer.h:408-412 | Sets done once and leaves the queue alone. |
| RingBuffers.RingBuffer.Clear | include/jevmachopp/RingBuffer.h:414-419 | Empties the queue, zeroes every slot and resets done. |
| RingSizing.Gcd | include/jevmachopp/Common.h:433-445 | The divisors of the result are exactly the common divisors of the arguments. |
| RingSizing.Lcm | include/jevmachopp/Common.h:451-454 | The result is, in 64 bits, the number whose multiples are exactly the common multiples of the arguments, of which there is only one. |
| RingSizing.IsPow2 | include/jevmachopp/Common.h:460-468 | Counting set bits over the width answers whether the number is 2^k for some k < 64. |
| RingSizing.MaskRoundsUp | include/jevmachopp/Common.h:483-486 | Adding the mask and masking with its complement is rounding up to a multiple of 2^k, in 64 bits, also where the sum wraps. |
| RingSizing.ChooseSizes | include/jevmachopp/RingBuffer.h:41-44 | The three sizes as computed: the requested bytes made even, rounded up to pages, and divided into elements, in 64 bits. |
| RingSizing.SizesAreExactIff | include/jevmachopp/RingBuffer.h:41-44 | The computed sizes are the exact ones if and only if the rounded size is below 2^64. |
| RingSizing.NeededIsLcm | include/jevmachopp/RingBuffer.h:42 | The bytes asked for are the least common multiple of the array's size and 2. |
| RingSizing.EnoughSlots | include/jevmachopp/RingBuffer.h:41-44 | Whole pages, at least the requested number of slots, and less than a page more than twice the requested bytes. |
| RingSizing.CapacityIff | include/jevmachopp/RingBuffer.h:45 | The capacity N - 1 reaches the requested number exactly when one more element fits the pages. |
| RingSizing.MirrorMeetsIff | include/jevmachopp/RingBuffer.h:347-354 | The mirror pointer, N elements on, is exactly where the first mapping ends if and only if it lies on a page boundary, as mapping memory there requires. |
| RingSizing.PowerSizedElementsMeet | include/jevmachopp/RingBuffer.h:41-47 | Element sizes that are powers of two always satisfy that. |
| RingSizing.StaticAssertIsNotEnough | include/jevmachopp/RingBuffer.h:46 | The static assertion that N is a power of two does not imply it: one 4095-byte element on 4096-byte pages. |
| NvramEscape.EncodeTable | lib/jevmachopp/NVRAM.cpp:246-252 | A run of n <= 127 zeros is 0xFF n, one of 0xFF bytes is 0xFF 0x80 + n, and any other byte stands for itself. |
| NvramEscape.DecodeTable | lib/jevmachopp/NVRAM.cpp:211-221 | The byte behind 0xFF stands for as many bytes as its low seven bits say, 0xFF if bit 7 is set and 0x00 if not. |
| NvramEscape.RoundTrip | lib/jevmachopp/NVRAM.cpp:196-259 | Decoding the encoder's body gives the data back, for every input. |
| NvramEscape.EncodeZeroFree | lib/jevmachopp/NVRAM.cpp:243-254 | The body has no zero byte, so the terminator is the first and only zero. |
| NvramEscape.TerminatorDecodes | lib/jevmachopp/NVRAM.cpp:209-256 | The decoder does not stop at the terminator: read along, it is one more zero byte of data. |
| NvramEscape.EncodeCost | lib/jevmachopp/NVRAM.cpp:243-254 | The length of the body is literals + 2 * sum of ceil(run / 127) over the maximal fill runs. |
| NvramEscape.CostBound | lib/jevmachopp/NVRAM.cpp:243-254 | Which is at most twice the length of the data. |
| NvramEscape.EncodeIsShortest | lib/jevmachopp/NVRAM.cpp:243-254 | Among all zero-free streams for the same data, the greedy encoder's is of minimum length. |
| NvramEscape.ZeroFreedomMatters | lib/jevmachopp/NVRAM.cpp:246-251 | Without the ban on zeros that fails: a literal zero would decode to itself in one byte. |
| NvramCodec.PassRun | lib/jevmachopp/NVRAM.cpp:247-248 | The inner loop stops exactly behind the greedy run of at most 0x7F equal bytes. |
| NvramCodec.EscapeDataToData | lib/jevmachopp/NVRAM.cpp:229-259 | Writes the body, the terminator and nothing else; overruns its span exactly when the span has no room for body and terminator. |
| NvramCodec.EscapeOutcomeIff | lib/jevmachopp/NVRAM.cpp:232-258 | The encoder asserts exactly if the span is shorter than the data, and returns exactly if it has room for body and terminator too. |
| NvramCodec.LiteralsOverrun | lib/jevmachopp/NVRAM.cpp:232 | The entry assertion accepts a span of the data's size, yet data without fill bytes always overruns it. |
| NvramCodec.ScanIsDecode | lib/jevmachopp/NVRAM.cpp:168-193 | The length scan accepts exactly the decodable streams and finds the length of what they decode to. |
| NvramCodec.DecodedDataLen | lib/jevmachopp/NVRAM.cpp:168-193 | The loop computes that length modulo 2^32, 0 for a stream with a zero count, and reads past the end of a truncated one. |
| NvramCodec.DecodeLoop | lib/jevmachopp/NVRAM.cpp:208-224 | Decodes in full, leaving the rest of the span alone, exactly when both spans have one size and the data fits. |
| NvramCodec.UnescapeBytesToData | lib/jevmachopp/NVRAM.cpp:196-226 | The outcome for every stream and span size, and on success the decoded bytes followed by the untouched rest. |
| NvramCodec.UnescapeOutcomeIff | lib/jevmachopp/NVRAM.cpp:196-226 | The decoder writes exactly if both spans have one size and the stream is decodable to something not empty that fits; it asserts and returns 0 exactly by the length scan. |
| NvramCodec.SelfDecodeIff | lib/jevmachopp/NVRAM.cpp:200-224 | The codec reads its own body back exactly into a span of the body's size, and only if the data is no longer than that: the loop bound is the size of the wrong span. |
| NvramCodec.RunCannotBeReadBack | lib/jevmachopp/NVRAM.cpp:208-224 | So a run of three or more fill bytes cannot be read back into any span. |
| Uleb128.EncodedLength | lib/jevmachopp/LEB128.cpp:25 | The forward decoder consumes the encoding at the front, and fails exactly when no byte ends one (section 7.6 of DWARF 5). |
| Uleb128.EncodeRoundTrip | lib/jevmachopp/LEB128.cpp:25 | Reading back what the standard's encoder writes for n gives n and its length, whatever follows. |
| Uleb128.EncodingIsEncodeIn | lib/jevmachopp/LEB128.cpp:25 | Every encoding, padded ones included, is the encoder's output for its value in its length, so length and value decide the bytes. |
| Uleb128.DecodeFront | lib/jevmachopp/LEB128.cpp:25 | From the start of an encoding it returns its length and its value in 64 bits, whatever follows. |
| Uleb128.DecodeUleb128Backwards | lib/jevmachopp/LEB128.cpp:5-26 | The scan loop refines the recursive backward reader, and the correction branch at lines 22-24 is never taken. |
| Uleb128.BackwardsExact | lib/jevmachopp/LEB128.cpp:5-26 | For every span: if it ends with a number the reader finds the whole of it, and otherwise it finds none. |
| Uleb128.BackwardsOfConcat | lib/jevmachopp/LEB128.cpp:5-26 | On any non-empty concatenation of encodings the backward reader returns the last one's length and value. |
| LebIterator.LEB128Iterator.constructor | include/jevmachopp/LEB128.h:27-29 | Stands at the first number of a buffer that starts with one; other buffers fail the assertion. |
| LebIterator.LEB128Iterator.Next | include/jevmachopp/LEB128.h:42-51 | `++`, with the asserting cases as a false result. |
| LebIterator.LEB128Iterator.Prev | include/jevmachopp/LEB128.h:58-63 | `--`, with the asserting cases as a false result. |
| LebIterator.BeginAt | include/jevmachopp/LEB128.h:27-29 | For every buffer construction succeeds exactly if it starts with a complete number, and then stands at position 0 with the first value. |
| LebIterator.AdvanceAt | include/jevmachopp/LEB128.h:42-51 | `++` moves from each number to the next and from the last to the sentinel; it asserts exactly when what follows is cut off. |
| LebIterator.RetreatAt | include/jevmachopp/LEB128.h:58-63 | `--` succeeds exactly if the number at the position is no longer than all bytes before it, and then stands one position back. |
| LebIterator.RetreatUndoesAdvance | include/jevmachopp/LEB128.h:42-63 | `--` undoes `++` in every field, from the sentinel too, whenever both assertions hold. |
| LebIterator.StepBackCanAssert | include/jevmachopp/LEB128.h:58-63 | On the bytes of 1 and 16384, `--` from the second number fails. |
| LebIterator.SameIsPosition | include/jevmachopp/LEB128.h:69-82 | Iterator equality over one buffer is equality of positions. |
| LebIterator.WalkEndsAt | include/jevmachopp/Ranges.h:32-52 | After any walk of `++` and `--` the sum depends only on the position: init plus the deltas before it. |
| FunctionStarts.FuncStartForOffsets | include/jevmachopp/FunctionStartsCommand.h:27-45 | For every byte buffer the lookup through all layers computes the specified result, assertion failures included. |
| FunctionStarts.LookupIsFloor | include/jevmachopp/FunctionStartsCommand.h:27-45 | With the sums that are formed in 64 bits: 0 below the first element, and otherwise the greatest exclusive prefix sum not above the offset. |
| FunctionStarts.LookupExample | include/jevmachopp/FunctionStartsCommand.h:27-45 | The bytes of deltas 129, 5 and 0 from 0x1000 on, with four lookups. |
| FunctionStarts.LookupAssertsIff | include/jevmachopp/FunctionStartsCommand.h:27-45 | For one offset the lookup asserts exactly when the buffer starts with no number, or the first element above the offset belongs to a number longer than all the bytes before it, or the search runs into a cut-off rest. |
| FunctionStarts.AlwaysSafeIff | include/jevmachopp/FunctionStartsCommand.h:27-45 | No offset makes it assert exactly when there are numbers, nothing is cut off, and every number behind a non-zero delta is no longer than all the bytes before it. |
| FunctionStarts.LongFirstNumberIsSafe | include/jevmachopp/FunctionStartsCommand.h:43 | In particular a first number at least as long as the others is enough, also where sums wrap. |
| FunctionStarts.LookupCanAssert | include/jevmachopp/FunctionStartsCommand.h:43 | On the bytes of 1 and 16384 the lookup of offset 0 asserts. |
| FunctionStarts.ZeroTerminatorIff | include/jevmachopp/FunctionStartsCommand.h:20-25 | The exclusive scan searches every real function start exactly when the list ends in a zero delta. |
| FunctionStarts.MissingTerminator | include/jevmachopp/FunctionStartsCommand.h:20-25 | A list of one function start at 1 and no terminator: the start is not searched. |
| FunctionStarts.ShiftedElement | include/jevmachopp/FunctionStartsCommand.h:52-57 | Changing init shifts every element by the same amount, modulo 2^64. |
| FunctionStarts.ViewsAgreeIff | include/jevmachopp/FunctionStartsCommand.h:20-57 | Elements of vm_addrs and file_offsets are vmaddr - fileoff apart exactly when the text segment starts at file offset 0. |
| FunctionStarts.ViewsCanDisagree | include/jevmachopp/FunctionStartsCommand.h:20-57 | At file offset 1 and address 5 the address view starts at 4. |
| Uleb128.BufferDivides | include/jevmachopp/LEB128.h:95-102 | Every buffer is a list of complete numbers and a rest in which none ends. |
| Uleb128.DividesOnce | include/jevmachopp/LEB128.h:95-102 | And it is so in one way only. |
| AddrRanges.CollapseRange | include/jevmachopp/CommonTypes.h:70-76 | The loop is the fold of the join. |
| AddrRanges.CollapseIsHull | include/jevmachopp/CommonTypes.h:70-76 | Null exactly when there is nothing to cover; otherwise it reaches over every range and both its ends are taken from the list. |
| AddrRanges.CollapseOfSet | include/jevmachopp/CommonTypes.h:70-76 | The hull does not depend on order or repetition of the segments. |
| AddrRanges.ShiftSubtracts | include/jevmachopp/CommonTypes.h:57-64 | Adding the distance again gives both ends back, modulo 2^64. |
| AddrRanges.ShiftKeepsSize | include/jevmachopp/CommonTypes.h:57-64 | Shifting keeps the size, also where addresses wrap. |
| JumpStub.LoadStorePair | lib/jevmachopp/m1n1.cpp:81-82 | Both loads come before both stores: one round moves 16 bytes even when they overlap. |
| JumpStub.XnuJumpStub | lib/jevmachopp/m1n1.cpp:80-96 | For every size and place of the stub's own code: it reaches the kernel exactly for a positive multiple of 16 whose ranges lie in memory and whose destination stays off that code, after size / 16 rounds, with the new boot arguments in x0; otherwise it goes on until an access faults or a store is about to hit the code. |
| JumpStub.StubStopsIff | lib/jevmachopp/m1n1.cpp:86-87 | The counter ever reaches zero exactly when the size is a multiple of 16. |
| JumpStub.StubRounds | lib/jevmachopp/m1n1.cpp:86-87 | It does so first after size / 16 rounds, and for size 0 after 2^60. |
| JumpStub.StubCanRunOn | lib/jevmachopp/m1n1.cpp:86-87 | For a size of 8 the counter never reaches zero. |
| JumpStub.UpwardsIsMove | lib/jevmachopp/m1n1.cpp:80-87 | The upward copy is an ideal move when the destination is not above the source or beyond its end. |
| JumpStub.OverlapLosesByte | lib/jevmachopp/m1n1.cpp:80-87 | With the destination inside the source and two rounds or more, some memory is moved wrongly. |
| JumpStub.OutsideStays | lib/jevmachopp/m1n1.cpp:80-87 | The copy leaves every byte outside the destination alone. |
| JumpStub.StubCorrectIff | lib/jevmachopp/m1n1.cpp:80-87 | So these, and a single round, are exactly the placements that are right for every memory. |
| MemoryMap.BlankPass | lib/jevmachopp/XNUBoot.cpp:167-180 | In place: every Kernel- entry but the Mach-O header becomes an empty, numbered reserved entry. |
| MemoryMap.AssignPass | lib/jevmachopp/XNUBoot.cpp:182-198 | In place: segments take the reserved entries in order, under the names that are actually printed; runs out exactly when there are more segments than reserved entries. |
| MemoryMap.RewrittenAt | lib/jevmachopp/XNUBoot.cpp:167-198 | Entry by entry after both passes: the k-th slot holds segment k, further slots are as they were or blanked and empty, everything else is untouched. |
| MemoryMap.KernelEntriesAfter | lib/jevmachopp/XNUBoot.cpp:167-198 | The Kernel- entries afterwards are exactly the Mach-O header and the slots the segments took. |
| MemoryMap.NamesStayDistinctIff | lib/jevmachopp/XNUBoot.cpp:167-180 | Distinct names stay distinct in the first pass exactly if no kept entry already has one of the names it gives away. |
| MemoryMap.NamesCanCollide | lib/jevmachopp/XNUBoot.cpp:167-180 | An entry that is already called MemoryMapReserved-99 gets a namesake. |
| MemoryMap.PrintedNameIff | lib/jevmachopp/XNUBoot.cpp:187 | An entry gets the segment's own name exactly if the 16-character field is terminated or the lowest byte of vmaddr, which follows it, is zero. |
| MemoryMap.NameCanRunOn | lib/jevmachopp/XNUBoot.cpp:187 | A full field in front of another vmaddr: the name gets a character too many. |
| MemoryMap.NamesFit | lib/jevmachopp/DeviceTree.cpp:29-33 | No name written here fails the length assertion of setName. |
| MemoryMap.RewriteMap | lib/jevmachopp/XNUBoot.cpp:167-198 | Both passes in place; they succeed exactly when the segments do not outnumber the slots. |
| XnuBoot.VmRangeSpans | lib/jevmachopp/SegmentCommand.cpp:40-42 | The address range reaches from the least vmaddr of any segment to the greatest vmaddr + vmsize. |
| XnuBoot.FileRangeSpans | lib/jevmachopp/SegmentCommand.cpp:44-46 | The file range reaches from the least fileoff of any segment to the greatest fileoff + filesize. |
| XnuBoot.AcceptedIff | lib/jevmachopp/XNUBoot.cpp:68-147 | The loader goes through exactly if the four properties are there, the magic number is good, the segments start at file offset 0 and span as much in the file as in memory, there is a thread command, and there are slots for all segments. |
| XnuBoot.RejectionIsTrue | lib/jevmachopp/XNUBoot.cpp:68-147 | The reason it gives for refusing is true. |
| XnuBoot.CallInFields | lib/jevmachopp/XNUBoot.cpp:119-247 | Where image, firmware, boot arguments and stub go, and the stub's arguments, in the fields of the map and of the segments alone. |
| XnuBoot.LoadAndPrepXnuKernelcache | lib/jevmachopp/XNUBoot.cpp:68-247 | Succeeds exactly when no check rejects; then memory holds image, firmware, boot arguments and stub in that order, the map is rewritten, and the stub's five arguments are set. |
| XnuBoot.BootedMapIsTrue | lib/jevmachopp/XNUBoot.cpp:134-205 | For every such place, after layout and move, every register describes where the original bytes now are: firmware, boot arguments (also in the stub's argument) and every segment. |
| XnuBoot.Boot | lib/jevmachopp/XNUBoot.cpp:68-247 | Loader and stub run one after the other, the stub where it was copied and with the arguments it was given. The kernel is entered exactly if nothing is rejected, the copied size is a positive multiple of 16 and the new place is not above the payload or beyond the stub's end; and then the map is true, x0 points to the boot arguments, pc to the entry point, and the stub is intact. At any other place such a size makes the stub overwrite itself. |
| XnuBoot.ExampleBoots | lib/jevmachopp/XNUBoot.cpp:68-247 | A map and a kernel of two segments that are accepted, with the six values the stub is called with. |
| XnuBoot.ExampleMapped | lib/jevmachopp/XNUBoot.cpp:167-205 | The whole map that the new kernel finds in that example, names, addresses, the slot left over and the entries that stay. |
| XnuBoot.BootedElsewhere | lib/jevmachopp/XNUBoot.cpp:134-156 | Memory outside the copies and the image's new place is as it was. |
| XnuBoot.ClearIff | lib/jevmachopp/XNUBoot.cpp:154-156 | The destination meets the stub's code exactly when that place is wrong. |
| XnuBoot.StubIntactIff | lib/jevmachopp/XNUBoot.cpp:154-156 | And exactly then there is memory for which the copy does not leave the stub whole. |
| XnuBoot.StubCanOverwriteItself | lib/jevmachopp/XNUBoot.cpp:154-156 | A payload at 0 and a base of 32: two of three rounds leave nothing of the stub. |
| DeviceTree.SerializedIsHeads | lib/jevmachopp/DeviceTree.cpp:118-149 | A serialised tree is the heads of its nodes in depth-first pre-order. |
| DeviceTree.PaddedExact | lib/jevmachopp/DeviceTree.cpp:35-41 | The size is the field without its top bit, and the padded size the least multiple of 4 from there, as the masks compute it. |
| DeviceTree.U32IsLittleEndian | include/jevmachopp/DeviceTree.h:117-120 | Fields are little-endian. |
| DeviceTree.ExampleBytes | include/jevmachopp/DeviceTree.h:117-120 | A node with one property of 5 bytes, marked as a replacement, byte by byte. |
| DeviceTree.PropertiesSizeof | lib/jevmachopp/DeviceTree.cpp:105-110 | The fold over the property iterator is, in 32 bits, the sum of the sizes found in memory. |
| DeviceTree.PropertiesSizeExact | lib/jevmachopp/DeviceTree.cpp:35-41 | On serialised properties, whose data fills up to a multiple of 4, that sum is their exact length, replacement bits and padding included. |
| DeviceTree.ChildrenVisitPreorder | include/jevmachopp/DeviceTree.h:167-174 | On every serialised tree k steps from the first child reach the k-th descendant in pre-order. |
| DeviceTree.ChildrenExactIff | lib/jevmachopp/DeviceTree.cpp:120-134 | children() runs over the children exactly when no child but the last has children. |
| DeviceTree.NodeSizeof | lib/jevmachopp/DeviceTree.cpp:205-207 | The recursive fold returns, in 32 bits, the sum over what its child iterators visit. |
| DeviceTree.NodeSizeExact | lib/jevmachopp/DeviceTree.cpp:205-207 | On trees where only last children have children, at every level, it is the serialised length. |
| DeviceTree.NodeSizeVisitsOnceIff | lib/jevmachopp/DeviceTree.cpp:144-149 | It adds up every node once, and none twice, exactly on those trees. |
| DeviceTree.NodeSizeExactIff | lib/jevmachopp/DeviceTree.cpp:205-207 | It is the serialised length for every tree of a shape, whatever the properties, exactly for those shapes. |
| DeviceTree.NodeSizeCanBeWrong | lib/jevmachopp/DeviceTree.cpp:144-149 | A tree of four nodes for which it returns 32 and the length is 68. |
| Hex.Digit | lib/jevmachopp/Hex.cpp:15-23 | Writes a hex digit that reads back as the same nibble. |
| Hex.DigitTable | lib/jevmachopp/Hex.cpp:5-43 | The digits are those of 0123456789abcdef, in order, and no other character is one. |
| Hex.LittleEndianByte | lib/jevmachopp/Hex.cpp:56-63 | Byte i of the number in memory is its i-th digit to the base 256. |
| Hex.Sv2IntHexHelper | lib/jevmachopp/Hex.cpp:46-65 | Succeeds exactly on lowercase hex of at most 2 * size digits and then leaves the little-endian bytes of the positional value; otherwise writes nothing. |
| Hex.Buf2HexStr | include/jevmachopp/Hex.h:17-27 | Prints the first min(size, capacity) bytes, two digits each. |
| Hex.HexOfValue | include/jevmachopp/Hex.h:17-27 | The printed digits are the big-endian value of the bytes. |
| Hex.Sv2Int | include/jevmachopp/Hex.h:36-55 | The result for every string, both bases. |
| Hex.HexRoundTrip | include/jevmachopp/Hex.h:17-56 | Printing a number's big-endian bytes and parsing "0x" and the digits gives the number, in every width that holds it. |
| Hex.ParsedFits | include/jevmachopp/Hex.h:36-55 | Whatever parses fits the width: hex is never cut, decimal is reduced modulo 2^width. |
| Hex.HexExamples | include/jevmachopp/Hex.h:38-43 | A number, one that is too long for its width, and an upper-case digit. |
| Hex.DecExamples | include/jevmachopp/Hex.h:45-53 | 300 in two bytes, and in one. |
| MemoryMap.DigitsParse | include/jevmachopp/Hex.h:45-53 | Parsing the decimal digits of n gives n modulo 2^width. |
| Hex.EdgeStrings | include/jevmachopp/Hex.h:38-53 | The empty string parses as zero; "0x" alone does not parse. |

## Left out

- RingBuffers.RingBuffer.Emplace: a push onto a full buffer ends in an assertion, so room is a precondition.
- RingBuffers.RingBuffer.EmplaceMultiple: says that the block leaves the mappings, not what memory it then damages.
- RingSizing.ChooseSizes: arrays of 2^64 bytes and more are excluded, as no such type exists.
- Uleb128.EncodedLength: the forward decoder is a third-party library that is not part of this model; it is specified by section 7.6 of DWARF 5, with values modulo 2^64.
- NvramCodec.EscapeDataToData: where a span is overrun only that is reported, not what is read or written there; the same holds for `UnescapeBytesToData` and `DecodedDataLen`. Spans are below 4 GiB, as the 32-bit offsets presume.
- JumpStub.XnuJumpStub: source and destination start in memory, and memory is smaller than the 64-bit address space, so that addresses do not wrap before an access faults; what a stub does that has stored over its own code is undefined, and the run ends there.
- XnuBoot.LoadAndPrepXnuKernelcache: the checks before line 68 (boot arguments, the chosen node, the -v flag, the memory-map node), device-tree patches, reset vectors and cache maintenance are not modelled; a segment whose sizes differ in file and memory, or a register of another size, ends in an assertion and is excluded; copies from overlapping ranges are undefined for memcpy and excluded.
- MemoryMap.BlankPass: the cached begin of the lazily filtered view is not modelled.
- XnuBoot.Boot: the device tree's properties are separate from the memory that is copied, which assumes that the tree lies outside the copies and outside the stub's destination; the destination lies in memory.
- DeviceTree.NodeSizeExact: one direction, because on a single tree wrong sums can coincide with the length; `NodeSizeExactIff` has both, for all trees of a shape.
- DeviceTree.NodeIterator.Next: the iterator's `operator==`, whose assertion fails on unequal iterators, is not modelled; the loops use `!=`.
- LebIterator.SameIsPosition: spans are compared by content, not by address.
- Multi-producer ring buffers: the slot is written before the write index is claimed, so FIFO order does not hold there.
- SpmcTermination.FairRunsTerminate: that the real scheduler gives every thread its turns is assumed, as no program can ensure it.
- Memory ordering: interleavings are sequentially consistent, and the plain stores of the write index and of `done` are single atomic steps; index counters do not wrap.
- Mapping and unmapping of memory, sanitizer annotations and the 128-bit representation of the index pair.
- The harness's printed diagnostics, which look at the last element of a list before the first value arrives.
- Device-tree paths, lookups by name in deep trees, and the patching of properties.
- Mach-O load commands, symbol tables, versions, formatting, the disassembly helpers and the command-line tools: accessors, output or foreign libraries.
