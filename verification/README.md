# Abseil core, verified

A Dafny model of the algorithmic core of the Abseil headers vendored in WebRTCAudioProcessing,
with proofs of what they promise. Each module names the headers it models.

- `Bits`, `UnsignedInt128`, `SignedInt128`: words as numbers, bit operations defined bit by bit,
  the power-of-two functions, and 128-bit integers made of two 64-bit limbs. The limb code is
  proved equal to arithmetic modulo 2^128, for signed addition and subtraction also exactly where
  it is defined at all.
- `CallOnce`, `CallOnceFairness`: `call_once` as a protocol of any number of threads over one
  control word. Every atomic operation is one step. Safety, ordering and bounded work are proved of
  every run, and return of all invocations in every fair execution; a class over a mutable word
  carries out the steps.
- `CordRep`, `CordNavigator`, `CordIterator`: cord trees, the navigator with its two path arrays,
  the reader on top of it, and the chunk and character iterators. The path arrays of the
  navigator are proved to stand for a position in the flat list of chunks.
- `Numbers`: hexadecimal and decimal formatting into a 32-byte buffer, described character by
  character and proved against a reader that recovers the number from the text.
- `StrReplace`: the candidate list kept by insertion. `Substitute`: the format-string check.
- `CordRepFlat`, `CordBufferLimits`, `CordBufferRep`, `CordBufferOwnership`, `CordBufferClass`:
  sizes and tags of flat nodes, the size policy, the two representations in sixteen bytes, the
  ownership of nodes over every run, and the class itself.
- `Ranges`: construction of a range with rollback on failure. `Options` is shared by several.

`dafny verify dfyconfig.toml` checks everything.

## Conventions

- A word of width w is a number below 2^w; wrap-around is written out. `size_t` has 64 bits, an
  address is a `size_t`, and the byte order is little endian.
- Undefined behaviour of the source that a caller can reach is modelled as a result (`None` for a
  signed overflow, `fault` for an access to a freed node), and the proofs say when it happens.
- What the source leaves to its surroundings is a parameter: the address that operator new returns
  (even and not in use), the uninitialised second word of a long `CordBuffer`, which constructor
  throws, and which thread moves next and whether its delay blocks.
- The wait and wake primitives follow the comments in `base/internal/spinlock_wait.h`: a matching
  entry is applied in one atomic step, a delay may block only while the word has the value
  observed, and a wake of all frees every thread that is blocked.

## Code against documentation

- `strings/cord_buffer.h:169-172` says that for capacities up to the default limit a custom limit
  behaves identically to the default limit and guarantees the requested capacity. Neither holds for
  every block size. `CordBufferLimits.SameAsDefault` and `CapacityGuaranteed` give the exact
  conditions, for every block size that is a power of two, and `SmallBlockFallsShort` an instance
  where both fail.
- `strings/cord_buffer.h:163-167` requires only that the block size is a power of two. For 1, 2, 4
  and 8 the subtraction of the overhead wraps around and the buffer gets the largest node of
  256 KiB; for 16 it gets 32 bytes. `CordBufferLimits.CreateWithCustomLimitImpl` and
  `CustomAllocates` give the exact conditions (16 and 32 bytes).
- `strings/cord_buffer.h:173-174` says that a capacity of at least the block size gives an
  allocated size of the block size. `CustomAllocates`: that is so exactly for blocks from 32 bytes
  to 64 KiB.
- `strings/cord_buffer.h:150-153` calls `MaximumPayload(block_size)` the maximum payload of the
  buffer returned. For a block of 16 bytes it is 3 and the buffer holds 19;
  `CordBufferLimits.PayloadKept`: that is the only exception.
- `int128` addition and subtraction add the high limbs as `int64_t`, which overflows for some
  operands with a representable result; `SignedInt128.SignedAddDefined` and `SignedSubDefined` say
  for which, and `SignedAddMissesMinimum` and `SignedSubMissesMaximum` give instances.
- `strings/str_replace.h:54-59` does not say what happens with two replacements for one key. The
  insertion keeps ties in order, so that of the pairs given for a key the last one comes out on top
  of the list (`StrReplace.LastDuplicateWins`).

## Model

| member | source | states |
|---|---|---|
| Bits.HasSingleBitIffPowerOfTwo | WebRTCAudioProcessing/audio_processing/include/absl/numeric/bits.h:150-154 | the mask expression of `has_single_bit` is true of the powers of two and of no other number, in both directions and for every width |
| Bits.CountLeadingZeroes64 | WebRTCAudioProcessing/audio_processing/include/absl/numeric/internal/bits.h:213-231 | the portable halving search with the 4-bit table counts 64 minus the bit length for every word, and its final table index is within 16 entries |
| Bits.ShiftOut | WebRTCAudioProcessing/audio_processing/include/absl/numeric/internal/bits.h:214-229 | one halving step keeps `zeroes` minus bit length unchanged and leaves a word of half the width |
| Bits.BitFloorIsGreatest | WebRTCAudioProcessing/audio_processing/include/absl/numeric/bits.h:156-171 | `bit_floor(x)` is the power of two with exponent `bit_width(x) - 1`, is at most x, and no greater power of two is |
| Bits.BitCeilIsLeast | WebRTCAudioProcessing/audio_processing/include/absl/numeric/bits.h:173-190 | `bit_ceil(x)`, where representable, is a power of two not below x, and no smaller power of two is |
| UnsignedInt128.FromInt | WebRTCAudioProcessing/audio_processing/include/absl/numeric/int128.h:685-699 | the constructors from 64-bit integers give the argument modulo 2^128, sign extension included |
| UnsignedInt128.Less | WebRTCAudioProcessing/audio_processing/include/absl/numeric/int128.h:810-819 | the comparison high limb first orders exactly as the 128-bit numbers do |
| UnsignedInt128.Equal | WebRTCAudioProcessing/audio_processing/include/absl/numeric/int128.h:798-806 | limbwise equality is equality of the 128-bit numbers |
| UnsignedInt128.AddCarries | WebRTCAudioProcessing/audio_processing/include/absl/numeric/int128.h:966-987 | the limb sums with the carry seen only by comparing low limbs are the sum modulo 2^128 |
| UnsignedInt128.SubBorrows | WebRTCAudioProcessing/audio_processing/include/absl/numeric/int128.h:989-1010 | the limb differences with the borrow seen only by comparing low limbs are the difference modulo 2^128 |
| UnsignedInt128.NegateBorrows | WebRTCAudioProcessing/audio_processing/include/absl/numeric/int128.h:863-871 | the complemented limbs with the carry from a zero low limb are the negation modulo 2^128 |
| UnsignedInt128.AddSubCancel | WebRTCAudioProcessing/audio_processing/include/absl/numeric/int128.h:977-1010 | (a + b) - b == a and (a - b) + b == a for all operands |
| UnsignedInt128.NegateCancels | WebRTCAudioProcessing/audio_processing/include/absl/numeric/int128.h:863-871 | a + (-a) == 0 and -(-a) == a for all operands |
| UnsignedInt128.SubIsAddNegate | WebRTCAudioProcessing/audio_processing/include/absl/numeric/int128.h:1000-1010 | a - b == a + (-b) |
| UnsignedInt128.AddAssociates | WebRTCAudioProcessing/audio_processing/include/absl/numeric/int128.h:977-987 | addition is associative although carries are found limb by limb |
| UnsignedInt128.ShiftLeftMultiplies | WebRTCAudioProcessing/audio_processing/include/absl/numeric/int128.h:938-950 | for every amount in 0..127, in all three branches, << multiplies by 2^amount modulo 2^128 |
| UnsignedInt128.ShiftRightDivides | WebRTCAudioProcessing/audio_processing/include/absl/numeric/int128.h:952-964 | for every amount in 0..127, in all three branches, >> is division by 2^amount rounded down |
| UnsignedInt128.HalfProductFits | WebRTCAudioProcessing/audio_processing/include/absl/numeric/int128.h:1025-1034 | a product of two 32-bit halves fits 64 bits: no partial product loses bits |
| UnsignedInt128.Mul | WebRTCAudioProcessing/audio_processing/include/absl/numeric/int128.h:1025-1036 | the accumulation of split products is the 128-bit product modulo 2^128 for all operands |
| UnsignedInt128.Uint128Variable.AddAssign | WebRTCAudioProcessing/audio_processing/include/absl/numeric/int128.h:618-621 | += leaves the sum modulo 2^128 in the variable |
| UnsignedInt128.Uint128Variable.SubAssign | WebRTCAudioProcessing/audio_processing/include/absl/numeric/int128.h:623-626 | -= leaves the difference modulo 2^128 in the variable |
| UnsignedInt128.Uint128Variable.MulAssign | WebRTCAudioProcessing/audio_processing/include/absl/numeric/int128.h:628-631 | *= leaves the product modulo 2^128 in the variable |
| UnsignedInt128.Uint128Variable.ShlAssign | WebRTCAudioProcessing/audio_processing/include/absl/numeric/int128.h:608-611 | <<= leaves the multiple by 2^amount modulo 2^128 in the variable |
| UnsignedInt128.Uint128Variable.ShrAssign | WebRTCAudioProcessing/audio_processing/include/absl/numeric/int128.h:613-616 | >>= leaves the quotient by 2^amount in the variable |
| UnsignedInt128.Uint128Variable.PostIncrement | WebRTCAudioProcessing/audio_processing/include/absl/numeric/int128.h:1053-1057 | postfix ++ returns the old value and leaves the successor modulo 2^128 |
| UnsignedInt128.Uint128Variable.PostDecrement | WebRTCAudioProcessing/audio_processing/include/absl/numeric/int128.h:1059-1063 | postfix -- returns the old value and leaves the predecessor modulo 2^128 |
| SignedInt128.BitCastToSigned | WebRTCAudioProcessing/audio_processing/include/absl/numeric/int128.h:1169-1177 | the cast by complements is congruent to its argument modulo 2^64 and negative exactly when the top bit is set |
| SignedInt128.SignedLess | WebRTCAudioProcessing/audio_processing/include/absl/numeric/int128_no_intrinsic.inc:173-177 | comparison of a signed high limb and an unsigned low limb orders as the signed numbers do |
| SignedInt128.SignedNegate | WebRTCAudioProcessing/audio_processing/include/absl/numeric/int128_no_intrinsic.inc:209-212 | negation is defined for every value but the minimum, and then exact |
| SignedInt128.SignedAddDefined | WebRTCAudioProcessing/audio_processing/include/absl/numeric/int128_no_intrinsic.inc:224-237 | a defined sum is exact; a representable sum is defined if and only if the high limbs do not add up to one below the int64_t range |
| SignedInt128.SignedAddMissesMinimum | WebRTCAudioProcessing/audio_processing/include/absl/numeric/int128_no_intrinsic.inc:232-237 | two concrete operands whose sum is the representable minimum although the sum of their high limbs overflows int64_t |
| SignedInt128.SignedSubDefined | WebRTCAudioProcessing/audio_processing/include/absl/numeric/int128_no_intrinsic.inc:239-252 | a defined difference is exact; a representable one is defined if and only if the high limbs do not differ by one above the int64_t range |
| SignedInt128.SignedSubMissesMaximum | WebRTCAudioProcessing/audio_processing/include/absl/numeric/int128_no_intrinsic.inc:247-252 | two concrete operands whose difference is the representable maximum although the difference of their high limbs overflows int64_t |
| SignedInt128.SignedMul | WebRTCAudioProcessing/audio_processing/include/absl/numeric/int128_no_intrinsic.inc:254-258 | the product through unsigned limbs is congruent modulo 2^128, and exact whenever it is representable |
| CallOnce.FirstMatch | WebRTCAudioProcessing/audio_processing/include/absl/base/internal/spinlock_wait.h:38-46 | the entry applied by the wait is the first whose `from` is the value of the word; none matches otherwise |
| CallOnce.StepKeepsInv | WebRTCAudioProcessing/audio_processing/include/absl/base/call_once.h:149-190 | every step of every thread keeps the word declared, the runner unique and each thread's knowledge true |
| CallOnce.AtMostOnce | WebRTCAudioProcessing/audio_processing/include/absl/base/call_once.h:166-188 | in every run with any number of threads the callable starts at most once, the word has a declared value, the sanity check never fails, and exactly one runner exists exactly while the word is Running or Waiter |
| CallOnce.ReturnedAfterFinished | WebRTCAudioProcessing/audio_processing/include/absl/base/call_once.h:177-220 | whoever returned, by the fast or the slow path, did so after the one invocation had finished |
| CallOnce.SleeperIsCovered | WebRTCAudioProcessing/audio_processing/include/absl/base/call_once.h:177-188 | a thread asleep implies that a runner will find Waiter or that a wake of all is pending |
| CallOnce.ExchangeWakesSleepers | WebRTCAudioProcessing/audio_processing/include/absl/base/call_once.h:182-188 | when the runner exchanges in Done with a thread asleep, the old word was Waiter, and the wake that follows leaves nobody asleep |
| CallOnce.CanSleep | WebRTCAudioProcessing/audio_processing/include/absl/base/internal/spinlock_wait.h:54-59 | from every reachable state with a runner, every other thread falls asleep by steps of its own, and nothing changes besides but the word, which is Waiter then |
| CallOnce.AllSleepAndWake | WebRTCAudioProcessing/audio_processing/include/absl/base/call_once.h:182-188 | for any number of threads some run has all but the runner asleep with the word Waiter, and reaches the wake, after which all of them wait awake |
| CallOnce.WakeIsNeeded | WebRTCAudioProcessing/audio_processing/include/absl/base/call_once.h:184-188 | in every run a wake is issued only after the word was Waiter |
| CallOnce.AloneNeverWaits | WebRTCAudioProcessing/audio_processing/include/absl/base/call_once.h:177-188 | in every run of a single invocation the thread never waits, delays, sleeps or wakes, and the word is never Waiter |
| CallOnce.AtMostThreeChanges | WebRTCAudioProcessing/audio_processing/include/absl/base/call_once.h:139-188 | a run of any length with any number of threads changes the word at most three times |
| CallOnce.ForwardOnly | WebRTCAudioProcessing/audio_processing/include/absl/base/call_once.h:139-188 | the word only moves forward in the order Init, Running, Waiter, Done, and Done is permanent |
| CallOnce.StepMeasure | WebRTCAudioProcessing/audio_processing/include/absl/base/call_once.h:149-190 | no step increases the work left, and a step reduces it exactly when it is not one of a delayed, sleeping or returned thread or of a thread that waits while the word is Waiter |
| CallOnce.BoundedWork | WebRTCAudioProcessing/audio_processing/include/absl/base/call_once.h:149-190 | a run of n invocations holds at most 8 n + 3 steps that are not idle |
| CallOnce.SomeoneCanWork | WebRTCAudioProcessing/audio_processing/include/absl/base/call_once.h:177-189 | no deadlock: while an invocation has not returned, a thread that is not asleep can do work, even if sleepers never wake by themselves |
| CallOnce.CanComplete | WebRTCAudioProcessing/audio_processing/include/absl/base/call_once.h:149-190 | from every reachable state all invocations can be brought to return without a spontaneous wake-up |
| CallOnce.ExactlyOnce | WebRTCAudioProcessing/audio_processing/include/absl/base/call_once.h:211-220 | when all of at least one invocation have returned, the callable was started and finished exactly once and the word is Done |
| CallOnceFairness.AllReturn | WebRTCAudioProcessing/audio_processing/include/absl/base/call_once.h:149-220 | in every endless execution in which each thread with something to do gets its turn again, wherever delays block, all invocations return, and then the callable ran once and the word is Done; no turn is asked for threads that returned, sleep or wait while the word is Waiter |
| CallOnceFairness.Progresses | WebRTCAudioProcessing/audio_processing/include/absl/base/call_once.h:177-189 | in such an execution the work left is smaller some turns later as long as somebody has not returned |
| CallOnceFairness.ExecutionIsRun | WebRTCAudioProcessing/audio_processing/include/absl/base/call_once.h:149-190 | the beginning of an execution is a run of the protocol, so that all that holds of runs holds of it |
| CallOnceFairness.RoundRobinIsFair | WebRTCAudioProcessing/audio_processing/include/absl/base/call_once.h:149-190 | taking turns in a circle is fair for every number of threads |
| CallOnceFairness.SequentialIsFair | WebRTCAudioProcessing/audio_processing/include/absl/base/call_once.h:211-220 | calls made one after the other, with no turn for a call that has returned once another has begun, are fair for every number of calls |
| CallOnceFairness.FirstReturns | WebRTCAudioProcessing/audio_processing/include/absl/base/call_once.h:177-189 | the first of several calls in sequence returns with its sixth turn |
| CallOnceFairness.LaterReturns | WebRTCAudioProcessing/audio_processing/include/absl/base/call_once.h:213-219 | every later one finds the word Done and returns with its first turn |
| CallOnceFairness.ExecutionExists | WebRTCAudioProcessing/audio_processing/include/absl/base/call_once.h:149-190 | every list of turns has its execution |
| CallOnce.Execution.Advance | WebRTCAudioProcessing/audio_processing/include/absl/base/call_once.h:149-220 | the code between two atomic operations, with loads, compare-exchange and exchange on a mutable word, is the step of the protocol and keeps its invariant |
| CallOnce.Execution.Look | WebRTCAudioProcessing/audio_processing/include/absl/base/internal/spinlock_wait.h:38-46 | one round of the wait, as a loop over the transition table, is the step of a waiting thread |
| CordRep.LengthIsContent | WebRTCAudioProcessing/audio_processing/include/absl/strings/internal/cord_rep_btree.h:71-108 | in a well-formed tree the stored length is the length of the content, at every height |
| CordRep.PositionUnique | WebRTCAudioProcessing/audio_processing/include/absl/strings/cord.h:512-523 | a byte offset determines the chunk and the place in it |
| CordNavigator.IndexOf | WebRTCAudioProcessing/audio_processing/include/absl/strings/internal/cord_rep_btree.h:808-813 | the edge found holds the byte at the offset, and the offset inside it is what the edges in front leave over |
| CordNavigator.CordRepBtreeNavigator.Init | WebRTCAudioProcessing/audio_processing/include/absl/strings/internal/cord_rep_btree_navigator.h:172-188 | the path ends at the first data edge with nothing passed, or at the last with everything else passed |
| CordNavigator.CordRepBtreeNavigator.Next | WebRTCAudioProcessing/audio_processing/include/absl/strings/internal/cord_rep_btree_navigator.h:217-220 | moves past exactly the current data edge; null exactly at the last edge, and then nothing moves |
| CordNavigator.CordRepBtreeNavigator.NextUp | WebRTCAudioProcessing/audio_processing/include/absl/strings/internal/cord_rep_btree_navigator.h:227-243 | the climb to the first level with a next edge and the dive below it pass exactly the current data edge, at any height |
| CordNavigator.CordRepBtreeNavigator.Previous | WebRTCAudioProcessing/audio_processing/include/absl/strings/internal/cord_rep_btree_navigator.h:222-225 | takes back exactly the data edge in front; null exactly at the first edge, and then nothing moves |
| CordNavigator.CordRepBtreeNavigator.PreviousUp | WebRTCAudioProcessing/audio_processing/include/absl/strings/internal/cord_rep_btree_navigator.h:245-261 | the mirror image of the climb and dive |
| CordNavigator.CordRepBtreeNavigator.Seek | WebRTCAudioProcessing/audio_processing/include/absl/strings/internal/cord_rep_btree_navigator.h:190-205 | stands at the data edge that holds the byte, with the bytes passed plus the inner offset equal to the offset sought; null exactly past the end |
| CordIterator.CordRepBtreeReader.Init | WebRTCAudioProcessing/audio_processing/include/absl/strings/internal/cord_rep_btree_reader.h:167-172 | starts at the first chunk and counts the bytes behind it |
| CordIterator.CordRepBtreeReader.Next | WebRTCAudioProcessing/audio_processing/include/absl/strings/internal/cord_rep_btree_reader.h:174-180 | the next chunk, and empty exactly when no bytes are left, which is when the last was returned or a seek went past the end; the count of bytes left stays true |
| CordIterator.CordRepBtreeReader.Seek | WebRTCAudioProcessing/audio_processing/include/absl/strings/internal/cord_rep_btree_reader.h:197-206 | the rest of the chunk that holds the byte, and empty exactly past the end; the count of bytes left is re-established |
| CordIterator.ChunkIterator.constructor | WebRTCAudioProcessing/audio_processing/include/absl/strings/cord.h:1526-1538 | on inline, empty, single-leaf, tree and checksummed cords the iterator starts valid over exactly the chunks of the cord with all bytes remaining |
| CordIterator.ChunkIterator.InitTree | WebRTCAudioProcessing/audio_processing/include/absl/strings/cord.h:1509-1518 | a checksum node is skipped, a B-tree goes to the reader and a leaf to the current chunk; the iterator is valid |
| CordIterator.ChunkIterator.CurrentIsNext | WebRTCAudioProcessing/audio_processing/include/absl/strings/cord.h:1590-1593 | before the end the current chunk is not empty and is a prefix of what remains |
| CordIterator.ChunkIterator.Increment | WebRTCAudioProcessing/audio_processing/include/absl/strings/cord.h:1560-1574 | ++ drops exactly the current chunk from what remains, and its branch without a reader and bytes left is unreachable |
| CordIterator.ChunkIterator.AdvanceBtree | WebRTCAudioProcessing/audio_processing/include/absl/strings/cord.h:1540-1543 | taking the next chunk from the reader restores the invariant between current chunk, reader and bytes remaining |
| CordIterator.ChunkIterator.RemoveChunkPrefix | WebRTCAudioProcessing/audio_processing/include/absl/strings/cord.h:1600-1604 | drops n bytes from what remains and keeps the iterator valid |
| CordIterator.ChunkIterator.AdvanceBytesBtree | WebRTCAudioProcessing/audio_processing/include/absl/strings/cord.h:1545-1558 | next-chunk, seek and end paths each leave a valid iterator with n bytes fewer |
| CordIterator.ChunkIterator.AdvanceBytes | WebRTCAudioProcessing/audio_processing/include/absl/strings/cord.h:1606-1617 | on every path what remains is what remained without its first n bytes |
| CordIterator.SamePlace | WebRTCAudioProcessing/audio_processing/include/absl/strings/cord.h:1582-1584 | iterators over the same chunks that compare equal before the end stand at the same chunk and byte |
| CordIterator.SameEdge | WebRTCAudioProcessing/audio_processing/include/absl/strings/cord.h:1582-1584 | and their readers stand at the same data edge |
| CordIterator.ChunkIterator.ChunkEnd | WebRTCAudioProcessing/audio_processing/include/absl/strings/cord.h:1560-1573 | before the end the current chunk fits in the bytes remaining and ends where the next chunk begins; without a reader it is all that remains |
| CordIterator.AtChunk | WebRTCAudioProcessing/audio_processing/include/absl/strings/cord.h:1560-1593 | an iterator with the bytes behind the first chunks left stands at the start of the next chunk, and is at its end exactly when these are all chunks |
| CordIterator.TakeChunk | WebRTCAudioProcessing/audio_processing/include/absl/strings/cord.h:1560-1593 | reading and incrementing visits exactly the next chunk, whole |
| CordIterator.ReadChunks | WebRTCAudioProcessing/audio_processing/include/absl/strings/cord.h:1526-1593 | for every cord, reading and incrementing from the beginning to the end yields exactly its chunks in order |
| CordIterator.CharIterator.Increment | WebRTCAudioProcessing/audio_processing/include/absl/strings/cord.h:1635-1642 | ++ drops exactly one byte from what remains, across chunk boundaries |
| CordIterator.CharIterator.Get | WebRTCAudioProcessing/audio_processing/include/absl/strings/cord.h:1658-1660 | * is the first byte of what remains |
| CordIterator.Advance | WebRTCAudioProcessing/audio_processing/include/absl/strings/cord.h:1672-1675 | skipping n bytes drops exactly n bytes from what remains |
| CordIterator.SkipOrStep | WebRTCAudioProcessing/audio_processing/include/absl/strings/cord.h:1606-1642 | from equal iterators, one skip of n bytes and n single increments end at the same bytes, the same current chunk and the same chunk index |
| CordIterator.ReadCord | WebRTCAudioProcessing/audio_processing/include/absl/strings/cord.h:1526-1660 | for every cord, reading character by character from the beginning yields exactly its content |
| CordIterator.ReadAll | WebRTCAudioProcessing/audio_processing/include/absl/strings/cord.h:1635-1660 | reading character by character to the end yields all that remained |
| Numbers.FastHexToBufferZeroPad16 | WebRTCAudioProcessing/audio_processing/include/absl/strings/numbers.h:257-278 | writes the sixteen hexadecimal digits of the value and nothing else, and returns the number of digits of the shortest numeral |
| Numbers.HexWidth | WebRTCAudioProcessing/audio_processing/include/absl/strings/numbers.h:276-277 | the count from leading zeros is the length of the shortest numeral, one for zero |
| Numbers.FixedHexReadsBack | WebRTCAudioProcessing/audio_processing/include/absl/strings/numbers.h:253-256 | the sixteen characters denote the value again |
| Numbers.FixedIsPadded | WebRTCAudioProcessing/audio_processing/include/absl/strings/numbers.h:253-256 | they are the shortest numeral behind zeros |
| Numbers.DigitsShortest | WebRTCAudioProcessing/audio_processing/include/absl/strings/numbers.h:255-256 | no numeral of the same value is shorter than the one produced |
| Numbers.PadWidth | WebRTCAudioProcessing/audio_processing/include/absl/strings/str_cat.h:132-173 | every enumerator asks for the width in its name, from 1 to 20 |
| Numbers.HexStringify | WebRTCAudioProcessing/audio_processing/include/absl/strings/str_cat.h:214-233 | built from two overlapping fills, the text is exactly the fill character of the argument up to the width and then the shortest numeral, and no write leaves the 32-byte buffer |
| Numbers.HexCharacters | WebRTCAudioProcessing/audio_processing/include/absl/strings/str_cat.h:214-242 | for every integer type and enumerator, each character of the text: in front zeros for `kNoPad` and `kZeroPad` and spaces for `kSpacePad`, up to the width in the name, then the lower-case digit of its place, as many as the number needs |
| Numbers.HexReadsBack | WebRTCAudioProcessing/audio_processing/include/absl/strings/str_cat.h:214-242 | the padded text denotes the value again and is as long as the larger of the width and the numeral |
| Numbers.MadeHexReadsBack | WebRTCAudioProcessing/audio_processing/include/absl/strings/str_cat.h:181-242 | for an integer of 8, 16, 32 or 64 bits and every padding the text denotes the unsigned number with the same bits and is as long as the larger of the width and the numeral |
| Numbers.MakeDec | WebRTCAudioProcessing/audio_processing/include/absl/strings/str_cat.h:258-267 | magnitude and sign denote the argument for every integer of at most 64 bits, the minimum included; the fill is a zero for the enumerators up to 20 and a space for the others |
| Numbers.WriteDigits | WebRTCAudioProcessing/audio_processing/include/absl/strings/str_cat.h:275-281 | writing backwards leaves exactly the shortest decimal numeral at the end of the buffer, at most 20 characters |
| Numbers.DecStringify | WebRTCAudioProcessing/audio_processing/include/absl/strings/str_cat.h:269-299 | the text has spaces in front of the sign or zeros behind it, and no write leaves the 32-byte buffer |
| Numbers.DecCharacters | WebRTCAudioProcessing/audio_processing/include/absl/strings/str_cat.h:258-299 | for every integer and enumerator, each character of the text: the sign and then zeros for `kZeroPad`, or spaces and then the sign for `kSpacePad`, up to the width in the name, then the decimal digit of its place, as many as the number needs |
| Numbers.DecReadsBack | WebRTCAudioProcessing/audio_processing/include/absl/strings/str_cat.h:258-299 | for every integer of at most 64 bits and every padding the text denotes the integer again and is as long as the larger of the width and the digits with sign |
| StrReplace.FindSubstitutions | WebRTCAudioProcessing/audio_processing/include/absl/strings/str_replace.h:159-187 | the list holds exactly the viable candidates, in an order in which none takes priority over a later one, with ties in the order given |
| StrReplace.SinkLast | WebRTCAudioProcessing/audio_processing/include/absl/strings/str_replace.h:177-184 | appending and swapping forward inserts one candidate into the ordered list and keeps ties stable |
| StrReplace.ViableExactly | WebRTCAudioProcessing/audio_processing/include/absl/strings/str_replace.h:165-177 | a candidate is viable if and only if its pair was given, its key is not empty and occurs, and its offset is the first occurrence |
| StrReplace.LastIsBest | WebRTCAudioProcessing/audio_processing/include/absl/strings/str_replace.h:147-152 | the last candidate has the least offset and, there, the longest key |
| StrReplace.FirstMatchWins | WebRTCAudioProcessing/audio_processing/include/absl/strings/str_replace.h:54-59 | against every occurrence of every key, the last candidate starts no later and, at the same start, is no shorter |
| StrReplace.LastDuplicateWins | WebRTCAudioProcessing/audio_processing/include/absl/strings/str_replace.h:179-184 | the last candidate comes from a pair that was given, and no later pair has its key |
| StrReplace.OrderedStableUnique | WebRTCAudioProcessing/audio_processing/include/absl/strings/str_replace.h:179-184 | order and stability determine the list: no other list meets both |
| Substitute.MinusOneIffMalformed | WebRTCAudioProcessing/audio_processing/include/absl/strings/substitute.h:230-249 | the recursive scan gives -1 if and only if some unescaped dollar is followed by neither a digit nor a dollar |
| Substitute.OneBitMeaning | WebRTCAudioProcessing/audio_processing/include/absl/strings/substitute.h:230-237 | the ten digits have a bit each, a second dollar has none, and every other character gives -1 |
| Substitute.MaskBits | WebRTCAudioProcessing/audio_processing/include/absl/strings/substitute.h:230-249 | for a well-formed text the bit of a position is set if and only if an unescaped dollar asks for it |
| Substitute.MaskMatchesArguments | WebRTCAudioProcessing/audio_processing/include/absl/strings/substitute.h:643-762 | the comparison with 2^n - 1 succeeds if and only if the text is well formed and asks for exactly the positions 0..n-1, for every n up to 10 |
| CordRepFlat.RoundUpIsLeast | WebRTCAudioProcessing/audio_processing/include/absl/strings/internal/cord_rep_flat.h:76-80 | for a power of two the masked sum is the least multiple not below the size |
| CordRepFlat.TagReadsBack | WebRTCAudioProcessing/audio_processing/include/absl/strings/internal/cord_rep_flat.h:54-72 | each tag is recovered from the size it stands for |
| CordRepFlat.PlainSize | WebRTCAudioProcessing/audio_processing/include/absl/strings/internal/cord_rep_flat.h:63-72 | tags 6 to 66 stand for multiples of 8 bytes from 32 to 512, up to 186 of 64 bytes to 8 KiB, and up to 248 of 4 KiB to 256 KiB |
| CordRepFlat.SizeRoundsDown | WebRTCAudioProcessing/audio_processing/include/absl/strings/internal/cord_rep_flat.h:88-96 | a size is stored as the greatest tag whose size is not above it |
| CordRepFlat.RoundedSizeReadsBack | WebRTCAudioProcessing/audio_processing/include/absl/strings/internal/cord_rep_flat.h:82-86 | a size rounded up for a tag is recovered from its tag, from 32 bytes to 256 KiB |
| CordRepFlat.RoundedSizeIsLeast | WebRTCAudioProcessing/audio_processing/include/absl/strings/internal/cord_rep_flat.h:82-86 | no smaller size that a tag expresses is large enough |
| CordRepFlat.NewKeepsSize | WebRTCAudioProcessing/audio_processing/include/absl/strings/internal/cord_rep_flat.h:112-154 | a node's tag gives the size allocated for it, so a sized delete passes the right one, and the node holds the length asked for up to the limit |
| CordRepFlat.NewIsLeast | WebRTCAudioProcessing/audio_processing/include/absl/strings/internal/cord_rep_flat.h:112-134 | no tag expresses a smaller node that holds the length asked for, up to the greatest length |
| CordBufferLimits.CreateWithCustomLimitImpl | WebRTCAudioProcessing/audio_processing/include/absl/strings/cord_buffer.h:475-500 | the length asked for is that of the one permitted allocation size, given in bytes for every case, and it underflows if and only if the block is below 16 bytes |
| CordBufferLimits.LengthAsked | WebRTCAudioProcessing/audio_processing/include/absl/strings/cord_buffer.h:478-499 | the length in bytes: the limited block less 13 for a capacity that fills it, the capacity itself up to 4083, and else a power of two less 13, which covers the capacity if and only if some power of two is 13 to 141 bytes above it, and otherwise is the greatest one not above it |
| CordBufferLimits.RoundToPower | WebRTCAudioProcessing/audio_processing/include/absl/strings/cord_buffer.h:484-498 | up to the next power of two exactly when that wastes between 13 and 141 bytes, else down to the next below |
| CordBufferLimits.AllocationUnique | WebRTCAudioProcessing/audio_processing/include/absl/strings/cord_buffer.h:478-499 | the description of the allocation size leaves one size for each block and capacity |
| CordBufferLimits.CustomLimitKept | WebRTCAudioProcessing/audio_processing/include/absl/strings/cord_buffer.h:461-499 | for every power of two as block size, the length asked for never exceeds the maximum payload, covers a capacity within the default limit if and only if the block has room for it or the length wraps around, and for larger capacities makes length plus overhead a power of two if and only if it does not wrap around |
| CordBufferLimits.CustomAllocates | WebRTCAudioProcessing/audio_processing/include/absl/strings/cord_buffer.h:173-174 | for a capacity of at least the block size the node allocated has the block size if and only if the block is between 32 bytes and 64 KiB; for every capacity it stays within the block if and only if the block has at least 32 bytes, and a wrapped length gets the largest node |
| CordBufferLimits.PayloadKept | WebRTCAudioProcessing/audio_processing/include/absl/strings/cord_buffer.h:150-153 | for every power of two as block size and every capacity, the payload of the buffer returned is at most the maximum payload if and only if the block size is not 16 |
| CordBufferLimits.CapacityGuaranteed | WebRTCAudioProcessing/audio_processing/include/absl/strings/cord_buffer.h:169-172 | for a capacity within the default limit and every power of two as block size, the buffer holds the requested capacity if and only if the block or the smallest node has room for it or the length wraps around |
| CordBufferLimits.DefaultLimitKept | WebRTCAudioProcessing/audio_processing/include/absl/strings/cord_buffer.h:155-161 | a default buffer holds at least the smaller of the capacity and 4083 bytes, at most 4083, in a node of at most 4096 bytes and 13 more than it holds, or 15 bytes without a node |
| CordBufferLimits.DefaultIsLeast | WebRTCAudioProcessing/audio_processing/include/absl/strings/internal/cord_rep_flat.h:112-134 | no tag expresses a smaller node that would hold the smaller of the capacity and 4083 bytes |
| CordBufferLimits.CustomNode | WebRTCAudioProcessing/audio_processing/include/absl/strings/cord_buffer.h:475-503 | the node of a custom buffer, for every block size and capacity: 13 bytes more than it holds, the payload, the block size and the capacity each kept under its exact condition, and the power of two of `LengthAsked` above the default limit |
| CordBufferLimits.SameAsDefault | WebRTCAudioProcessing/audio_processing/include/absl/strings/cord_buffer.h:169-172 | for a capacity within the default limit and every power of two as block size, the custom buffer is the default one if and only if the length does not wrap around, the capacity does not fit inline, and the block or the smallest node has room for it |
| CordBufferLimits.SmallBlockFallsShort | WebRTCAudioProcessing/audio_processing/include/absl/strings/cord_buffer.h:169-172 | a block of 64 bytes for 100 bytes gives 51, where the default limit serves all 100 |
| CordBufferRep.TagBit | WebRTCAudioProcessing/audio_processing/include/absl/strings/cord_buffer.h:324-349 | the tag and the short length, computed by mask and shift, are parity and half of the first byte |
| CordBufferRep.ShortReadsBack | WebRTCAudioProcessing/audio_processing/include/absl/strings/cord_buffer.h:345-355 | a short length reads back and marks the buffer short, and the data bytes stay |
| CordBufferRep.AddIsSet | WebRTCAudioProcessing/audio_processing/include/absl/strings/cord_buffer.h:357-361 | adding to the raw size is setting the sum |
| CordBufferRep.PointerReadsBack | WebRTCAudioProcessing/audio_processing/include/absl/strings/cord_buffer.h:319-330 | an address reads back from the shared bytes, and they look short if and only if it is odd |
| CordBufferOwnership.StepKeepsInv | WebRTCAudioProcessing/audio_processing/include/absl/strings/cord_buffer.h:435-569 | every creation, move, consumption, destruction and change of length keeps single ownership, matching sizes and lengths within the capacity |
| CordBufferOwnership.OneFate | WebRTCAudioProcessing/audio_processing/include/absl/strings/cord_buffer.h:435-525 | in every run each node allocated so far was freed once, or handed out once, or is held by exactly one buffer, never two of these, and no node is accessed after it is freed or freed with a wrong size |
| CordBufferOwnership.NoLeak | WebRTCAudioProcessing/audio_processing/include/absl/strings/cord_buffer.h:510-514 | once all buffers are destroyed every node was freed once or handed out once: none is leaked |
| CordBufferOwnership.MoveKeepsValue | WebRTCAudioProcessing/audio_processing/include/absl/strings/cord_buffer.h:516-525 | a move takes over content, length and capacity and leaves an empty buffer; a buffer moved onto itself ends empty |
| CordBufferOwnership.IncreaseIsSet | WebRTCAudioProcessing/audio_processing/include/absl/strings/cord_buffer.h:560-567 | increasing a length is setting the sum, for both representations |
| CordBufferClass.CordBuffer.Assign | WebRTCAudioProcessing/audio_processing/include/absl/strings/cord_buffer.h:520-525 | frees the node held, takes the bytes over and leaves a source of length 0 with the inline capacity, also when source and target are one object |
| CordBufferClass.CordBuffer.Move | WebRTCAudioProcessing/audio_processing/include/absl/strings/cord_buffer.h:516-518 | the new buffer has the bytes, the length and the capacity of the source, which ends empty with the inline capacity |
| CordBufferClass.CordBuffer.Destroy | WebRTCAudioProcessing/audio_processing/include/absl/strings/cord_buffer.h:510-514 | a node held is gone and counted as freed once more; a short buffer frees nothing |
| CordBufferClass.CordBuffer.ConsumeValue | WebRTCAudioProcessing/audio_processing/include/absl/strings/cord_buffer.h:435-444 | hands out the node or, byte by byte, the short data as it was before the reset, and leaves an empty buffer of 15 bytes |
| CordBufferClass.CordBuffer.SetLength | WebRTCAudioProcessing/audio_processing/include/absl/strings/cord_buffer.h:551-558 | the length is the one given; capacity, representation and short data stay |
| CordBufferClass.CordBuffer.IncreaseLengthBy | WebRTCAudioProcessing/audio_processing/include/absl/strings/cord_buffer.h:560-567 | the length grows by the number given; capacity, representation and short data stay |
| CordBufferClass.CreateWithDefaultLimit | WebRTCAudioProcessing/audio_processing/include/absl/strings/cord_buffer.h:465-472 | an empty buffer that is short with 15 bytes for a capacity up to 15, and otherwise has the node at the address given, of the least size that a tag expresses for the smaller of the capacity and 4083, never above 4096 bytes |
| CordBufferClass.CreateWithCustomLimit | WebRTCAudioProcessing/audio_processing/include/absl/strings/cord_buffer.h:474-508 | an empty buffer with the node for the one permitted length; it holds the capacity requested, is the default node, has exactly the block size, stays within the block, keeps the maximum payload, each if and only if its condition is met, and rounds up to a power of two if and only if one is 13 to 141 bytes above the capacity |
| CordBufferClass.Program.Perform | WebRTCAudioProcessing/audio_processing/include/absl/strings/cord_buffer.h:435-569 | the methods on mutable buffers carry out exactly one step of a run, keep its invariant, and own only buffers that were there or are new |
| CordBufferClass.Program.Run | WebRTCAudioProcessing/audio_processing/include/absl/strings/cord_buffer.h:435-569 | a list of operations, each permitted in its turn, is carried out as a run of that list |
| CordBufferClass.RunProgram | WebRTCAudioProcessing/audio_processing/include/absl/strings/cord_buffer.h:435-569 | a program of any length that starts without buffers commits no access to a freed node and no wrong sized delete, gives every node one fate, and leaks none once its buffers are gone |
| Ranges.ConstructRange | WebRTCAudioProcessing/audio_processing/include/absl/memory/memory.h:238-254 | either every element is constructed in order, or exactly those before the first failure are, and then the n of them are destroyed: event j of the rollback destroys element n - 1 - j, and every slot is as before; it fails if and only if some constructor in the range throws |
| Ranges.CopyRange | WebRTCAudioProcessing/audio_processing/include/absl/memory/memory.h:256-273 | the same with each element constructed from its source in order |
| Ranges.Unwind | WebRTCAudioProcessing/audio_processing/include/absl/memory/memory.h:246-252 | the handler destroys each constructed element once, event j the one that is j from the end, and restores the memory |
| Ranges.ConstructionsFill | WebRTCAudioProcessing/audio_processing/include/absl/memory/memory.h:241-245 | the logged constructions are legal one by one and leave exactly the values |
| Ranges.RollbackRestores | WebRTCAudioProcessing/audio_processing/include/absl/memory/memory.h:246-252 | constructions followed by the rollback are legal at every event and change nothing |

## Left out

- The Objective-C wrapper, player and pool headers and the test pods: declarations only, their bodies are not part of this model.
- `ApplySubstitutions`, `SubstituteAndAppendArray`, escaping, Base64, integer parsing and the `FastIntToBuffer` family: their bodies are not in the repository.
- Building, editing and reference counting of cord trees: cords are values here, and chunks are what a data edge denotes, whether flat, external or a substring of one.
- `CordRepBtreeNavigator::Skip`, `Read` and `InitOffset`, `CordRepBtreeReader::Skip` and `Read`, `AdvanceAndReadBytes`: the first two have no body in the repository and the others add no new movement. `current_leaf_` is set as in the source but only `AdvanceAndReadBytes` would use it.
- Copies of iterators and the postfix increments of the cord iterators: a copy would share nothing, which the classes do not express.
- Writing through the spans that `CordBuffer` hands out: the bytes of a node are not part of the model, those of a short buffer are.
- `CordBuffer` on big-endian machines, and the allocation hints, which no caller passes.
- Floating-point conversions, division and remainder of `uint128`, and the shifts, bitwise operators and narrower conversions of `int128`.
- The intrinsic and compiler-specific branches of `uint128`, `countl_zero` and the hexadecimal writer; of each, the portable branch is modelled.
- `numbers_internal::kHexTable`: declared only; an entry is taken to be the two digits of its index.
- `bit_ceil` for types narrower than `unsigned` and for arguments without a representable result, which its contract excludes.
- Memory ordering in `call_once`: atomic operations are taken one after the other; the scheduling guard has no effect on the protocol; a callable that throws or calls back on the same flag is excluded.
- The sanity check of `base/call_once.h:154-165` is compiled in debug builds only; the model always has its load, which changes nothing else. Without it a thread goes from the fast path to the compare-exchange in one step less.
- `LowLevelCallOnce`: the same protocol under another scheduling mode.
- ConstructRange: does not model exceptions thrown by destructors, which would end the program.
- Mutexes, condition variables, barriers and notifications: their algorithms are not in the headers.
