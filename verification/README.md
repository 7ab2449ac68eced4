# Verified models of the stateful cores of the example programs

Five pieces of the repository hold logic of their own; this project models them and
proves what they promise.

* **The software floating-point unit of nbench** (`Arithmetic`, `Limbs`, `EmFloat`,
  `FpfSpec`, `FpfLoops`, `FpfValue`, `FpfMulDiv`, `FpfAddSub`, `FpfConvert`,
  `FpfExpressions`, `FpfEdges`). Numbers are records of a kind, a sign, a 16-bit exponent
  and four 16-bit limbs that the limb loops change in place. `EmFloat` proves the limb code
  equal to functions on whole integers (`FpfSpec`); the other modules measure those functions
  against exact arithmetic. A number stands for (-1)^sign * m * 2^(exp - 64). It is canonical when
  it is normal, its top mantissa bit is set and its low three bits are clear.
* **The CRC-32** (`CrcTable`, `Crc32`, `CrcGuarantees`). The table, byte loop and
  complement against the bit-serial register, and the guarantees of the 32-bit FCS of
  section C.3 of RFC 1662.
* **The LED server's message queue** (`MessageQueue`, `QueueProtocol`, `QueueTrace`,
  `LedServer`, `LedTrace`). The queue and its template as objects; then any number of
  callers and the one server thread as interleaved steps: one step for each critical
  section, one for each word copied outside the lock. The invariants hold in every state of every run, and what came out is
  measured by the arguments of the calls in the run.
* **The aligned allocator of nbench** (`AlignedMemory`, `AlignedAddress`, `AlignedHeap`,
  `AlignedSharing`). The table with its search and compaction, the alignment loop, runs of
  allocations and frees over malloc, and what exactly goes wrong when a size wraps.
* **The one-slot buffer of the condition variable example** (`OneSlotBuffer`,
  `OneSlotTrace`). Any number of getting and putting threads, one statement a step, spurious
  wakeups allowed.

`dafny verify dfyconfig.toml` checks the project.

Where the code and its comments differ, the model follows the code:

* With equal exponents the add and subtract of `emfloat.c` never reach the mantissa loops,
  which sit inside the `else` (lines 631-753): the destination keeps the mantissa it had.
  `RightExactlyWhenExponentsDiffer` shows that this is exactly when the answer is not right
  whatever the destination held.
* The multiply's comment (line 915) says to set the sticky bit if extra bits are set; the
  code sets it if none is. `HighHalfChops` shows that the chop erases it either way.
* A stored exponent is a `short` and wraps, so the overflow check that is commented out
  (lines 493-501) leaves wrapped results. Every exactness theorem says so with an
  if-and-only-if on the exponent, in place of a bound on the operands.
* On unnormalised operands of unlike sign the subtraction keeps the sign of the operand with
  the larger exponent unless it borrows, also when y has the larger exponent and x the larger
  aligned mantissa. The sign is then wrong (`SignMissedSomewhere`); `AddSubTruncatesTotal`
  says exactly when. Canonical operands never meet this.
* The sticky shortcut sets a bit that place-by-place shifting of an all-zero mantissa would
  not set (`ShortcutAgrees`). No canonical operand has such a mantissa.
* `AllocateMemory` computes the size modulo the width of an unsigned long. When it wraps,
  the caller's bytes do not fit the block (`CallerInsideExactlyWithoutWrap`), and two blocks
  can get the same pointer, so that `FreeMemory` frees the wrong one (`WrongBlockFreed`).
  Runs include wrapped sizes; `SeparateExactlyWithoutWrap` and `FreesOwnExactlyUnlessShared`
  say for every request when they do harm.
* The multiply's normalising loop does not end on an all-zero mantissa
  (`LoopEndsExactlyOnNonzero`), and the unit's own add makes such operands
  (`EqualExponentsKeepMantissa`).

## Model

| member | source | states |
|---|---|---|
| Limbs.IsMantissaZero | benchmarks/nbench/nbench-byte-2.2.3/emfloat.c:249-259 | says zero exactly when the limbs read as one integer are 0 |
| Limbs.Add16Bits | benchmarks/nbench/nbench-byte-2.2.3/emfloat.c:266-283 | one column: b + c + carry is the new limb plus 2^16 times the new carry, and the carry is a bit |
| Limbs.Sub16Bits | benchmarks/nbench/nbench-byte-2.2.3/emfloat.c:290-303 | one column of a subtraction: b is the new limb plus c plus borrow, less 2^16 times the new borrow, although the 32-bit accumulator wraps |
| Limbs.ShiftMantLeft1 | benchmarks/nbench/nbench-byte-2.2.3/emfloat.c:312-329 | the four limbs as one integer are doubled, the carry comes in at the bottom, the lost top bit is the carry out |
| Limbs.ShiftMantRight1 | benchmarks/nbench/nbench-byte-2.2.3/emfloat.c:337-354 | the four limbs as one integer are halved, the carry comes in at the top, the lost low bit is the carry out |
| Limbs.AddMantissas | benchmarks/nbench/nbench-byte-2.2.3/emfloat.c:730-737 | the inline limb loop adds whole 64-bit integers exactly, carry included, also when the destination is an operand (lines 878-883) |
| Limbs.SubMantissas | benchmarks/nbench/nbench-byte-2.2.3/emfloat.c:679-684 | the inline limb loop subtracts whole 64-bit integers exactly, borrow included, also in place (lines 1069-1074) |
| Limbs.NegateMantissa | benchmarks/nbench/nbench-byte-2.2.3/emfloat.c:695-702 | a borrowed difference is turned back into a magnitude: 2^64 - m, and 0 for 0 |
| Limbs.Below | benchmarks/nbench/nbench-byte-2.2.3/emfloat.c:1055-1065 | the limb-by-limb comparison with early exits orders mantissas as integers |
| EmFloat.InternalFPF.StickyShiftRightMant | benchmarks/nbench/nbench-byte-2.2.3/emfloat.c:364-396 | the number in place becomes its sticky shift; a number typed zero and an amount below 1 change nothing |
| EmFloat.InternalFPF.Normalize | benchmarks/nbench/nbench-byte-2.2.3/emfloat.c:410-426 | terminates on every nonzero mantissa; mantissa doubled until the top bit is set and the exponent lowered by as many, wrapping as a short |
| EmFloat.InternalFPF.Denormalize | benchmarks/nbench/nbench-byte-2.2.3/emfloat.c:436-465 | below the minimum exponent the number is shifted up to it, or is a signed zero from 64 places on |
| EmFloat.InternalFPF.Round | benchmarks/nbench/nbench-byte-2.2.3/emfloat.c:475-505 | denormalise to MIN_EXP and clear the low three bits, for normal and subnormal numbers only |
| EmFloat.InternalFPF.FromInt | benchmarks/nbench/nbench-byte-2.2.3/emfloat.c:1100-1148 | in-place conversion computes FromInt32, whose exactness is ConversionExact |
| EmFloat.AddSubInternalFPF | benchmarks/nbench/nbench-byte-2.2.3/emfloat.c:618-770 | the limb code leaves exactly AddSub of the operands in the destination, which may be either operand, whatever it held before |
| EmFloat.ShiftAndAdd | benchmarks/nbench/nbench-byte-2.2.3/emfloat.c:866-897 | the 64-pass loop leaves exactly the 128-bit product in the pair (z mantissa, extra_bits) |
| EmFloat.NormalizePair | benchmarks/nbench/nbench-byte-2.2.3/emfloat.c:906-912 | terminates; the pair is doubled until its top bit is set, with bits brought back from extra_bits |
| EmFloat.MultiplyInternalFPF | benchmarks/nbench/nbench-byte-2.2.3/emfloat.c:833-933 | the limb code leaves exactly Multiply of the operands in the destination |
| EmFloat.ReduceRemainder | benchmarks/nbench/nbench-byte-2.2.3/emfloat.c:1055-1075 | the 65-bit remainder is reduced below the divisor and the carry is the quotient bit, also when the 65th bit is set |
| EmFloat.LongDivision | benchmarks/nbench/nbench-byte-2.2.3/emfloat.c:1046-1079 | terminates with the quotient's top bit set, floored, and the exponent lowered once a pass |
| EmFloat.DivideInternalFPF | benchmarks/nbench/nbench-byte-2.2.3/emfloat.c:1006-1091 | the limb code leaves exactly Divide of the operands in the destination, zero mantissas included |
| FpfSpec.LiftedIsShift | benchmarks/nbench/nbench-byte-2.2.3/emfloat.c:419-424 | normalising multiplies the mantissa by a power of two |
| FpfSpec.LeadingZerosLeast | benchmarks/nbench/nbench-byte-2.2.3/emfloat.c:419-424 | it is the least power that reaches the top bit |
| FpfLoops.DivisionInvariant | benchmarks/nbench/nbench-byte-2.2.3/emfloat.c:1046-1079 | after any number of passes the partial remainder is below the divisor and dividend, quotient and remainder satisfy the division equation exactly |
| FpfLoops.QuotientAfter | benchmarks/nbench/nbench-byte-2.2.3/emfloat.c:1046-1079 | from 64 passes on, quotient and remainder are those of dividend * 2^(n-64) |
| FpfLoops.PassCount | benchmarks/nbench/nbench-byte-2.2.3/emfloat.c:1046-1079 | at most 191 passes; on normalised operands 127 or 128, and which |
| FpfLoops.MultiplyInvariant | benchmarks/nbench/nbench-byte-2.2.3/emfloat.c:866-897 | after i passes the register holds the multiplicand times the multiplier's low i bits |
| FpfLoops.MultiplyEnds | benchmarks/nbench/nbench-byte-2.2.3/emfloat.c:866-897 | after 64 passes it holds the product and the multiplier is used up |
| FpfValue.ChopUnique | benchmarks/nbench/nbench-byte-2.2.3/emfloat.c:475-505 | an exact value has one truncation to 61 significant bits |
| FpfValue.CanonicalUnique | benchmarks/nbench/nbench-byte-2.2.3/emfloat.c:410-426 | canonical numbers of equal value agree in every field |
| FpfValue.ChopError | benchmarks/nbench/nbench-byte-2.2.3/emfloat.c:475-505 | truncation loses less than one part in 2^60 |
| FpfValue.RoundedTruncates | benchmarks/nbench/nbench-byte-2.2.3/emfloat.c:475-505 | rounding delivers the truncated value if and only if the exponent fits a short |
| FpfMulDiv.MultiplyTruncates | benchmarks/nbench/nbench-byte-2.2.3/emfloat.c:833-933 | for all nonzero mantissas the product is the exact product truncated to 61 bits, with its sign, if and only if its exponent fits |
| FpfMulDiv.MultiplyCanonical | benchmarks/nbench/nbench-byte-2.2.3/emfloat.c:833-933 | canonical operands give a canonical product with exponent ex + ey or one less, if and only if that fits |
| FpfMulDiv.HighHalfChops | benchmarks/nbench/nbench-byte-2.2.3/emfloat.c:914-920 | the sticky bit, set on the opposite condition from the comment, is always erased by the chop |
| FpfMulDiv.DivideTruncates | benchmarks/nbench/nbench-byte-2.2.3/emfloat.c:1006-1091 | for all nonzero mantissas the quotient is the exact quotient truncated to 61 bits, with its sign, if and only if its exponent fits |
| FpfMulDiv.DivideCanonical | benchmarks/nbench/nbench-byte-2.2.3/emfloat.c:1006-1091 | canonical operands give a canonical quotient with exponent ex - ey or one more, and when which, if and only if that fits |
| FpfAddSub.StickyIsFloorPlusLostBit | benchmarks/nbench/nbench-byte-2.2.3/emfloat.c:373-394 | the place-by-place sticky shift is the floor of m / 2^n with bit 0 forced on exactly when a nonzero bit was lost |
| FpfAddSub.ShortcutAgrees | benchmarks/nbench/nbench-byte-2.2.3/emfloat.c:380-385 | the shortcut for 64 places or more agrees with the place-by-place shift if and only if the mantissa is nonzero |
| FpfAddSub.AddSubTruncates | benchmarks/nbench/nbench-byte-2.2.3/emfloat.c:649-770 | for canonical operands with different exponents the result is the exact sum or difference truncated toward zero to 61 bits, with its sign and exponent in [max-61, max+1], if and only if the exponent fits; the result is canonical |
| FpfAddSub.EqualExponentsKeepMantissa | benchmarks/nbench/nbench-byte-2.2.3/emfloat.c:631-648 | equal exponents give the destination's old mantissa, chopped; into a zero, a number typed normal with an all-zero mantissa |
| FpfLoops.LoopEndsExactlyOnNonzero | benchmarks/nbench/nbench-byte-2.2.3/emfloat.c:906-912 | some number of passes of the multiply's normalising loop sets the top bit if and only if neither mantissa is zero |
| FpfLoops.LiftedAfter | benchmarks/nbench/nbench-byte-2.2.3/emfloat.c:906-912 | after as many passes as there are leading zeros the pair is the normalised product |
| EmFloat.DoublePair | benchmarks/nbench/nbench-byte-2.2.3/emfloat.c:908-910 | one pass doubles the pair |
| FpfAddSub.RightExactlyWhenExponentsDiffer | benchmarks/nbench/nbench-byte-2.2.3/emfloat.c:631-649 | on in-range operands the answer is right whatever the destination held if and only if the exponents differ |
| FpfEdges.AddSubTruncatesTotal | benchmarks/nbench/nbench-byte-2.2.3/emfloat.c:649-770 | for all operands typed normal or subnormal, however normalised, with different exponents off the ends of the range: the result truncates the aligned total, its sign is right if and only if the code does not miss it, a difference of zero is a positive zero, and which kind results |
| FpfEdges.SignMissedSomewhere | benchmarks/nbench/nbench-byte-2.2.3/emfloat.c:664-711 | unnormalised operands whose difference gets the wrong sign, because only a borrow is looked for |
| FpfEdges.EqualExponentsKeepAny | benchmarks/nbench/nbench-byte-2.2.3/emfloat.c:631-648 | with equal exponents any operands leave the destination's mantissa, chopped, and a subnormal number if one of them is |
| FpfEdges.DivideOnZeroMantissas | benchmarks/nbench/nbench-byte-2.2.3/emfloat.c:1016-1031 | which zero mantissas give NaN, infinity and zero, field for field, and that nothing else does |
| FpfEdges.StickyBackwards | benchmarks/nbench/nbench-byte-2.2.3/emfloat.c:914-920 | before rounding, bit 0 of a product is forced on exactly when nothing was lost below it |
| FpfEdges.DenormalizedIsFloor | benchmarks/nbench/nbench-byte-2.2.3/emfloat.c:436-465 | denormalising is the floor with the lost bits forced into bit 0, or a zero of the same sign from 64 places on |
| FpfConvert.ConversionExact | benchmarks/nbench/nbench-byte-2.2.3/emfloat.c:1100-1148 | every nonzero int32 but the most negative converts to the canonical number of exactly its value |
| FpfConvert.ConversionOfAll | benchmarks/nbench/nbench-byte-2.2.3/emfloat.c:1100-1148 | every int32 but the most negative, zero included, converts to a number of exactly its value and sign, typed zero for zero only and canonical otherwise |
| FpfConvert.ProductOfIntegers | benchmarks/nbench/nbench-byte-2.2.3/emfloat.c:1100-1148 | the product of conversions is field for field the conversion of the product |
| FpfConvert.QuotientOfIntegers | benchmarks/nbench/nbench-byte-2.2.3/emfloat.c:1006-1148 | dividing the converted a * b by the converted b gives field for field the conversion of a |
| FpfConvert.SumOfIntegers | benchmarks/nbench/nbench-byte-2.2.3/emfloat.c:618-770 | sums and differences of conversions with different exponents are exact conversions |
| FpfExpressions.Eval | benchmarks/nbench/nbench-byte-2.2.3/emfloat.c:564-1091 | every result in a tree of operations is canonical, so a tree fails only for a leaf, equal exponents in a sum or an exponent out of range |
| FpfExpressions.NodeTruncates | benchmarks/nbench/nbench-byte-2.2.3/emfloat.c:564-1091 | every node of a tree, differences and all signs included, is its own exact operation on the results below it, truncated once, with its sign |
| FpfExpressions.SumDefined | benchmarks/nbench/nbench-byte-2.2.3/emfloat.c:564-770 | a sum or difference of two results is in range if and only if their exponents differ and the exact value has a fitting exponent |
| FpfExpressions.ProductDefined | benchmarks/nbench/nbench-byte-2.2.3/emfloat.c:779-933 | a product of two results is in range if and only if the exact value has a fitting exponent |
| FpfExpressions.QuotientDefined | benchmarks/nbench/nbench-byte-2.2.3/emfloat.c:941-1091 | a quotient of two results is in range if and only if the exact value has a fitting exponent |
| FpfExpressions.EvalAccurate | benchmarks/nbench/nbench-byte-2.2.3/emfloat.c:564-1091 | a tree of n operations on positive numbers is within a factor (1 - 2^-60)^n of exact arithmetic, both ways |
| CrcTable.TableEntry | file_io/crc/crc_32.c:74-118 | every one of the 256 entries is eight places of the shift register applied to its index |
| CrcTable.ShiftLinear | file_io/crc/crc_32.c:39-56 | the register is linear over exclusive or |
| Crc32.ByteStep | file_io/crc/crc.h:37 | one UPDC32 is eight bit steps of the register, low bit first |
| Crc32.RegisterIsBitSerial | file_io/crc/crc_32.c:39-56 | for every buffer and start the byte loop equals the bit-serial register |
| Crc32.CrcIsBitSerial | file_io/crc/crc_32.c:158-171 | the checksum is the bit-serial register started at 0xffffffff and combined with 0xffffffff at the end, for every buffer |
| Crc32.Crc32Buf | file_io/crc/crc_32.c:158-171 | the pointer loop computes Crc of the first len bytes |
| Crc32.Crc32File | file_io/crc/crc_32.c:125-156 | an unopened file is an error that leaves *crc alone; otherwise success, Crc of the bytes delivered, and their count or -1 after a read error |
| CrcGuarantees.CheckValue | file_io/crc/crc_32.c:158-171 | the sum over the digits 123456789 is 0xcbf43926, over nothing 0 |
| CrcGuarantees.FeedInjective | file_io/crc/crc_32.c:158-171 | for fixed input different registers stay different |
| CrcGuarantees.FeedOnto | file_io/crc/crc_32.c:158-171 | for fixed input every register is reached from some register; with FeedInjective, a bijection |
| CrcGuarantees.WordFed | file_io/crc/crc_32.c:43-49 | a 32-bit word sent low byte first is the word combined with the register, 32 places on |
| CrcGuarantees.GoodFrame | file_io/crc/crc_32.c:43-49 | over a message and four more bytes the register ends at 0xdebb20e3 if and only if those bytes are the message's checksum, low byte first |
| CrcGuarantees.BackFromEqual | file_io/crc/crc_32.c:158-171 | if at most 32 bits lead two registers to the same place, the registers differed only in that many low places, and equal registers met equal bits |
| CrcGuarantees.BurstDetected | file_io/crc/crc_32.c:158-171 | buffers of equal length that differ only within 32 consecutive transmitted bits have different checksums |
| CrcGuarantees.FourBytesDetected | file_io/crc/crc_32.c:158-171 | buffers of equal length that differ only within four consecutive bytes have different checksums |
| MessageQueue.LocalMessageQueue.Allocate | led/complex1/LocalMessageQueuePOSIX10031c.h:119-135 | the oldest pooled message, or a new one when the pool is empty |
| MessageQueue.LocalMessageQueue.Deallocate | led/complex1/LocalMessageQueuePOSIX10031c.h:139-144 | the message goes to the end of the pool |
| MessageQueue.LocalMessageQueue.Send | led/complex1/LocalMessageQueuePOSIX10031c.h:152-170 | a message is appended if and only if it is not null and there is room; otherwise nothing changes |
| MessageQueue.LocalMessageQueue.Receive | led/complex1/LocalMessageQueuePOSIX10031c.h:178-198 | the oldest pending message is removed and returned; with none pending the caller waits and the lists stay as they are |
| MessageQueue.LocalMessageQueue.IsAvailable | led/complex1/LocalMessageQueuePOSIX10031c.h:221-229 | true exactly when a message is pending |
| MessageQueue.MessageQueueTemplate.Prepare | led/complex1/MessageQueueT.h:128-135 | the message filled is in neither list and no waiting payload changes, also when the message was used before |
| MessageQueue.MessageQueueTemplate.Write | led/complex1/MessageQueueT.h:123-144 | the converted payload joins the end of the queue or is refused for want of room; no waiting payload changes although message objects are reused; a refused message is in neither list |
| MessageQueue.MessageQueueTemplate.Read | led/complex1/MessageQueueT.h:91-121 | the oldest payload converted back, the rest of the queue unchanged, the message back in the pool; with none pending the caller waits and nothing changes |
| QueueProtocol.StepKeepsPlaces | led/complex1/MessageQueueT.h:91-144 | every interleaved step keeps each message in exactly one place |
| QueueProtocol.FillKeeps | led/complex1/MessageQueueT.h:130-135 | a word copied outside the lock reaches no message that is pending, being read or in another producer's hands |
| QueueProtocol.StepKeeps | led/complex1/MessageQueueT.h:91-144 | every interleaved step keeps places and contents right |
| QueueProtocol.StepKeepsOrder | led/complex1/ledServer.h:86-88 | every interleaved step keeps the count of payloads, the depth and the guard, whatever the converters |
| QueueProtocol.ReadInOrder | led/complex1/MessageQueueT.h:91-144 | in every reachable state, whatever the converters, Read returned the payloads Send accepted first, in order, each converted forth and back; what is missing is held by the consumer or pending; the list keeps to its depth; and what was read is a prefix of what was accepted if and only if the conversions gave each payload back |
| QueueProtocol.ReadIsPrefix | led/complex1/MessageQueueT.h:91-144 | when ntoh undoes hton, what Read returned is a prefix of what Send accepted, in every reachable state |
| QueueTrace.SentWereCalled | led/complex1/MessageQueueT.h:123-144 | over every run, measured by the arguments of Write: each thread's calls are, in order, what its Sends ended with and what it has in hand; the payloads sent are the arguments of the calls whose Send found room, in that order, and the rest were refused |
| QueueTrace.ReadWereCalled | led/complex1/MessageQueueT.h:91-144 | over every run, Read returned the first arguments accepted, in order, each as ntoh_f makes it of the words hton_f wrote; with inverse converters, those arguments |
| QueueTrace.WriteEnds | led/complex1/MessageQueueT.h:123-144 | a thread in Write can finish it without the others, and its argument is accepted if and only if there is room |
| QueueProtocol.ExactlyOnePlace | led/complex1/LocalMessageQueuePOSIX10031c.h:119-198 | in every reachable state each message ever made is in exactly one of pool, a producer's hands, list, consumer's hands, abandoned |
| QueueProtocol.ReceiveNeverWaits | led/complex1/ledServer.h:86-88 | in every reachable state Receive is enabled only with a message pending and nobody waits in it |
| QueueProtocol.CatchesUp | led/complex1/ledServer.h:86-88 | from every such state the consumer alone can read all that was sent |
| QueueProtocol.MessagesRecycled | led/complex1/LocalMessageQueuePOSIX10031c.h:124-129 | however long the run, the messages ever created are at most depth + producers + 1 + refused sends |
| LedServer.ServerFollowsCommands | led/complex1/ledServer.h:78-137 | however callers interleave, the server's state is that of obeying the accepted commands in order of acceptance, at most ten pending, and nobody waits |
| LedTrace.ServerAsAsked | led/complex1/ledServer.h:168-196 | over every run, measured by the requests made: the server is active after a start and no stop since, runs until a shutdown, and has the two periods, in that order, of the last setPeriod, counting the requests whose messages it has read, which are the first ones accepted |
| LedTrace.LightAsAsked | led/complex1/ledServer.h:115-131 | each light was given after a start and no stop since, is on and off in turn, and lasts the matching argument of the last setPeriod, or 500 milliseconds before any |
| LedTrace.TurnsPauseAndLight | led/complex1/ledServer.h:86-134 | every turn of the loop pauses once, and every pause of an active server lights once |
| LedServer.ServerCatchesUp | led/complex1/ledServer.h:86-88 | whatever has been sent, the server alone comes to obey it all, up to a shutdown |
| LedServer.LightsAlternate | led/complex1/ledServer.h:115-131 | the LED goes on and off in turn, from on, past the wrap of the counter; each light belongs to an active server and has the period the commands so far say |
| LedServer.FallbackMeansNoRate | led/complex1/ledServer.h:127 | the fallback period applies exactly until the first rate is obeyed, because setPeriod (lines 184-196) refuses zeros |
| LedServer.ShutdownIsLast | led/complex1/ledServer.h:107-110 | nothing is read after a shutdown |
| AlignedMemory.Allocator.AddMemArray | benchmarks/nbench/nbench-byte-2.2.3/sysspec.c:378-389 | appends the pair of addresses, or returns -1 and changes nothing when 20 are in use |
| AlignedMemory.Allocator.CloseGap | benchmarks/nbench/nbench-byte-2.2.3/sysspec.c:409-414 | entries behind the removed one move down one place, the others stay |
| AlignedMemory.Allocator.RemoveMemArray | benchmarks/nbench/nbench-byte-2.2.3/sysspec.c:399-421 | the first entry with the address is removed and its true address returned, or -1 and no change |
| AlignedMemory.Allocator.AllocateMemory | benchmarks/nbench/nbench-byte-2.2.3/sysspec.c:117-156 | terminates for every address and alignment; returns and records the adjusted address; error 2 for a full table before error 1 for a failed malloc |
| AlignedMemory.Allocator.FreeMemory | benchmarks/nbench/nbench-byte-2.2.3/sysspec.c:222-235 | free gets the recorded true address and the entry goes, or error 3, no free and no change |
| AlignedMemory.NextMultiple | benchmarks/nbench/nbench-byte-2.2.3/sysspec.c:150 | the increment loop stops at a multiple, with none before it, or at zero after passing the end of the address space |
| AlignedAddress.AdjustedIsOddMultiple | benchmarks/nbench/nbench-byte-2.2.3/sysspec.c:136-153 | in a block that ends inside the address space the adjusted address is the one odd multiple of the alignment among its first 2 * align bytes |
| AlignedAddress.CallerInsideExactlyWithoutWrap | benchmarks/nbench/nbench-byte-2.2.3/sysspec.c:127-153 | the caller's bytes lie inside the block if and only if the requested size did not wrap |
| AlignedAddress.AdjustedAcrossEnd | benchmarks/nbench/nbench-byte-2.2.3/sysspec.c:150-151 | where the address goes when no odd multiple is left below the end of the address space |
| AlignedHeap.AllocateRegisters | benchmarks/nbench/nbench-byte-2.2.3/sysspec.c:127-156 | over every run a new block joins the end of the table while that has fewer than 20 entries and is returned unregistered otherwise |
| AlignedHeap.EveryBlockOnce | benchmarks/nbench/nbench-byte-2.2.3/sysspec.c:378-421 | over every run, sizes wrapped or not, the table lists the live blocks in order, malloc's record is exactly the blocks out, and addresses given are addresses freed plus those still out, counted with multiplicity |
| AlignedHeap.FreeRefusesOthers | benchmarks/nbench/nbench-byte-2.2.3/sysspec.c:225-230 | over every run a pointer of no live block is refused and nothing changes |
| AlignedHeap.FreeGetsItsBlock | benchmarks/nbench/nbench-byte-2.2.3/sysspec.c:222-235 | over every run, freeing the pointer of a block whose size, like those before it on the table, did not wrap passes free that block's own malloc address, still on malloc's record, and removes exactly that block |
| AlignedHeap.CallersApart | benchmarks/nbench/nbench-byte-2.2.3/sysspec.c:127-153 | over every run, bytes handed out for two blocks whose sizes did not wrap never overlap and their pointers differ |
| AlignedSharing.SeparateExactlyWithoutWrap | benchmarks/nbench/nbench-byte-2.2.3/sysspec.c:127-153 | for every request, callers' bytes never overlap in any run of that request if and only if its size does not wrap |
| AlignedSharing.FreesOwnExactlyUnlessShared | benchmarks/nbench/nbench-byte-2.2.3/sysspec.c:117-156 | for every request, each block goes back to free under its own address in all runs of that request if and only if not (the size wraps and two blocks of what is left fit between odd multiples) |
| AlignedSharing.CanShareMeansWrap | benchmarks/nbench/nbench-byte-2.2.3/sysspec.c:127 | up to a fifth of the address space that condition is the wrap alone |
| AlignedSharing.WrongBlockFreed | benchmarks/nbench/nbench-byte-2.2.3/sysspec.c:117-235 | at the default alignment 8, blocks at 16 and 24: both callers get pointer 24 and the first one freed passes 16 to free |
| OneSlotBuffer.OneInside | c11/c11_cndvar01/test.c:50-91 | at most one thread is between lock and unlock, and it holds the mutex |
| OneSlotBuffer.StepKeepsNotLost | c11/c11_cndvar01/test.c:53-87 | every step keeps: while a getter sleeps on a full slot, another is awake inside buffer_get before its unlock or a putter is about to signal |
| OneSlotBuffer.NoLostWakeup | c11/c11_cndvar01/test.c:53-87 | in every reachable state a getter asleep on a full slot is attended: another is awake inside buffer_get, on its way to the slot, or a putter holding the mutex is about to signal, with spurious wakeups and any values |
| OneSlotBuffer.NotAllAsleep | c11/c11_cndvar01/test.c:53-87 | in every reachable state with a getter and a full slot, some getter is not asleep or a putter holding the mutex is about to signal |
| OneSlotBuffer.TakenWerePut | c11/c11_cndvar01/test.c:44-93 | in every reachable state the values got sit at strictly increasing places among the values put, and none is -1 |
| OneSlotTrace.PutsWereCalled | c11/c11_cndvar01/test.c:71-93 | over every run the values stored, with the one still to be stored, are the arguments of buffer_put in the order of the mutex |
| OneSlotTrace.GotWerePut | c11/c11_cndvar01/test.c:44-93 | over every run the values buffer_get returned sit at increasing places among the arguments of buffer_put: in order, none twice, and none is -1 |
| OneSlotTrace.CallsBalance | c11/c11_cndvar01/test.c:44-93 | every argument was returned, overwritten, was -1 itself, is in the slot or still to be stored |
| OneSlotTrace.CallsReturn | c11/c11_cndvar01/test.c:44-69 | a call of buffer_get that was entered has returned a value or goes on |
| OneSlotTrace.PutEnds | c11/c11_cndvar01/test.c:71-93 | with the mutex free a call of buffer_put runs to its end alone and leaves its value in the slot |
| OneSlotBuffer.PutsBalance | c11/c11_cndvar01/test.c:71-93 | puts are gets, overwritten values, puts of -1 itself and the one in the slot |
| OneSlotBuffer.GetsEmptied | c11/c11_cndvar01/test.c:95-108 | from every such state the threads empty a full slot with no further put and no spurious wakeup |

## Left out

- Operands typed zero, infinity or NaN (`emfloat.c` lines 581-616, 756-762, 795-830 and
  958-1004, and choose_nan): most of these branches call memmove with the operand as the
  destination and the result as the source, so they overwrite an operand and return nothing.
- MultiplyInternalFPF: asks for nonzero mantissas. With a zero one the loop at `emfloat.c`
  line 906 does not end (`LoopEndsExactlyOnNonzero`), so there is no result to state.
- The most negative 32-bit integer in the conversion: its negation at `emfloat.c` line 1113
  overflows.
- Accuracy of trees with differences or numbers of unlike sign: cancellation has no bound of
  that form. Each single operation is exact to its truncation for all signs.
- Setting up the benchmark arrays, DoEmFloatIteration, timing and the debug printing of
  `emfloat.c`; the zero-significand message of denormalize.
- Bit masks and shifts on limbs are written as arithmetic on 16-bit integers, and the limb
  loops that appear inline in several places are one method each.
- DWORD is 32 bits wide in the CRC model. Files are the bytes they deliver; the message of
  perror is left out and the byte count is unbounded. The 256 entries are laid out as 16
  rows of 16.
- ReceivePoll, whose test is inverted, and what follows a wait in Receive: the wait loop
  tests a pointer not yet set. A call that would wait is modelled up to the wait; no run of
  the LED server's queue makes one.
- Destruction of the queue, failure of the mutex and condition-variable calls, exceptions.
  A converter writes every word of its destination and depends on nothing but its source.
- ThreadBody, start, stop and setPeriod are steps on values, since threads interleave; the
  object form covers the queue and the template below them. Input and output, sleeping and
  the conversion of periods to seconds and nanoseconds are left out.
- Alignments are from 0 to 2^30 - 1, so that twice the alignment is an int. An unsigned long
  has 32 bits, as the comment at `sysspec.c` line 119 assumes. malloc appears as an address
  that does not overlap what is out; AllocateMemory takes a failed malloc as address zero,
  the runs take malloc to succeed.
- The DOS and Mac branches, the file, move and stopwatch routines of `sysspec.c`.
- The one-slot buffer starts after buffer_init, although main creates the reading thread
  first; the mutex and condition variable are taken to behave as their standard says, and
  the asserts and teardown are left out.
- The numeric sort, Huffman, IDEA, assignment and neural net benchmarks: nbench1.c is not
  part of this model. The menus, drivers, tickers and other demonstration programs only call
  the operating system.
