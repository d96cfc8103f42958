# Models and proofs for the porting layer

This project models the parts of the repository that contain algorithms rather
than configuration, and proves what they promise:

- `Options`, `Words`, `Arithmetic`, `CIntegers`, `TypeQueries`, `RangeOverflow`, `MultiplyRange`,
  `TypeOverflow`, `Wrapv`, `ResultTypes`, `StrlenBound`: the integer-overflow macros of
  `benchtests/port/intprops.h`. A C expression is modelled as a type (conversion
  rank and signedness, on a host with any widths) and a value that is absent where
  evaluation would be undefined. Integer promotion, the usual arithmetic
  conversions and truncating division follow sections 6.3.1.1, 6.3.1.8 and 6.5.5
  of ISO/IEC 9899:2011. Each macro is one function, operator for operator; a
  theorem of the form `Macro(..) == Truth(p)` therefore says both that the macro
  is 1 exactly when `p` holds and that nothing it evaluates is undefined. `ResultTypes`
  says what the theorems come to for operands of given types, by a rule of its own for
  the type in which C computes.
- `Timespec`: the saturating `timespec_sub`, a client of those macros.
- `LdnsPower`: `ldns_power`, exponentiation by squaring in a `long`.
- `RingSpec`, `RingEntries`, `List`: the intrusive circular lists of
  `ethercat/nuttx/linux/list.h`, as pointer surgery in a heap of `ListHead` objects refining
  operations on sequences, over any number of disjoint rings.
- `LcmCodec`, `LcmLayout`, `LcmMemory`, `LcmEncode`, `LcmDecode`, `LcmClone`: the generated LCM
  message code of `lcm/test/types/lcmtest_bools_t.c`: encoder, size functions, decoder,
  cleanup and deep copies over buffers, message structures and heap blocks, for any
  number of messages, against a wire format on values whose bytes `LcmLayout` lists.
- `LcmHash`: the recursive type fingerprint over a graph of message types, with
  `lcm/test/types/lcmtest2_cross_package_t.c` as the instance cited.
- `WaitQueue`, `Kthread`: the concurrency shims of `ethercat/nuttx/linux`, as state
  machines whose steps interleave in every way; a negative semaphore value counts
  the blocked waiters.
- `Multisets`, `UsbPackets`, `UsbRun`, `UsbOutcome`, `UsbWrite`: the USB transmit thread of
  `mtp-responder/mtp_usb_driver_nuttx.c` against an environment that chooses
  arrivals, short writes, failed polls and failed writes.
- `Argp`, `ArgpPrint`: the option parser of `open1722/argp.c`, and what it makes of every
  form of an option.

Where code and documentation disagree, the model follows the code:

- `benchtests/port/intprops.h:642-646` says the add check is true when the sum is
  outside TMIN..TMAX. It is also true of some sums inside: `200u + -250` for a
  signed char. `RangeOverflow.AddRangeExact` and
  `Wrapv.PlusMeetsItsDocumentationIff` give the exact condition.
- `ethercat/nuttx/linux/list.h:195-201` says `list_del` resets the pointers of the
  element, and makes an empty list of a head. It does neither: the element keeps its
  pointers, and the entries of a deleted head remain a ring of their own. The comment
  on `list_empty` (line 234) states the result the wrong way round.
- An option without a value of its own takes the next argument as its value even where the
  help text shows that it has none (`open1722/argp.c:62-66`, `98-105`); `ArgpPrint.LongVerdict`
  and `ArgpPrint.ShortVerdict` follow the code.
- `kthread_stop` (`ethercat/nuttx/linux/kthread.c:109-114`) ignores the result of
  `nxsem_wait`, which a signal can interrupt. Then the task is freed while its thread
  still runs; `Kthread.FreeIsTooEarlyIff` says exactly when, before the free.
- `wake_up_all` (`ethercat/nuttx/linux/wait.h:92-100`) stops at the first positive
  value it reads, so with two waiters between their test and their wait it can leave
  one behind. `WaitQueue.LeftBehindAtCallIff` says exactly when, at the call, and
  `WaitQueue.LeftBehindBySignalsIff` where signals make waiters in `wait_event` wait
  again (line 61).
- The parsers of `open1722/argp.c` take `-h` for a request for help at the first
  table entry with another key, so an `h` further down the table is never reached;
  `ArgpPrint.LongVerdict`, `ArgpPrint.ShortVerdict` and `ArgpPrint.DeliveredIff` include
  this condition and `ArgpPrint.SecondEntryHIsHelp` shows a case.
- The transmit thread (`mtp-responder/mtp_usb_driver_nuttx.c:219-221`) does not free
  the buffer of a zero-length packet; it is freed at exit unless a later packet has
  overwritten the pointer. `UsbRun.EverythingFreedIff` says exactly when all are freed,
  and `UsbRun.ZeroLengthPacketCanLeak` gives a run that leaks one. Nothing in the
  repository queues packets, so whether a zero-length packet ever carries a buffer is
  for the library that does.
- A message that is refused after its fixed fields leaves the blocks allocated for it
  behind (`lcm/test/types/lcmtest_bools_t.c:141-151`, `276-278`);
  `LcmClone.HandlerStub` says exactly when, and `LcmDecode.FourteenOfFifteenBytes`
  gives the shortest such message.
- `benchtests/port/intprops.h:151-153` lists the sizes 2, 4, 16, ... of the unsigned
  types whose INT_STRLEN_BOUND can be one too large; size 1 belongs to them
  (`StrlenBound.OverestimatedSizes`).

`dafny verify dfyconfig.toml` checks the whole project.

## Model

| member | source | states |
|---|---|---|
| TypeQueries.ConvertIs | benchtests/port/intprops.h:40 | _GL_INT_CONVERT(e, v) has the common type of e and v and the value of v as converted to it, whatever e is |
| TypeQueries.ExprSignedIs | benchtests/port/intprops.h:66 | EXPR_SIGNED(e) is 1 exactly when e's promoted type is signed |
| TypeQueries.ConvertSigned | benchtests/port/intprops.h:651 | the tests EXPR_SIGNED(_GL_INT_CONVERT(a, b)) ask whether the common type of a and b is signed |
| TypeQueries.TypeSignedIs | benchtests/port/intprops.h:60 | TYPE_SIGNED(t) is 1 exactly for signed t, also where both comparands are promoted |
| TypeQueries.TypeBoundsAre | benchtests/port/intprops.h:79-83 | TYPE_MINIMUM and TYPE_MAXIMUM are the bounds of every type, of any width, with no shift or product overflowing on the way |
| TypeQueries.SignedIntMaximumIs | benchtests/port/intprops.h:97-98 | _GL_SIGNED_INT_MAXIMUM is the maximum of the promoted type, computed without leaving it |
| TypeQueries.BoundsAre | benchtests/port/intprops.h:89-98 | _GL_INT_MINIMUM and _GL_INT_MAXIMUM are the bounds of the promoted type, signed or unsigned |
| TypeQueries.NegateOverflowExact | benchtests/port/intprops.h:436-437 | the fallback INT_NEGATE_OVERFLOW is 1 exactly when -a does not fit a's promoted type |
| RangeOverflow.SubtractRangeExact | benchtests/port/intprops.h:663-674 | for all types and values of a, b and the range, the subtract check is 1 exactly when a - b is outside tmin..tmax, and evaluates nothing undefined |
| RangeOverflow.AddRangeExact | benchtests/port/intprops.h:648-662 | the add check is 1 exactly when a + b is outside tmin..tmax or the sum is negative, fits, is computed in an unsigned type and has an operand above tmax; it evaluates nothing undefined |
| MultiplyRange.MultiplyRangeExact | benchtests/port/intprops.h:675-695 | for all types and values, the multiply check is 1 exactly when a * b is outside tmin..tmax, and no division it evaluates overflows or divides by zero |
| TypeOverflow.SimpleAddIs | benchtests/port/intprops.h:209-212 | with the bounds of the common type, INT_ADD_RANGE_OVERFLOW is exact for operands of any types with that common type; where it is unsigned, for a first operand that is not negative |
| TypeOverflow.SimpleSubtractIs | benchtests/port/intprops.h:218-221 | the same for INT_SUBTRACT_RANGE_OVERFLOW |
| TypeOverflow.SimpleMultiplySignedIs | benchtests/port/intprops.h:238-249 | the same for INT_MULTIPLY_RANGE_OVERFLOW, b == -1 included |
| TypeOverflow.SimpleMultiplyUnsignedIs | benchtests/port/intprops.h:238-249 | with a zero minimum, it is exact when no operand is negative opposite a positive one |
| TypeOverflow.AddOverflowExact | benchtests/port/intprops.h:342-346 | INT_ADD_OVERFLOW is 1 exactly when a + b does not fit the operands' common type, also for one signed and one unsigned operand |
| TypeOverflow.SubtractOverflowExact | benchtests/port/intprops.h:347-351 | INT_SUBTRACT_OVERFLOW is 1 exactly when a - b does not fit the common type |
| TypeOverflow.MultiplyOverflowExact | benchtests/port/intprops.h:352-354 | INT_MULTIPLY_OVERFLOW is 1 exactly when a * b does not fit the common type |
| TypeOverflow.LeftShiftOverflowExact | benchtests/port/intprops.h:277-280 | INT_LEFT_SHIFT_OVERFLOW is 1 exactly when a * 2^n does not fit a's promoted type, for 0 <= n < width |
| Wrapv.StoredIs | benchtests/port/intprops.h:639-640 | the stored value is the sum, difference or product wrapped into the result's type, for every operand and result type |
| Wrapv.OverflowIs | benchtests/port/intprops.h:516-545 | with the limits passed for a result type, the check says whether the exact result fits it, up to the additions named in AddRangeExact |
| Wrapv.WrapvExact | benchtests/port/intprops.h:616-619 | INT_ADD/SUBTRACT/MULTIPLY_WRAPV store the congruent value in range; the flag is raised exactly when it is not the true result or the addition is one of those |
| Wrapv.MinusAndTimesMeetTheirDocumentation | benchtests/port/intprops.h:383-385 | for - and * the flag is 1 exactly when the stored low-order bits are not the numerically correct answer |
| Wrapv.PlusMeetsItsDocumentationIff | benchtests/port/intprops.h:383-385 | for + the same holds if and only if the sum is not one of those the add check misjudges |
| Wrapv.PlusIsExactAboveTheMinimum | benchtests/port/intprops.h:648-662 | for + the flag is exact when the result is unsigned or no operand is below its minimum |
| Wrapv.PlusCanReportAFittingSum | benchtests/port/intprops.h:642-654 | a concrete sum that fits and is reported: 200u + -250 into a signed char |
| Wrapv.SmallishIsIntWrapv | benchtests/port/intprops.h:561-568 | for results narrower than int, the version that cannot name the result's type stores and returns the same as the one that can |
| ResultTypes.CommonIs | benchtests/port/intprops.h:40 | C computes a binary operation in the highest rank among int's and the operands', and in an unsigned type exactly when the signed one of that rank cannot hold what an operand's type can: promotion and usual arithmetic conversions agree with this one rule |
| ResultTypes.PromotedIs | benchtests/port/intprops.h:86-87 | the same for one operand |
| ResultTypes.ConvertedIs | benchtests/port/intprops.h:40 | _GL_INT_CONVERT(e, v) has that type, and keeps the value of v wherever the type has it |
| ResultTypes.BinaryOverflowsAre | benchtests/port/intprops.h:342-354 | INT_ADD_OVERFLOW, INT_SUBTRACT_OVERFLOW and INT_MULTIPLY_OVERFLOW are 1 exactly when the result does not fit that type |
| ResultTypes.UnaryOverflowsAre | benchtests/port/intprops.h:455-458 | so are INT_NEGATE_OVERFLOW and INT_LEFT_SHIFT_OVERFLOW, and EXPR_SIGNED and the bounds of an expression are those of that type |
| ResultTypes.HigherRankDecides | benchtests/port/intprops.h:342-354 | with an operand of at least int's and the other's rank, sums, differences and products are checked against its type, or, where that is signed and too small for the other's type, against the unsigned type of its rank |
| ResultTypes.NarrowNeverOverflows | benchtests/port/intprops.h:416-421 | sums, differences and negatives of operands at least two bits narrower than int, signed or unsigned, are never reported; products exactly when they leave int |
| ResultTypes.NarrowWrapv | benchtests/port/intprops.h:416-421 | the WRAPV macros report exactly the results of such operands that do not fit where they are stored |
| ResultTypes.SumsInSigned | benchtests/port/intprops.h:616-619 | wherever C computes in a signed type the flag of INT_ADD_WRAPV is exact |
| ResultTypes.MisjudgedSums | benchtests/port/intprops.h:648-662 | the sums in range that the add check reports are the negative ones computed in an unsigned type with an operand above the range |
| StrlenBound.TwoTo485 | benchtests/port/intprops.h:138-141 | 2^485 < 10^146, the fact behind the constants |
| StrlenBound.BitsFit | benchtests/port/intprops.h:143 | 2^b < 10^INT_BITS_STRLEN_BOUND(b) for every b >= 1 |
| StrlenBound.DigitsRead | benchtests/port/intprops.h:145-146 | the decimal text the bound is about reads back as the number |
| StrlenBound.TightBelow2621 | benchtests/port/intprops.h:138-141 | for 1 <= b < 2621 the largest value of b bits needs all INT_BITS_STRLEN_BOUND(b) digits |
| StrlenBound.NotTightAt2621 | benchtests/port/intprops.h:138-141 | for b = 2621 it needs one less |
| StrlenBound.TypeBoundIsReached | benchtests/port/intprops.h:156-158 | for types of fewer than 2621 bits besides the sign, the maximum, or the minimum with its minus sign, has exactly INT_STRLEN_BOUND characters |
| StrlenBound.StrlenBoundHolds | benchtests/port/intprops.h:156-158 | the decimal text of any value of any integer type, minus sign included, fits INT_STRLEN_BOUND |
| StrlenBound.UnaskedBoundHolds | benchtests/port/intprops.h:135 | so it does where the signedness of the type cannot be asked for and is taken to be signed |
| StrlenBound.UnaskedOverestimate | benchtests/port/intprops.h:151-153 | that bound is the same for signed types and at most one more for unsigned ones, exactly when the last bit needs no further digit |
| StrlenBound.OverestimatedSizes | benchtests/port/intprops.h:151-153 | it is one more for unsigned types of 1, 2, 4 and 16 bytes, and exact for 8 |
| Timespec.CanStepDown | benchtests/port/support/timespec.c:51 | the test -TYPE_SIGNED (time_t) < rs says whether rs can be decremented, for signed and unsigned time_t |
| Timespec.TimespecSub | benchtests/port/support/timespec.c:36-81 | on normalised times the result is normalised and is the nanosecond difference clamped to (minimum, 0)..(maximum, 999999999), for time_t of any width and signedness |
| Timespec.NormalTimesDiffer | benchtests/port/support/timespec.c:76-80 | a normalised time is determined by its nanoseconds, so the contract above fixes the result |
| LdnsPower.OverflowIsFinal | ldns/config/ldns/util.h:220-230 | once a power of a leaves the range of long, every higher power has left it |
| LdnsPower.Power | ldns/config/ldns/util.h:218-232 | 1 for b < 1; for b >= 1, a^b without overflow on the way exactly when a^b fits long |
| List.UnderscoreListAdd | ethercat/nuttx/linux/list.h:135-143 | splicing between the two ends of a ring gives the ring with the entry added there |
| List.UnderscoreListDel | ethercat/nuttx/linux/list.h:187-192 | unlinking leaves the rest as a ring in order, and the entry itself untouched unless it was alone |
| List.InitListHead | ethercat/nuttx/linux/list.h:129-133 | the node becomes a ring of its own, every other ring is kept |
| List.ListAdd | ethercat/nuttx/linux/list.h:160-164 | over all rings of the heap: the entry comes right after the head, nothing else changes |
| List.ListAddTail | ethercat/nuttx/linux/list.h:181-185 | the entry comes right before the head, nothing else changes |
| List.ListDel | ethercat/nuttx/linux/list.h:208-212 | the entry leaves its ring, the others keep their order; its own pointers are not reset |
| List.ListDelInit | ethercat/nuttx/linux/list.h:214-219 | the entry leaves its ring and is a ring of its own, on an entry or a head |
| List.ListMoveTail | ethercat/nuttx/linux/list.h:221-226 | the entry leaves its ring and comes right before a head of the same or another ring |
| List.ListEmpty | ethercat/nuttx/linux/list.h:236-240 | true exactly when the head is alone in its ring |
| List.ListForEachEntry | ethercat/nuttx/linux/list.h:316-319 | terminates, visiting exactly the entries of the head's list in order |
| List.ListForEachEntryReverse | ethercat/nuttx/linux/list.h:335-338 | terminates, visiting the reversed sequence |
| List.ListForEachEntrySafe | ethercat/nuttx/linux/list.h:328-332 | whatever the body does to each element it is given, deleting it with list_del or list_del_init, moving it to another list or leaving it, visits each element present at the start once, in order, and leaves the others in order; the rings are as after the same operations on sequences |
| List.Perform | ethercat/nuttx/linux/list.h:129-226 | any one operation on the heap refines the same operation on sequences |
| List.Run | ethercat/nuttx/linux/list.h:129-226 | any interleaving of the operations over any number of rings refines the same run on sequences; next and prev stay inverse and the rings disjoint |
| RingSpec.AddConserves | ethercat/nuttx/linux/list.h:135-143 | adding adds exactly one occurrence of one element |
| RingSpec.DetachConserves | ethercat/nuttx/linux/list.h:187-192 | detaching removes exactly one |
| RingSpec.DetachLinked | ethercat/nuttx/linux/list.h:187-192 | after detaching, the rings are disjoint and hold all but the detached element |
| RingSpec.ApplyConserves | ethercat/nuttx/linux/list.h:129-226 | each operation adds what it gains and removes what it drops, and nothing else |
| RingSpec.RunConserves | ethercat/nuttx/linux/list.h:129-226 | over any run no element is lost or duplicated, moves and list_del_init included |
| RingSpec.AddAfterPrepends | ethercat/nuttx/linux/list.h:145-164 | list_add prepends to the list of its head |
| RingSpec.AddBeforeAppends | ethercat/nuttx/linux/list.h:166-185 | list_add_tail appends to the list of its head |
| RingSpec.DetachEntry | ethercat/nuttx/linux/list.h:194-212 | deleting the n-th entry of a list leaves the other entries in order |
| RingSpec.DisposeEntry | ethercat/nuttx/linux/list.h:321-332 | deleting the n-th entry in any of these ways is legal, leaves the other entries in order and keeps the lists others are moved to apart |
| RingSpec.DetachedHeadLeavesEntries | ethercat/nuttx/linux/list.h:199-219 | deleting a head leaves its entries as their own ring in order |
| RingSpec.OtherListsKept | ethercat/nuttx/linux/list.h:129-226 | a change of one ring leaves the list of every head on another ring as it was |
| RingEntries.GivenList | ethercat/nuttx/linux/list.h:145-226 | the list an operation is given: list_add puts the entry in front, list_add_tail at the end, list_move_tail at the end once it is gone from where it was |
| RingEntries.OwnList | ethercat/nuttx/linux/list.h:129-219 | INIT_LIST_HEAD and list_del_init leave the element with an empty list, list_del on no list |
| RingEntries.OtherLists | ethercat/nuttx/linux/list.h:129-226 | every operation takes its element off any other list that has it and leaves the rest of that list in order |
| RingEntries.DetachKeepsOthers | ethercat/nuttx/linux/list.h:187-192 | unlinking removes the element from the list of every other head and nothing else |
| LcmCodec.HashRoundTrip | lcm/test/types/lcmtest_bools_t.c:84 | eight big-endian bytes give back the 64-bit fingerprint |
| LcmCodec.TakeIff | lcm/test/types/lcmtest_bools_t.c:141-143 | an array field is taken exactly from the bytes that encode it, and exactly n of them |
| LcmCodec.TakeRowsIff | lcm/test/types/lcmtest_bools_t.c:145-152 | the ragged array is taken exactly from the bytes that encode its rows |
| LcmCodec.ParseBodyIff | lcm/test/types/lcmtest_bools_t.c:123-156 | an element is decoded at a place exactly when the bytes there are the encoding of that well-formed element |
| LcmCodec.ParseIff | lcm/test/types/lcmtest_bools_t.c:186-200 | decoding gives v and stops at end exactly when the first end bytes are the encoding of the well-formed v |
| LcmCodec.RoundTrip | lcm/test/types/lcmtest_bools_t.c:79-91 | decoding an encoding with any trailing bytes returns the message and consumes exactly the encoding |
| LcmCodec.CutShort | lcm/test/types/lcmtest_bools_t.c:123-156 | decoding looks at no byte beyond those it consumes and returns an error when one of them is missing |
| LcmCodec.PrefixIsRefused | lcm/test/types/lcmtest_bools_t.c:186-200 | every strict prefix of a valid encoding is refused with the error return |
| LcmCodec.EncodingsArePrefixFree | lcm/test/types/lcmtest_bools_t.c:46-91 | distinct messages encode differently and no encoding is a prefix of another |
| LcmCodec.ParseBodiesIff | lcm/test/types/lcmtest_bools_t.c:123-156 | any number of elements is decoded exactly from their encodings, one after the other |
| LcmCodec.RefusedTakesBlocks | lcm/test/types/lcmtest_bools_t.c:141-151 | an element that is refused has allocated a block if and only if its fixed fields were there |
| LcmLayout.BigEndianByte | lcm/test/types/lcmtest_bools_t.c:84 | byte i of k is the number divided by 256^(k-1-i), modulo 256: the most significant byte comes first |
| LcmLayout.FromBigEndianByte | lcm/test/types/lcmtest_bools_t.c:192 | a number is read from bytes in that order |
| LcmLayout.OneByte | lcm/test/types/lcmtest_bools_t.c:51-63 | a non-negative number travels in a byte as itself, a negative one as itself plus 256 |
| LcmLayout.EncodingIsLaidOut | lcm/test/types/lcmtest_bools_t.c:46-91 | what every byte of an encoding is: the fingerprint, the fixed fields, the first array, and element j of row i of the second behind all earlier rows; and how many bytes there are |
| LcmLayout.LayoutIff | lcm/test/types/lcmtest_bools_t.c:46-91 | a byte sequence is laid out so exactly if it is the encoding |
| LcmLayout.ParsedIff | lcm/test/types/lcmtest_bools_t.c:129-200 | decoding succeeds exactly on bytes laid out so for a well-formed message, whatever follows them, and yields that message |
| LcmEncode.EncodeElement | lcm/test/types/lcmtest_bools_t.c:51-75 | one element, read through its pointers: succeeds exactly when maxlen is enough, writes the element's encoding, and on failure only a beginning of it inside the window; the message is unchanged |
| LcmEncode.EncodeRows | lcm/test/types/lcmtest_bools_t.c:68-73 | the loop over the ragged array completes the element under the same promise |
| LcmEncode.EncodeArray | lcm/test/types/lcmtest_bools_t.c:46-77 | the same for any number of elements one after the other |
| LcmEncode.Encode | lcm/test/types/lcmtest_bools_t.c:79-91 | encoding succeeds exactly when maxlen is at least the encoded size, then writes the encoding, byte for byte as LcmLayout lays it out with the fingerprint's most significant byte first, and returns its length; in any case nothing outside offset..offset+maxlen is written |
| LcmEncode.EncodedArraySize | lcm/test/types/lcmtest_bools_t.c:93-116 | the size is the length of the concatenated encodings |
| LcmEncode.EncodedSize | lcm/test/types/lcmtest_bools_t.c:118-121 | the size is the length of what lcmtest_bools_t_encode writes |
| LcmEncode.Publish | lcm/test/types/lcmtest_bools_t.c:248-261 | a buffer of the encoded size always suffices; the transport gets exactly the encoding, its answer is returned, and the buffer is freed; without memory -1 and nothing sent |
| LcmDecode.DecodeHeader | lcm/test/types/lcmtest_bools_t.c:129-139 | the fixed fields are read exactly when six bytes are there |
| LcmDecode.DecodeOneDim | lcm/test/types/lcmtest_bools_t.c:141-143 | the array sized by an earlier field gets one fresh block, or none for no elements, with its bytes |
| LcmDecode.DecodeRow | lcm/test/types/lcmtest_bools_t.c:148-150 | one more row of the ragged array in a fresh block of its own |
| LcmDecode.DecodeRows | lcm/test/types/lcmtest_bools_t.c:145-152 | the ragged array as parsed, all blocks fresh and separate; failure and a negative count are told apart |
| LcmDecode.DecodeElement | lcm/test/types/lcmtest_bools_t.c:127-154 | on success the message parsed, in fresh blocks that are all it allocated; whatever the outcome, it allocates exactly when the fixed fields are there with a positive count |
| LcmDecode.DecodeArray | lcm/test/types/lcmtest_bools_t.c:123-156 | any number of messages, each in fresh blocks of its own, no block in two of them, together all that was allocated |
| LcmDecode.Decode | lcm/test/types/lcmtest_bools_t.c:186-200 | with the fingerprint checked first: returns what Parse says of the window, negative exactly when it refuses; a refused message leaves blocks behind if and only if fingerprint and fixed fields were right and there |
| LcmClone.CleanupElement | lcm/test/types/lcmtest_bools_t.c:161-182 | frees every block of one message exactly once and nothing else |
| LcmClone.CleanupArray | lcm/test/types/lcmtest_bools_t.c:158-184 | frees every block of any number of messages exactly once and nothing else |
| LcmClone.DecodeCleanup | lcm/test/types/lcmtest_bools_t.c:202-205 | the same for one message |
| LcmDecode.CutAfterHeader | lcm/test/types/lcmtest_bools_t.c:141-151 | every encoding cut off after its fixed fields, but before its end, is such a refused message that leaves blocks behind |
| LcmDecode.FourteenOfFifteenBytes | lcm/test/types/lcmtest_bools_t.c:141-151 | a concrete one: 14 bytes of a 15-byte encoding |
| LcmClone.UserHandler | lcm/test/types/lcmtest_bools_t.c:282 | any handler: reads the message, allocates and keeps blocks, frees blocks of its own |
| LcmClone.HandlerStub | lcm/test/types/lcmtest_bools_t.c:268-285 | a message that decodes leaves the heap just as its handler does; a refused one leaves it as it was, except exactly when it was cut off after its fixed fields |
| LcmClone.CloneFields | lcm/test/types/lcmtest_bools_t.c:212-221 | the fields and a separate copy of the first array |
| LcmClone.CloneRow | lcm/test/types/lcmtest_bools_t.c:226-227 | one more row copied into a fresh block, source rows untouched |
| LcmClone.CloneRows | lcm/test/types/lcmtest_bools_t.c:223-229 | all rows equal to the source's, in fresh separate blocks |
| LcmClone.CloneElement | lcm/test/types/lcmtest_bools_t.c:210-231 | an equal message, so of equal encoding, sharing no block with its source |
| LcmClone.CloneArray | lcm/test/types/lcmtest_bools_t.c:207-233 | the same for any number of messages, the clones sharing no block with the sources or each other, and the sources unchanged |
| LcmClone.Copy | lcm/test/types/lcmtest_bools_t.c:235-240 | the same in a fresh structure |
| LcmClone.Destroy | lcm/test/types/lcmtest_bools_t.c:242-246 | frees the blocks of the message and the message, each once |
| LcmHash.RotationIsInvertible | lcm/test/types/lcmtest2_cross_package_t.c:29 | the final step is a one-bit rotation to the left, and invertible |
| LcmHash.OwnFingerprint | lcm/test/types/lcmtest2_cross_package_t.c:12-30 | the fingerprint, in numbers, of a type whose fields are primitive or of its own type: its base number plus those of the primitive fields modulo 2^64, doubled, with the top bit coming round |
| LcmHash.OnChainAddsNothing | lcm/test/types/lcmtest2_cross_package_t.c:14-17 | fields of types being hashed add nothing |
| LcmHash.SmallerRest | lcm/test/types/lcmtest2_cross_package_t.c:19-21 | each level of recursion leaves fewer types off the chain, so hashing any finite graph terminates, cyclic or not |
| LcmHash.OnChain | lcm/test/types/lcmtest2_cross_package_t.c:14-17 | the loop finds a type exactly when it is on the chain |
| LcmHash.ComputeHash | lcm/test/types/lcmtest2_cross_package_t.c:12-30 | the 64-bit code computes the hash of the type graph |
| LcmHash.ChainMattersOnlyBelow | lcm/test/types/lcmtest2_cross_package_t.c:12-30 | the hash of a type depends only on which types reachable from it are on the chain |
| LcmHash.NestedHashIsFingerprint | lcm/test/types/lcmtest2_cross_package_t.c:24-27 | a nested type that leads back to no type being hashed contributes exactly its own fingerprint |
| LcmHash.RedefinitionUnseen | lcm/test/types/lcmtest2_cross_package_t.c:14-17 | changing the base number of a type on the chain changes no hash computed below it |
| LcmHash.BaseDeterminesFingerprint | lcm/test/types/lcmtest2_cross_package_t.c:24-29 | two definitions of a type that differ only in its base number have equal fingerprints exactly when the numbers are equal, recursive types included |
| LcmHash.Cache.GetHash | lcm/test/types/lcmtest2_cross_package_t.c:32-40 | in any order of calls the cached answer is the one recomputation would give |
| WaitQueue.InitInv | ethercat/nuttx/linux/wait.h:80-85 | a fresh queue satisfies the semaphore invariant |
| WaitQueue.StepInv | ethercat/nuttx/linux/wait.h:50-65 | every step of waiters and wakers, and every signal to a waiter of either kind, keeps: the value is negative exactly by the number of blocked waiters |
| WaitQueue.RunInv | ethercat/nuttx/linux/wait.h:50-100 | so does every run, whatever the condition does |
| WaitQueue.UnitsAreConserved | ethercat/nuttx/linux/wait.h:50-100 | over every run the value changes by a unit up for every post, wake_up_interruptible and wait cut short or started again by a signal, and one down for every wait entered; the blocked waiters are then as many as it is below zero |
| WaitQueue.ReturnsOnTrueCondition | ethercat/nuttx/linux/wait.h:53-64 | a waiter returns only from a test that found the condition true |
| WaitQueue.QuietStep | ethercat/nuttx/linux/wait.h:92-100 | once the condition holds, every step keeps the post budget and decreases a measure, but for a signal that makes a waiter in wait_event wait again, which adds one |
| WaitQueue.QuietRunShrinks | ethercat/nuttx/linux/wait.h:92-100 | the same over whole runs, with the signals counted |
| WaitQueue.MostPostsStep | ethercat/nuttx/linux/wait.h:96-99 | no step makes more posts possible than it makes |
| WaitQueue.PostsAreBounded | ethercat/nuttx/linux/wait.h:96-99 | once the condition holds, concurrent wake_up_all calls together make at most calls - value + (waiters between test and wait) posts, and none if that is negative; for one call 1 - value + waiters |
| WaitQueue.MostPostsAreMade | ethercat/nuttx/linux/wait.h:96-99 | the bound MostPosts behind it, from any state, is reached by some run |
| WaitQueue.QuietRunsTerminate | ethercat/nuttx/linux/wait.h:50-100 | with the condition permanently true the length of every run, from any state, is bounded by a number known at its start plus twice the signals to waiters in wait_event |
| WaitQueue.RetriesCanGoOn | ethercat/nuttx/linux/wait.h:61 | those signals have to be counted: repeated, they keep a waiter in wait_event from returning for as long as they come |
| WaitQueue.SettledMeansDoneOrBlocked | ethercat/nuttx/linux/wait.h:50-100 | when nothing can move but by a signal, every wake_up_all has returned and every waiter has returned or is blocked |
| WaitQueue.ProvidedStays | ethercat/nuttx/linux/wait.h:50-65 | with a unit for every waiter between test and wait, nobody is ever blocked again |
| WaitQueue.NobodyLeftBlocked | ethercat/nuttx/linux/wait.h:92-100 | if wake_up_all returns with at most one waiter between test and wait, nobody is ever blocked afterwards and every waiter returns |
| WaitQueue.LeftBehindIff | ethercat/nuttx/linux/wait.h:92-100 | after the last wake_up_all, a waiter can stay blocked if and only if more waiters are between test and wait than there are units |
| WaitQueue.WakeUpReachesTheOnlyWaiter | ethercat/nuttx/linux/wait.h:87-90 | with the condition true, one wake_up_interruptible is enough for a waiter that is alone between its test and the end of its wait: nobody is blocked afterwards |
| WaitQueue.WakeUpLeavesBehindIff | ethercat/nuttx/linux/wait.h:87-90 | with no wake_up_all under way, after a wake_up_interruptible a waiter can be left blocked if and only if more waiters are between test and wait than the value and the unit it adds |
| WaitQueue.LeftBehindAtCallIff | ethercat/nuttx/linux/wait.h:92-100 | when wake_up_all is called: without signals to waiters in wait_event, some run can end with all calls returned and a waiter blocked if and only if more waiters are between test and wait than 1 and than the value, posts already decided on included |
| WaitQueue.LeftBehindBySignalsIff | ethercat/nuttx/linux/wait.h:50-100 | with such signals, the waiters blocked in wait_event count as between test and wait, and the value without them |
| WaitQueue.TwoEnteringWaitersCanLoseOne | ethercat/nuttx/linux/wait.h:50-100 | a concrete run with two such waiters that leaves one blocked for good |
| Kthread.ActionInv | ethercat/nuttx/linux/kthread.c:57-126 | every action of creator, worker, stopper and signal keeps the protocol invariant of a task |
| Kthread.RunInv | ethercat/nuttx/linux/kthread.c:57-126 | so does every interleaving over any number of tasks |
| Kthread.SchedulingIsSafe | ethercat/nuttx/linux/kthread.c:57-114 | each task is freed at most once; unless a signal cut kthread_stop's wait short, nothing touches a freed task and kthread_stop returns only after threadfn has; running is true exactly from kthread_run to kthread_stop |
| Kthread.StopIsWoken | ethercat/nuttx/linux/kthread.c:64 | once the worker has posted, kthread_stop is not asleep |
| Kthread.StopReturns | ethercat/nuttx/linux/kthread.c:109-114 | once the worker has ended, kthread_stop can take its next step until it has returned, and has returned exactly when it has taken those it had left, at most three |
| Kthread.StopCanReturn | ethercat/nuttx/linux/kthread.c:57-114 | from every state of a task being stopped, some continuation without a signal ends with kthread_stop returned and the worker ended |
| Kthread.FreedTaskDanglesIff | ethercat/nuttx/linux/kthread.c:109-114 | a freed task can still be touched if and only if its thread was created and has not ended, and then a signal interrupted the wait |
| Kthread.InterruptedIff | ethercat/nuttx/linux/kthread.c:113 | the wait of a task counts as interrupted exactly when the schedule holds a signal for it |
| Kthread.UnsignalledIsSafe | ethercat/nuttx/linux/kthread.c:57-114 | in a schedule without a signal for the task nothing touches it after it is freed, and kthread_stop returns only after threadfn has |
| Kthread.FreeIsTooEarlyIff | ethercat/nuttx/linux/kthread.c:112-114 | just before the free: some continuation touches the task after it if and only if the wait was interrupted and no post has arrived |
| Kthread.SignalledStopFreesEarly | ethercat/nuttx/linux/kthread.c:112-113 | a concrete run in which a signal has the worker post on a freed task |
| UsbRun.ArrivedKeeps | mtp-responder/mtp_usb_driver_nuttx.c:184 | packets queued by others keep order and accounting |
| UsbRun.PurgedAllKeeps | mtp-responder/mtp_usb_driver_nuttx.c:319-322 | purging the queue keeps them |
| UsbRun.ReceivedKeeps | mtp-responder/mtp_usb_driver_nuttx.c:184 | so does receiving a packet of any kind over mtp_buf |
| UsbRun.WroteKeeps | mtp-responder/mtp_usb_driver_nuttx.c:199-207 | so does a write of any length |
| UsbRun.CompletedKeeps | mtp-responder/mtp_usb_driver_nuttx.c:210-212 | so does finishing a packet |
| UsbRun.StepKeeps | mtp-responder/mtp_usb_driver_nuttx.c:179-232 | every move of the environment and the thread's reaction keep the invariant |
| UsbRun.StepsKeep | mtp-responder/mtp_usb_driver_nuttx.c:179-232 | so does every sequence of moves |
| UsbRun.EndpointSeesPacketsInOrder | mtp-responder/mtp_usb_driver_nuttx.c:185-212 | for every pattern of short writes, failed polls and failed writes, the endpoint has accepted the concatenation of the completed bulk and data packets in order and the first `written` bytes of the current one; exactly the buffers of the packets done with are freed, each once |
| UsbRun.FatesAreFinal | mtp-responder/mtp_usb_driver_nuttx.c:179-232 | packets keep their order and what became of one never changes |
| UsbRun.RetriesSucceed | mtp-responder/mtp_usb_driver_nuttx.c:186-209 | however many attempts fail in between, the packet in hand is sent once as many good writes have happened as it had bytes left |
| UsbRun.OnlyCancellationPurges | mtp-responder/mtp_usb_driver_nuttx.c:202-205 | the running thread drops packets only after a write that failed with ENOMEM or ECANCELED |
| UsbRun.OnlyOtherPacketsEnd | mtp-responder/mtp_usb_driver_nuttx.c:213-232 | only an event, a zero-length packet or one of no known type can end the thread |
| UsbRun.ExitConserves | mtp-responder/mtp_usb_driver_nuttx.c:234-235 | after the exit sequence every buffer ever queued is freed or was overwritten in mtp_buf |
| UsbRun.FreedUnlessOverwritten | mtp-responder/mtp_usb_driver_nuttx.c:234-235 | in any consistent run, all buffers are freed exactly when none was overwritten in mtp_buf |
| UsbRun.StepsReject | mtp-responder/mtp_usb_driver_nuttx.c:222-231 | nothing follows a packet of no known type: it ends the thread |
| UsbRun.EverythingFreedIff | mtp-responder/mtp_usb_driver_nuttx.c:219-235 | however the thread came to its end, every buffer ever queued has been freed if and only if no zero-length packet with a buffer was followed by another packet received |
| UsbRun.ZeroLengthPacketCanLeak | mtp-responder/mtp_usb_driver_nuttx.c:219-235 | a concrete run that ends with a queued buffer never freed |
| UsbRun.NoDoubleFree | mtp-responder/mtp_usb_driver_nuttx.c:211-235 | no buffer is freed twice |
| UsbOutcome.CancellationPurges | mtp-responder/mtp_usb_driver_nuttx.c:202-205 | a write that fails with ENOMEM or ECANCELED drops everything that had arrived, in order, and frees exactly its buffers; the packet in hand stays as far as it was written |
| UsbOutcome.NothingSentAfterCancellation | mtp-responder/mtp_usb_driver_nuttx.c:202-205 | in every continuation, what was queued at a cancellation stays dropped and is never sent |
| UsbOutcome.FailureChangesNothing | mtp-responder/mtp_usb_driver_nuttx.c:187-201 | failed polls, polls that find the endpoint busy and other failed writes change nothing but what arrives meanwhile |
| UsbOutcome.WriteTakesTheNextBytes | mtp-responder/mtp_usb_driver_nuttx.c:199-212 | a successful write passes on the next bytes of the packet in hand, as many as the endpoint takes, and with the last one the packet is done with |
| UsbOutcome.NextIsTaken | mtp-responder/mtp_usb_driver_nuttx.c:184-225 | between packets the head of the queue is taken at once, and nothing else; its kind decides what becomes of it |
| UsbOutcome.EndsIff | mtp-responder/mtp_usb_driver_nuttx.c:213-232 | the thread ends exactly by taking an event or zero-length packet whose write fails, or a packet of no known type |
| UsbOutcome.EverythingIsDelivered | mtp-responder/mtp_usb_driver_nuttx.c:179-212 | with only bulk and data packets queued, no cancellation and no further arrivals, all of them have been sent and the endpoint has their bytes in order once there were as many good moves as bytes and packets left, whatever fails in between |
| UsbWrite.Transmitter.CleanUpMsgQueue | mtp-responder/mtp_usb_driver_nuttx.c:311-324 | empties the queue, freeing each buffer once |
| UsbWrite.Transmitter.WriteBulkIn | mtp-responder/mtp_usb_driver_nuttx.c:199-207 | the endpoint accepts the next bytes and written counts them |
| UsbWrite.Transmitter.Attempt | mtp-responder/mtp_usb_driver_nuttx.c:187-208 | one turn of the inner loop does what the state machine says for that move |
| UsbWrite.Transmitter.Complete | mtp-responder/mtp_usb_driver_nuttx.c:210-212 | the packet counts as sent and its buffer is freed |
| UsbWrite.Transmitter.SendBulk | mtp-responder/mtp_usb_driver_nuttx.c:186-212 | the loop over one packet refines the state machine, move for move |
| UsbWrite.Transmitter.Receive | mtp-responder/mtp_usb_driver_nuttx.c:184-185 | the next bulk or data packet becomes the one in hand |
| UsbWrite.Transmitter.SendOther | mtp-responder/mtp_usb_driver_nuttx.c:213-225 | events, zero-length and unknown packets get their treatment and status |
| UsbWrite.Transmitter.UsbWriteThread | mtp-responder/mtp_usb_driver_nuttx.c:167-237 | for every sequence of moves the thread ends up where the state machine does, and has exited exactly when that is over, with its queue purged, mtp_buf freed, and every buffer freed but those mtp_buf lost |
| Argp.FindEquals | open1722/argp.c:93 | the index of the first '=', or the length |
| Argp.ParseLongOption | open1722/argp.c:90-129 | the verdict on a long option, and how many arguments it used |
| Argp.ParseShortOption | open1722/argp.c:131-166 | the verdict on a short option, and how many arguments it used |
| Argp.ArgpParse | open1722/argp.c:172-198 | the callbacks made, in order, and whether and where parsing finished |
| Argp.ArgumentsAreConsumedOnce | open1722/argp.c:182-195 | in a run that does not exit, next strictly grows, each argument before the stop is consumed exactly once, and a second argument consumed is the value |
| Argp.EveryVerdictIsHeeded | open1722/argp.c:182-195 | in every run, each callback is the verdict on its option, and parsing goes on exactly until the first argument that is no option or whose verdict is an exit |
| Argp.SecondArgumentIsValue | open1722/argp.c:98-105 | an option that takes the next argument hands it to the callback |
| ArgpPrint.FormOf | open1722/argp.c:90-142 | every option argument but "-" has one of six forms: --name=value, --name with the next argument as its value, --name as the last argument, and the same with -k |
| ArgpPrint.LongVerdict | open1722/argp.c:90-129 | the verdict on a long option in each of these forms: the callback of the first entry whose name begins with it, with its value; exit 1 without such an entry, or without a value the entry needs; and --help in full exits with 0 unless the first entry answers to it |
| ArgpPrint.ShortVerdict | open1722/argp.c:131-166 | the same for short options, their keys and -h |
| ArgpPrint.PrintedIsJudged | open1722/argp.c:90-166 | a printable item makes exactly the callback it was printed for |
| ArgpPrint.PrintParse | open1722/argp.c:172-198 | printing items as --name=value, --name value, -kvalue or -k value, each in the form asked for, and parsing them delivers exactly those items in order, and stops at the first non-option after them |
| ArgpPrint.SecondEntryHIsHelp | open1722/argp.c:144-161 | a concrete table whose second key is 'h' and an argument -hx that exits with help |
| ArgpPrint.DeliveredIff | open1722/argp.c:90-166 | a printed item reaches its entry's callback, from its own arguments, if and only if a long name has no '=', begins no earlier entry's name and is not "help" apart from its value for a later entry; a key 'h' is the first entry's, a value in the same argument is not empty, and a key '-' stands apart and the first named entry has it |

## Left out

- Compiler builtins: only the fallback branches of the overflow macros are modelled.
- The `sizeof` dispatch of `_GL_INT_OP_WRAPV` where `_Generic` is missing (lines 571-608), except for results narrower than int: it selects the case of another type of the same width.
- INT_DIVIDE_OVERFLOW and INT_REMAINDER_OVERFLOW: what a correct answer is for an unsigned number divided by a negative one is not laid down.
- Shift counts and `TYPE_WIDTH` are plain numbers: the arithmetic in `size_t` around them cannot wrap.
- Types `bool`, bit-fields and floating types as operands of the macros.
- Timespec.TimespecSub: asks that int can hold 1000000000, as the source's enumeration constant does.
- LdnsPower.Power: returns nothing where signed overflow would be undefined in C, instead of a value.
- list.h: the `continue` and `from` variants of the traversals, and `container_of` (nodes stand for their containers).
- List.ListForEachEntrySafe: its body disposes of the entry it is given and of no other, which is all the loop allows; moving an entry within the list being walked is not covered.
- The other generated LCM message types (comments, byte arrays, nodes, primitives): the same code shapes with other field widths. The nested codec of the cross-package type adds no new step.
- LcmEncode.EncodeElement: asks for the non-negative counts and matching lengths the primitives ask for, and for a buffer that is none of the message's own blocks; the same for the other encoders.
- LcmDecode.Decode: a negative count on the wire has no meaning for the primitives of `lcm_coretypes.h`, which is not part of this model, and ends in a result of its own.
- LcmClone.HandlerStub: what the user's handler does besides using memory is left out, as are subscriptions.
- Failure of malloc, except where lcmtest_bools_t_publish tests for it.
- LcmHash: the graph lists each type's fields as in the generated sum; the address of get_hash stands for the type.
- WaitQueue: time-outs; a failure of nxsem_get_value; the order in which blocked waiters are released is any order.
- Kthread: nxsem_post is one step, although it reads the semaphore again after waking the waiter; freed addresses are not reused; owners call kthread_stop at most once, and kthread_bind not after it.
- UsbRun and UsbWrite: errno is reduced to whether it is ENOMEM or ECANCELED; thread cancellation, the control event raised by the purge, and the reading thread are left out. The bytes of events go to another endpoint and are not recorded.
- UsbRun.NoDoubleFree: speaks of addresses queued, so a heap that reuses an address counts it again.
- Argp: the text of print_help, callbacks that change state->next, and the character set (a key is the character's number). The argument "-" makes the source read past its end and ends in a result of its own.
- Generated configuration headers, camera property tables, sockets, ioctl and timer plumbing: no algorithm.
- `simple_strcasestr`: its success test can never hold, so it has no search property.
