# A verified model of the FIX 4.4 gateway's core

This project models the parts of the gateway in which a mistake is silent: the streaming parser, the
message printer, the two lock-free structures and the recovery of missed sequence numbers. It proves what
they promise for every input, every way of cutting the input into calls, every interleaving and every run.
Where the code does not keep a promise, the project says exactly when it does.

## What is proved

**Streaming parser.** A byte stream of well-formed messages may be cut into `parse` calls in any way: every
call decodes exactly the messages completed so far and carries over exactly the remaining bytes *if and only
if* no call ends inside a trailer and no carry-over overflows (`Chunking.ChunkingInvariance`). A fast
decoder accepts a frame if and only if the generic decoder accepts frame and trailer, the frame ends in SOH and
it has the decoder's minimum length; the fields are then equal (`WireFormat.FastRefinesGeneric`). The incremental state machine makes only legal transitions, and from every
configuration either makes progress or is in one of exactly two spinning configurations
(`StateMachine.ProgressOrSpin`). On well-formed messages it agrees with the generic decoder
(`StateMachine.MachineRefinesGeneric`), and it may stop for data anywhere and go on without loss
(`MachineVerdicts.MachineResumes`). The framing stage's verdict is given by the bytes alone
(`FramingVerdicts.FramingVerdict`), and when more bytes can still help is decided exactly
(`FramingHope.HopeExact`). On every input, pool slots are conserved and the context returns to
IDLE (`StreamParser.Parse`).

**Printer.** The checksum is computed over the stored fields, while the receiver sums the printed ones. The
difference is computed exactly (`Printer.ChecksumGap`), and printing followed by parsing is the identity if
and only if that difference is a multiple of 256 or checksums are not validated
(`PrintParse.PrintThenParse`). Messages built without a stored BodyLength, as the session manager builds them,
carry a wrong checksum for every body below a million bytes (`Printer.UnstampedIsWrong`).

**Lock-free structures.** The ring buffer is a FIFO queue over all interleavings of one producer and one
consumer (`Spsc.RingSafety`), and a push with room or a pop with a value always succeeds, whatever the other
thread does (`SpscProgress.PushOutcome`, `SpscProgress.PopOutcome`). The message pool is safe over all interleavings of one allocating thread and
any number of deallocating ones (`PoolThreads.PoolSafety`). With any number of allocating threads it is safe
if and only if at most one thread allocates or the pool has only one slot (`PoolExact.SafeExactly`).

**Session and gaps.** Accepted originals are strictly increasing, whatever follows, if and only if every
accepted SequenceReset leads forward: past its own number when it is an original, past the last accepted
original when it is a resend (`SessionManager.InOrderAcceptance`). They are consecutive when nothing is reset
or resent.
Every missing number gets an entry if and only if the ring has room. An entry causes at most five resend
attempts, each made at the first visit more than ten seconds after the one before and not earlier
(`GapRuns.PromptResend`).

## How the source is represented

- A byte buffer is a `string`. `static_cast<uint8_t>` is the remainder modulo 256, and sums wrap there.
- Signed overflow, and looking at bytes that were never received, are the explicit outcome `Undefined`. An
  exception that leaves a callee is `Threw`.
- A decoder is given all bytes received from its start on (`mem`) and the frame length it is told. The code
  reads the trailer behind that length.
- An unordered map iterates in an arbitrary order that it picks anew at every insertion or copy
  (`FixMessages.Rehash`), and results hold for every order.
- Clock readings, SendingTime stamps, the success of outbound routing and spurious failures of
  `compare_exchange_weak` are parameters.
- Threads are modelled as state machines with one atomic access per step, sequentially consistent.
- `hide` statements only keep definitions out of a proof's context.

## Where code and documentation differ

The model follows the code:

- The comment above the frame computation says BodyLength includes the checksum. The code ends the frame in
  front of it (src/protocol/stream_fix_parser.cpp:725-727).
- Error recovery never reports success. After the reset to IDLE it asks for the transition IDLE to IDLE,
  which its own table refuses (src/protocol/stream_fix_parser.cpp:1412-1418).
- The state machine reports twice the length of a message it accepts, because the loop adds the handler's
  own total to the bytes already counted (src/protocol/stream_fix_parser.cpp:398, 1379-1387).
- With an empty pool the state machine never returns, because AllocationFailed is not among the statuses
  that end its loop (src/protocol/stream_fix_parser.cpp:405-432).
- NeedMoreData is also reported where no further bytes can make a frame, and ten bytes without "8=" are
  an error although more bytes could (src/protocol/stream_fix_parser.cpp:633-701).
- Only six message types can be decoded by a strict parser. All others reach the generic decoder without
  their trailer, whose CheckSum it then misses (src/protocol/stream_fix_parser.cpp:1790-1794).
- A parser that has counted its limit of consecutive errors never decodes again on its own. The flag whose
  cooling period would reset it is never set (src/protocol/stream_fix_parser.cpp:1483-1505).
- The state machine takes a buffer that ends inside the version or BodyLength field for an error
  (src/protocol/stream_fix_parser.cpp:1549-1585).
- A trailer that `std::stoi` rejects makes a fast decoder lose its pool slot
  (include/protocol/stream_fix_parser.h:688).

## Model

| member | source | states |
|---|---|---|
| `Bytes.ParseInteger` | src/protocol/stream_fix_parser.cpp:760-774 | exactly the non-empty digit strings whose positional value fits an int are numbers, and their value is that positional value |
| `Bytes.ParseIntDec` | src/protocol/stream_fix_parser.cpp:765-773 | the reader inverts the canonical numeral of every non-negative int |
| `Bytes.StoiIntStr` | src/protocol/fix_message.cpp:556 | reading back a printed tag gives the tag, for every int |
| `Bytes.StoiMeaning` | src/protocol/fix_message.cpp:556 | on any text: white space, a sign and the longest digit run are read, what follows is ignored, and without a digit or beyond int it throws |
| `Bytes.ComputeByteSum` | src/protocol/fix_message.cpp:645-649 | the wrapping byte accumulator is the byte total modulo 256 |
| `Bytes.Pad3Value` | src/protocol/fix_message.cpp:651-653 | three zero-filled digits read back as the sum, by both integer readers |
| `FastString.IntToString` | src/utils/fast_string_conversion.cpp:27-65 | the view into the buffer is the canonical numeral of any int and reads back as it, sign and most negative value included |
| `FastString.WriteDigits` | src/utils/fast_string_conversion.cpp:53-57 | the right-to-left digit loop leaves the canonical numeral at the end of the buffer |
| `FramingVerdicts.FramingVerdict` | src/protocol/stream_fix_parser.cpp:610-757 | every verdict in terms of the bytes, each if and only if: a frame with its bounds, a broken header with its position, no "8=", an overflow, or what is still missing with the state reported |
| `Framing.StableUnderExtension` | src/protocol/stream_fix_parser.cpp:626-757 | a frame, or any error found after "8=", keeps its verdict and bounds whatever bytes follow |
| `FramingHope.HopeExact` | src/protocol/stream_fix_parser.cpp:610-757 | some continuation makes a frame if and only if what there is of a header is the beginning of one |
| `FramingHope.AsksWhenHopeful` | src/protocol/stream_fix_parser.cpp:626-735 | where more bytes can help, NeedMoreData is reported unless there is a frame already or ten bytes hold no "8=" |
| `FramingHope.WaitsInVain` | src/protocol/stream_fix_parser.cpp:693-701 | behind "9=abc" more data is asked for although no continuation can help |
| `ParserTypes.HandleErrorRecovery` | src/protocol/stream_fix_parser.cpp:1396-1422 | recovery ends in IDLE, skips at most the buffer and never reports success |
| `ParserTypes.AttemptErrorRecovery` | src/protocol/stream_fix_parser.cpp:1696-1710 | recovery never succeeds, and leaves IDLE exactly when entering ERROR_RECOVERY was legal |
| `ParserTypes.Predecessors` | src/protocol/stream_fix_parser.cpp:1440-1481 | the transition table read backwards: from where each state can be entered |
| `ParserTypes.RecoveryRefused` | src/protocol/stream_fix_parser.cpp:1696-1706 | recovery cannot be entered from MESSAGE_COMPLETE or from itself, and then skips nothing |
| `Decoders.TokenizeRendered` | src/protocol/stream_fix_parser.cpp:471-533 | splitting into fields undoes rendering, in front of any continuation |
| `Decoders.ParseMessage` | src/protocol/stream_fix_parser.cpp:455-562 | slot balance: one slot kept exactly on success, none on any failure, never an exception |
| `Decoders.DecodeGeneric` | src/protocol/stream_fix_parser.cpp:455-562 | the pointer-walking loop computes the tokenizer-based meaning on every buffer |
| `DecoderErrors.FieldVerdict` | src/protocol/stream_fix_parser.cpp:471-533 | what is missing from a field decides the error and its position; nothing missing gives tag, value and the next position |
| `DecoderErrors.GenericBroken` | src/protocol/stream_fix_parser.cpp:455-533 | behind any well-formed fields the first malformed one ends the scan, reported where it stands |
| `DecoderErrors.GenericChecks` | src/protocol/stream_fix_parser.cpp:535-562 | a complete scan is judged by the four required fields when strict, then by the checksum, and otherwise accepted whole |
| `FastDecoders.DecodeFast` | include/protocol/stream_fix_parser.h:519-1586 | the loop shared by the six specialisations computes its specification on every buffer, length and pool state |
| `FastDecoders.FastProfile` | src/protocol/stream_fix_parser.cpp:1763-1788 | exactly the types 0, 1, 2, 3, 8 and 9 have a specialisation, with shortest frames of 30, 25, 25, 25, 40 and 30 bytes |
| `DecoderErrors.FastRefusals` | include/protocol/stream_fix_parser.h:530-561 | the four reasons to turn a frame away before its body, in order, with what is reported |
| `DecoderErrors.FastBroken` | include/protocol/stream_fix_parser.h:598-660 | a malformed field behind well-formed ones: its kind decides the status, and its position is reported by four of the six |
| `DecoderErrors.FastBadLength` | include/protocol/stream_fix_parser.h:571-589 | a BodyLength that is no number is malformed and gives the slot back |
| `DecoderErrors.FastNoTrailer` | include/protocol/stream_fix_parser.h:664-674 | bytes other than "10=" behind the body are a checksum error, received bytes that end inside it are not enough |
| `DecoderErrors.DispatchVerdict` | src/protocol/stream_fix_parser.cpp:1747-1795 | a fast type goes to its specialisation, any other to the generic decoder with the frame alone |
| `DecoderErrors.NoMsgType` | src/protocol/stream_fix_parser.cpp:1727-1744 | without a terminated "35=" there is no type |
| `WireFormat.FastOnTrailer` | include/protocol/stream_fix_parser.h:664-702 | behind any frame, three trailer digits are accepted exactly when they are the frame's checksum or checksums are not validated; otherwise the slot is given back |
| `FastDecoders.ParseCompleteMessage` | src/protocol/stream_fix_parser.cpp:564-604 | slot balance through fast attempt and fallback: one slot on success, one lost on an exception, none otherwise |
| `WireFormat.MsgTypeFirst` | src/protocol/stream_fix_parser.cpp:1727-1744 | with MsgType first in the body the dispatcher finds it, whatever follows |
| `WireFormat.TokenizeTrailer` | src/protocol/stream_fix_parser.cpp:471-533 | the generic scan of body and trailer succeeds exactly when the fast scan of the body does or the body holds a CheckSum, with CheckSum appended |
| `WireFormat.FastRefinesGeneric` | include/protocol/stream_fix_parser.h:519-1586 | each specialisation accepts a frame if and only if the generic decoder accepts frame and trailer, the frame ends in SOH, has the minimum length, and no CheckSum inside the body hides a malformed field; equal fields, bytes and slots without such a CheckSum |
| `WireFormat.ShortFrame` | include/protocol/stream_fix_parser.h:1309 | a TestRequest with nothing but its MsgType is accepted by the generic decoder and turned down by the fast one, which wants 25 bytes |
| `WireFormat.LooseEnd` | include/protocol/stream_fix_parser.h:537 | whatever the fields, a "0" behind the last one is read as part of the trailer's tag by the generic decoder, which accepts, and is turned down by the fast one |
| `FastMessages.FramesWhole` | src/protocol/stream_fix_parser.cpp:626-757 | a complete well-formed frame is framed at once, whatever follows |
| `FastMessages.FramesPrefix` | src/protocol/stream_fix_parser.cpp:626-735 | a well-formed frame cut anywhere asks for more data |
| `FastMessages.DecodesWhole` | src/protocol/stream_fix_parser.cpp:564-604 | a whole message decodes to its content and consumes exactly its bytes |
| `FastMessages.DecodesCut` | include/protocol/stream_fix_parser.h:666-676 | a trailer cut short is read past the received bytes, or accepted one byte early |
| `FastMessages.TrailerVerdict` | include/protocol/stream_fix_parser.h:675-694 | for any three trailer bytes: exception and lost slot, acceptance, or the generic decoder's verdict on the frame without its trailer, each exactly when |
| `FastMessages.OtherTypesRejected` | src/protocol/stream_fix_parser.cpp:564-604 | a strict parser rejects every message of any other type, whatever follows the frame, and keeps the pool |
| `StreamParser.Parse` | src/protocol/stream_fix_parser.cpp:111-311 | on every input: slots are conserved up to one lost to a caught exception, IDLE is kept, the carry-over fits |
| `StreamParser.ErrorsCounted` | src/protocol/stream_fix_parser.cpp:117-311 | a decoded message sets the error count back, an error adds one, and a call refused outright changes nothing |
| `StreamParser.AfterErrorMeaning` | src/protocol/stream_fix_parser.cpp:1515-1525 | which errors move the context, from which states, and where to |
| `ParserObject.StreamFixParser.constructor` | src/protocol/stream_fix_parser.cpp:52-73 | a new parser carries nothing over and is IDLE |
| `ParserObject.StreamFixParser.Store` | src/protocol/stream_fix_parser.cpp:188-193 | the carry-over buffer holds exactly the leftover bytes |
| `ParserObject.StreamFixParser.Parse` | src/protocol/stream_fix_parser.cpp:111-311 | the loop over the carry-over buffer has the outcome, memory and decoded messages of its specification |
| `Chunking.DrainStream` | src/protocol/stream_fix_parser.cpp:153-287 | one call over a prefix of a stream is right exactly when the prefix does not end inside a trailer |
| `Chunking.StepExact` | src/protocol/stream_fix_parser.cpp:134-287 | a conforming session conforms after one more call if and only if that call is harmless |
| `Chunking.ChunkingInvariance` | src/protocol/stream_fix_parser.cpp:134-287 | for every way of cutting the stream, all calls conform if and only if all calls are harmless |
| `Chunking.SameBytesSameSession` | src/protocol/stream_fix_parser.cpp:134-287 | two harmless ways of cutting the same bytes decode the same messages and keep the same bytes |
| `Chunking.DecodedAll` | src/protocol/stream_fix_parser.cpp:271-298 | the whole stream decodes to the contents of all its messages with nothing left over |
| `Chunking.BreakerStaysOpen` | src/protocol/stream_fix_parser.cpp:1483-1505 | once the error count has reached the limit, nothing received is ever decoded again |
| `Printer.CalculateBodyLength` | src/protocol/fix_message.cpp:408-427 | the summing loop is the length of the rendered fields it covers |
| `Printer.AppendFields` | src/protocol/fix_message.cpp:392-406 | the printing loop renders exactly the fields outside the excluded tags, in order |
| `Printer.PrintFresh` | src/protocol/fix_message.cpp:342-390 | the printer's loops compute the printed text |
| `Printer.BodyLengthMeaning` | src/protocol/fix_message.cpp:361-379 | BodyLength counts the bytes up to the trailer exactly when MsgType is stored, otherwise it is four short |
| `Printer.ChecksumGap` | src/protocol/fix_message.cpp:381-433 | printed and stored byte totals differ by exactly the header fields printed but not stored or stored differently |
| `Printer.TrailerIsRight` | src/protocol/fix_message.cpp:381-384 | the printed trailer is the checksum of the printed bytes if and only if that difference is a multiple of 256 |
| `Printer.OrderDoesNotMatter` | src/protocol/fix_message.cpp:342-433 | length, checksum and byte total do not depend on the map's iteration order |
| `Printer.PrintedVerifies` | src/protocol/fix_message.cpp:656-673 | the library's verifier accepts its own output if and only if the difference is a multiple of 256, for all values |
| `Printer.StampedIsRight` | src/protocol/fix_message.cpp:342-390 | a message stored with header and computed BodyLength verifies |
| `Printer.UnstampedIsWrong` | src/manager/fix_session_manager.cpp:598-619 | a message stored without BodyLength never verifies, for any body below a million bytes |
| `Printer.ParseText` | src/protocol/fix_message.cpp:540-570 | the scanning loop computes its recursive meaning on every text |
| `Printer.LooseText` | src/protocol/fix_message.cpp:540-570 | a text without '=' stores nothing, a field with an unreadable tag is skipped, an unterminated last value is read to the end |
| `Printer.RoundTrip` | src/protocol/fix_message.cpp:540-570 | parsing a printed message over any stored fields recovers every field and the printed header and trailer |
| `PrintParse.PrintThenParse` | src/protocol/fix_message.cpp:342-433 | in every configuration the stream parser recovers exactly the printed fields and consumes every byte if and only if the checksum difference vanishes or checksums are not validated; otherwise a strict parser rejects and keeps the pool |
| `PrintParse.LostSlot` | src/protocol/stream_fix_parser.cpp:225-310 | a trailer that is no number ends the call in its catch block: nothing decoded, the rest dropped, one slot lost |
| `FixMessages.TypeNamesInvert` | src/protocol/fix_fields.cpp:9-56 | the two type tables are inverse to each other |
| `FixMessages.ClassifyNamed` | src/protocol/fix_message.cpp:222-244 | a stored type name is classified as its type, no name as UNKNOWN |
| `FixMessages.FixMessage.constructor` | src/protocol/fix_message.cpp:34-39 | a new message has the given fields and coherent caches |
| `FixMessages.FixMessage.FromText` | src/protocol/fix_message.cpp:24-32 | a message built from a text has SendingTime set first and then the fields of the text |
| `FixMessages.FixMessage.Copy` | src/protocol/fix_message.cpp:42-50 | a copy has the same fields and coherent caches |
| `FixMessages.FixMessage.Move` | src/protocol/fix_message.cpp:53-68 | moving keeps both messages coherent and carries fields and string cache over |
| `FixMessages.FixMessage.SetField` | src/protocol/fix_message.cpp:503-508 | exactly one field changes and both caches stay coherent |
| `FixMessages.FixMessage.RemoveField` | src/protocol/fix_message.cpp:204-211 | exactly one field goes, the string cache stays coherent, the type cache too |
| `FixMessages.FixMessage.ParseFromString` | src/protocol/fix_message.cpp:540-570 | the fields are those of the parsed text over the stored ones, both caches coherent |
| `FixMessages.FixMessage.ToString` | src/protocol/fix_message.cpp:342-390 | the text returned is always a fresh print, cached or not |
| `FixMessages.FixMessage.GetMsgTypeEnum` | src/protocol/fix_message.cpp:222-244 | the type returned is right if and only if the cache was coherent |
| `FixMessages.FixMessage.CopyAssign` | src/protocol/fix_message.cpp:71-83 | copy assignment takes the fields and leaves both caches coherent |
| `FixMessages.FixMessage.MoveAssign` | src/protocol/fix_message.cpp:85-105 | move assignment keeps the string cache coherent, and the type cache if and only if it was empty or happened to agree |
| `FixMessages.StaleType` | src/protocol/fix_message.cpp:85-105 | a run after which a Logon is classified as a Heartbeat |
| `StateMachine.StepsAreLegal` | src/protocol/stream_fix_parser.cpp:1428-1481 | every turn that goes on keeps the state or makes a legal transition, from every configuration |
| `StateMachine.ProgressOrSpin` | src/protocol/stream_fix_parser.cpp:317-449 | every turn that goes on lowers (remaining bytes, state rank) unless the configuration is one of two kinds that repeat forever |
| `StateMachine.ProcessStateMachine` | src/protocol/stream_fix_parser.cpp:317-449 | the driving loop ends where the run ends, for every input, and stops in exactly the configurations in which the source never returns |
| `StateMachine.BodyTurns` | src/protocol/stream_fix_parser.cpp:1009-1218 | the body byte count reaches BodyLength exactly behind the last field, where the machine turns to the checksum |
| `StateMachine.RebuiltIsReceived` | src/protocol/stream_fix_parser.cpp:1339-1353 | the bytes rebuilt for the checksum are the bytes received |
| `StateMachine.WellFormedRun` | src/protocol/stream_fix_parser.cpp:905-1390 | a well-formed message is accepted with exactly its fields, rejected on a wrong checksum, or never finished with an empty pool |
| `StateMachine.MachineRefinesGeneric` | src/protocol/stream_fix_parser.cpp:317-562 | the machine and the generic decoder accept the same messages with the same fields, except that the latter insists on MsgType when strict |
| `MachineVerdicts.MachineResumes` | src/protocol/stream_fix_parser.cpp:317-449 | whenever the machine stops for want of data, going on from there with the context left ends as one run over all the bytes does, recoveries excepted |
| `MachineVerdicts.CutsInHeader` | src/protocol/stream_fix_parser.cpp:954-1007 | a cut behind the version field waits, a cut inside it is an error |
| `MachineVerdicts.IdleVerdict` | src/protocol/stream_fix_parser.cpp:905-952 | what IDLE waits for, skips and enters |
| `MachineVerdicts.IdleRecovery` | src/protocol/stream_fix_parser.cpp:924-929 | beyond 512 bytes without a version: where recovery skips to and what it reports |
| `MachineVerdicts.RecoveryVerdict` | src/protocol/stream_fix_parser.cpp:1396-1422 | what the two recovery states do to any bytes |
| `MachineVerdicts.BeginStringVerdict` | src/protocol/stream_fix_parser.cpp:954-981 | the version field is taken whole or refused |
| `MachineVerdicts.NoBeginString` | src/protocol/stream_fix_parser.cpp:1549-1558 | any other front is refused |
| `MachineVerdicts.BodyLengthVerdict` | src/protocol/stream_fix_parser.cpp:1571-1608 | BodyLength is a number between 1 and the limit, terminated, or refused |
| `MachineVerdicts.NoBodyLength` | src/protocol/stream_fix_parser.cpp:1576-1579 | any other front is refused |
| `MachineVerdicts.TagVerdict` | src/protocol/stream_fix_parser.cpp:1009-1074 | a tag is a number between 1 and 99999 in front of '='; more than ten bytes without '=' are refused |
| `MachineVerdicts.DelimiterVerdict` | src/protocol/stream_fix_parser.cpp:1076-1218 | one delimiter byte is taken, awaited or refused; SOH stores the field, counts its rendered bytes and picks the next state |
| `MachineVerdicts.ValueVerdict` | src/protocol/stream_fix_parser.cpp:1111-1157 | a value reaches up to SOH and is awaited until then |
| `MachineVerdicts.ChecksumVerdict` | src/protocol/stream_fix_parser.cpp:1220-1293 | exactly three digits are a checksum |
| `MachineVerdicts.NoChecksum` | src/protocol/stream_fix_parser.cpp:1224-1237 | fewer than five bytes wait, another front is refused |
| `MachineVerdicts.CompleteVerdict` | src/protocol/stream_fix_parser.cpp:1326-1376 | the first CheckSum among the fields decides; one that is no number costs the slot |
| `MachineVerdicts.AssembledMeaning` | src/protocol/stream_fix_parser.cpp:1305-1326 | the header as it must be, the first MsgType, and the last value of any other tag |
| `Bits.LeastPowerOfTwo` | include/utils/lockfree_queue.h:207-220 | the shift-or cascade gives the least power of two not below n up to 2^63, and zero above |
| `Bits.MaskIsModulo` | include/utils/lockfree_queue.h:112 | masking with capacity minus one is the remainder modulo the capacity, for every word |
| `Bits.MaskedDistance` | include/utils/lockfree_queue.h:161-165 | the masked unsigned difference is the distance around the ring despite wraparound |
| `Ring.ComputeNextPowerOfTwo` | include/utils/lockfree_queue.h:207-220 | the reassignments give the least power of two not below the request, for every request up to 2^63, and zero above |
| `Ring.LockFreeQueue.constructor` | include/utils/lockfree_queue.h:93-103 | an empty queue whose capacity is the least power of two that fits the request |
| `Ring.LockFreeQueue.Push` | include/utils/lockfree_queue.h:105-124 | appends exactly when not shut down and fewer than capacity minus one values are queued, otherwise counts a drop |
| `Ring.LockFreeQueue.TryPop` | include/utils/lockfree_queue.h:126-147 | removes and returns the oldest value exactly when there is one and the queue is not shut down |
| `Ring.LockFreeQueue.Size` | include/utils/lockfree_queue.h:161-165 | the size is the number of queued values |
| `Spsc.StepKeepsInv` | include/utils/lockfree_queue.h:105-147 | every atomic step of either thread keeps the ring invariant |
| `Spsc.RingSafety` | include/utils/lockfree_queue.h:105-147 | over all interleavings pops are a prefix of accepted pushes, at most capacity minus one values are outstanding, no slot is written while read, and full and empty are found exactly when they hold |
| `Spsc.RefinesFifo` | include/utils/lockfree_queue.h:105-147 | every step is that step of a bounded FIFO queue: joins, leaves and both refusals happen exactly where they should |
| `SpscProgress.PushOutcome` | include/utils/lockfree_queue.h:105-124 | over all interleavings a push finishes in six steps of its own: accepted whenever there was room and no shutdown, dropped and counted when full, refused after a shutdown |
| `SpscProgress.PopOutcome` | include/utils/lockfree_queue.h:126-147 | over all interleavings a pop finishes in six steps of its own: it takes the oldest value whenever there was one and no shutdown, and otherwise nothing |
| `Pool.MessagePool.Create` | include/common/message_pool.h:141-156 | a pool with all slots free, or a refusal exactly for size zero |
| `Pool.MessagePool.InitializeFreeList` | include/common/message_pool.h:167-181 | the chain visits every slot once, in index order |
| `Pool.MessagePool.Allocate` | include/common/message_pool.h:294-323 | pops the top of the chain exactly when there is one and the pool is open |
| `Pool.MessagePool.Deallocate` | include/common/message_pool.h:357-402 | pushes an owned slot on top and ignores foreign ones |
| `Pool.MessagePool.Reset` | include/common/message_pool.h:230-242 | succeeds exactly when nothing is out |
| `PoolThreads.StepKeepsInv` | include/common/message_pool.h:294-402 | every atomic step of one allocator and any deallocators keeps chain, roles and counters right |
| `PoolThreads.PoolSafety` | include/common/message_pool.h:294-402 | over all interleavings the chain is acyclic, every slot has one role, none is handed out while owned, and the counters agree at rest |
| `PoolProgress.AllocateOutcome` | include/common/message_pool.h:294-323 | over all interleavings an allocation that has come back took one slot or counted one failure: a slot whenever one was free and no shutdown, a failure after a shutdown or when none was free or pushed |
| `PoolThreads.TwoAllocatorsUnsafe` | include/common/message_pool.h:298-318 | with two or more allocating threads and two or more slots some run hands out a slot that a caller owns |
| `PoolExact.OneSlotSafety` | include/common/message_pool.h:294-402 | with one slot any number of allocating threads is safe, because the only link never changes |
| `PoolExact.SafeExactly` | include/common/message_pool.h:294-402 | over all interleavings no popped slot is a caller's or another allocator's, if and only if at most one thread allocates or there is only one slot |
| `Gaps.SequenceNumGapManager.HasGap` | src/manager/sequence_num_gap_manager.cpp:130-157 | draining and refilling finds the number and leaves the exact sequence |
| `Gaps.SequenceNumGapManager.AddGapEntry` | src/manager/sequence_num_gap_manager.cpp:82-94 | appends an entry due ten seconds later exactly when the number is absent and there is room |
| `Gaps.SequenceNumGapManager.ResolveGapEntry` | src/manager/sequence_num_gap_manager.cpp:96-128 | removes the first match and leaves the suffix followed by the prefix |
| `Gaps.SequenceNumGapManager.ProcessGaps` | src/manager/sequence_num_gap_manager.cpp:221-263 | visits every entry once, with the survivors and the resend attempts of its specification |
| `Gaps.SequenceNumGapManager.ClearAllGaps` | src/manager/sequence_num_gap_manager.cpp:182-189 | empties the queue |
| `Gaps.SequenceNumGapManager.Refill` | src/manager/sequence_num_gap_manager.cpp:122-125 | refilling never fails |
| `Gaps.VisitAll` | src/manager/sequence_num_gap_manager.cpp:225-257 | the visiting loop requeues and resends exactly as specified |
| `GapRuns.AddKeepsGood` | src/manager/sequence_num_gap_manager.cpp:82-94 | adding keeps numbers unique and adds exactly that number when there is room |
| `GapRuns.ResolveKeepsGood` | src/manager/sequence_num_gap_manager.cpp:96-128 | resolving removes exactly one entry and keeps all others unchanged |
| `GapRuns.ProcessKeepsInv` | src/manager/sequence_num_gap_manager.cpp:221-263 | processing keeps every entry's retry count and deadline in step with the attempts made |
| `GapRuns.LogsWhatIsSent` | src/manager/sequence_num_gap_manager.cpp:234-257 | the history gains exactly the attempts that processing makes, number by number |
| `GapRuns.RunKeepsInv` | src/manager/sequence_num_gap_manager.cpp:82-263 | in every run numbers stay unique and unresolved, and each entry causes at most five attempts more than ten seconds apart |
| `GapRuns.PromptResend` | src/manager/sequence_num_gap_manager.cpp:221-263 | over every run a number is resent at its visit if and only if that reads more than ten seconds past the reading its deadline was set from and fewer than five attempts were made; with five it leaves |
| `GapRuns.FirstResend` | src/manager/sequence_num_gap_manager.cpp:82-94 | the first attempt comes at the first visit more than ten seconds after the entry was added, and not before |
| `GapRuns.NextResend` | src/manager/sequence_num_gap_manager.cpp:234-251 | the next attempt is due more than ten seconds past the last one's second reading, up to five |
| `GapRuns.ResolvedLeaves` | src/manager/sequence_num_gap_manager.cpp:230-233 | an entry marked resolved is dropped without an attempt |
| `GapRuns.ProcessBurnsFuel` | src/manager/sequence_num_gap_manager.cpp:234-251 | every timeout lowers a bounded measure by exactly one, and without a timeout nothing changes |
| `GapRuns.SixthTimeoutRemoves` | src/manager/sequence_num_gap_manager.cpp:243-246 | the timeout after the fifth attempt removes the entry |
| `SessionManager.GapDetection` | src/manager/fix_session_manager.cpp:850-865 | every missing number gets exactly one entry if and only if the ring has room for all, and earlier entries are untouched |
| `SessionManager.VerdictMeaning` | src/manager/fix_session_manager.cpp:817-890 | the verdict for every relation of received and expected number, with and without PossDupFlag |
| `SessionManager.ReachesMeaning` | src/manager/fix_session_manager.cpp:892-914 | which messages are looked at: a type, the counterparty as sender, us as target |
| `SessionManager.DispatchMeaning` | src/manager/fix_session_manager.cpp:171-202 | type by type: the session state, the expected number and whether the message counts as handled |
| `SessionManager.FixSessionManager.constructor` | include/manager/fix_session_manager.h:155-157 | a new session is disconnected and expects number one |
| `SessionManager.FixSessionManager.ValidateSequenceNumber` | src/manager/fix_session_manager.cpp:817-890 | number by number: what is accepted, what is expected next, and for a gap that exactly the missing numbers are queued if and only if the ring has room |
| `SessionManager.FixSessionManager.HandleMessage` | src/manager/fix_session_manager.cpp:140-203 | a message that fails a check changes nothing but gap entries; one that passes is dispatched once; the expected number and the accepted message are one step of a run |
| `SessionManager.InOrderAcceptance` | src/manager/fix_session_manager.cpp:835-883 | over every run, and everything that may follow any part of it, the accepted originals strictly increase if and only if every accepted SequenceReset leads forward |
| `SessionManager.ReceiveInOrder` | src/manager/fix_session_manager.cpp:389-413 | one message keeps the order if and only if it is no accepted SequenceReset or leads past its own number, or past the last original when resent |
| `SessionManager.BackwardBreaks` | src/manager/fix_session_manager.cpp:389-413 | behind a SequenceReset that does not lead forward, the Heartbeat the session then expects is accepted out of sequence |
| `SessionManager.ResetReplays` | src/manager/fix_session_manager.cpp:389-413 | behind an original SequenceReset numbered e to some n not above e, the originals n to e are all accepted, e for the second time |
| `SessionManager.ExactlyConsecutive` | src/manager/fix_session_manager.cpp:835-883 | without resets and resends they are exactly the numbers from the start to one below the expected number |
| `SessionManager.FallsOnlyOnReset` | src/manager/fix_session_manager.cpp:389-413 | the expected number falls exactly at an accepted SequenceReset to a lower number |
| `SessionManager.ResetRewinds` | src/manager/fix_session_manager.cpp:389-413 | a run in which a SequenceReset lets a number be accepted twice |

## Left out

- Sockets, threads around foreign I/O, core pinning and configuration: src/network, src/manager/async_sender_manager.cpp and src/utils/platform_detector.cpp are not part of this model.
- The priority queue, the message router and the message builder would only add counters, a fixed table and field setters.
- Logging, statistics counters of the parser, performance timers, time formatting and floating-point formatting.
- Weak memory orders: every interleaving is sequentially consistent.
- ParserObject.StreamFixParser.Store: copies first and stores afterwards. In the source the two ranges of `memcpy` lie in the same buffer and overlap exactly when the call began with carried bytes and leaves more bytes over than it consumed; C++ then leaves the result undefined, and the model gives it the meaning of a copy.
- A `setMaxMessageSize` above 2^31 - 1, which the source casts to a negative int.
- The state machine's error positions, and its side effect on the carry-over size in IDLE (src/protocol/stream_fix_parser.cpp:910).
- `escalateGapEntry` (src/manager/sequence_num_gap_manager.cpp:159-175) is not modelled; it discards the entries it pops before the match.
- Building and queueing the ResendRequest itself: an attempt is recorded whether or not the pool and the outbound queue accept it.
- Outgoing sequence numbers, the heartbeat thread and the answers it sends; whether an answer could be routed is a parameter.
- Concurrent use of the gap queue by two threads: its operations are serialised.
- Chunking.ChunkingInvariance: for messages of the six fast types that store SendingTime and follow each other without gaps; other types take the generic path, which is given the frame without its trailer.
- PrintParse.PrintThenParse: what a parser that is not strict does with a rejected trailer is left to the generic decoder's verdict on the frame, except that it never is the message sent.
- Ring.LockFreeQueue.constructor: for requests up to 2^63; above that the capacity computation wraps to zero.
- WireFormat.FastRefinesGeneric: for an exact header with a canonical BodyLength, MsgType first and three trailer digits; with a CheckSum inside the body only acceptance is compared, not the fields.
