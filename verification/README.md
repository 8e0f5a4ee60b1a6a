# C_General in Dafny

A model of the embedded components of C_General, and proofs of what they promise. The modules
follow the source files: a class with its fields where the source updates an object, a method
with a loop where it runs a loop, and functions for what those methods are specified by. Bytes,
counters and clocks have their real widths (modulo 2^8, 2^16, 2^32) wherever the code depends on
it.

`dafny verify dfyconfig.toml` checks the project.

| files | what they model |
|---|---|
| `Options`, `Words`, `Checksum`, `WordBits` | a missing value, machine words, bit masks, `sum`, bits of a word as a sequence |
| `RingIndex`, `CircBuffers`, `RingInterleaving` | `CircBuffer.hpp`: three index disciplines, one queue; reader and writer with no lock |
| `BlockRing`, `BlockInterleaving`, `IsrMessage` | `CircBufferWithCont.hpp`, its writer and reader with no lock, and `ISR_Message.hpp` |
| `PortSpec`, `PortCallbacks`, `PortCounters`, `Port` | `Port.hpp`: the transmit path, as a state machine and as the class over its two rings |
| `CrcTheory`, `Crc`, `CrcResults`, `CrcBursts` | the CRC kernels of `common_c.c`, as shift registers over bits |
| `ModbusSpec`, `Modbus` | `ModbusRTU.hpp`: the receiver of `ReadHoldingRegisters` |
| `Recency`, `CommandList`, `ParserSpec`, `CommandChain` | `CommandChain.hpp`: the self-organising list and the byte parser |
| `Framing`, `ProtocolItems`, `Protocol` | `Protocol.hpp`: the sending functions, and a decoder written from the protocol description |
| `CycleSpec`, `Cycle` | `Protocol.hpp`: `cycle`, and resynchronisation by zero bytes |
| `EndToEnd` | the sending functions, the port, the line and the decoder together |
| `IntSqrt`, `SortSpec`, `Sorting`, `Timing` | `MyMath.hpp`, `sort.c`, `sort_and_median.h`, `General.hpp`, `MyTime.hpp` |

## Main results

- Port: over every interleaving of the producers' single ring updates with the transmit
  interrupt, the line carries exactly what was accepted, in order, each release callback runs
  once, after its block, and blocks queued equal markers queued plus one in progress plus one
  owed (`EveryRun`, `PortCallbacks.EveryRunReleases`). Byte-wise and block-wise consumers send the same bytes (`ConsumersAgree`).
- Rings: the three index disciplines are one bounded queue, and `LockFreeIff` says exactly which
  rings need no lock when reader and writer interleave at every memory access, and each may act
  on an index it loaded earlier.
- The block ring needs no lock exactly as long as its writer forces nothing
  (`BlockInterleaving.LockFreeIff`).
- CRC: burst detection for all three kernels by exactly the odd polynomials, mirror symmetry of the two modes, linearity, and
  the zero residue of exactly the frames that end in their own CRC.
- Modbus: every outcome explained by the bytes heard, success whenever a valid reply was complete
  in time, whatever the bus does afterwards, and the exact condition under which an echo of the
  request is skipped.
- Parser: the documented encoding runs exactly the handlers sent for (`RoundTrip`), and on any
  bytes whatever all calls of a run come from packets on the line, disjoint and in order
  (`CallsFromPackets`).
- Framing: the decoder gives back exactly the messages, and an emission survives exactly when it
  is one the format can carry (`ComesBackIff`).
- End to end: whatever calls fit, once the port is drained the host decodes from the line exactly
  their messages (`EndToEnd.HostDecodes`, `Deliver`).
- Resynchronisation: from every reachable state a bounded number of zeros brings the device to
  rest (`Resynchronises`), also when a handler asks for raw bytes.
- Move-to-front: a hit costs one comparison more than the distinct IDs used since.

## Where the code does less than its documentation or its callers expect

- `CircBuffer.hpp` lines 19-21 claim that no lock is needed. For the base class this is false:
  the write index is stored once before it is reset, and a reader that empties the ring in
  between is told a full ring's worth of elements. It holds exactly for the masked and wrapping
  variants, and for a base ring as large as its counter type or one whose capacity is a multiple
  of 256, which refuses every write (`RingInterleaving.LockFreeIff`).
- `CircBufferWithCont.hpp` lines 20-22 say the same of the block ring. It is true of plain writes,
  but not of `SaferForceSlotToWrite`, as the comment at lines 67-68 admits: between its look at
  `LastBlockSize` and its store the reader can take a block, and then the read index is moved one
  too far (`BlockInterleaving.LockFreeIff`).
- `LeftToWrite` of the base ring is a `uint8_t`: right in every state exactly up to size 256
  (`RingIndex.RoomExactIff`).
- `ModbusRTU.hpp` lines 100-105 argue that an echo cannot be taken for a reply. The CRC bytes of
  the echo can: reading 19 registers from register 0 of slave 5 (`EchoTakenForException`). And
  with address 0 the zeros the window starts with stand in for a byte (`HeaderReceivedIff`).
- `Protocol.hpp` line 56 says that a packet completed by zeros is reported as a bad checksum. It
  runs its handler when what had arrived adds up to 0 modulo 256 (`CycleSpec.RunsHandlerIff`),
  and other errors are possible (`CycleSpec.EndOnZeros`).
- An error text shorter than 3 bytes is sent with bytes from behind it in memory, and an empty
  info text or an error code of 0 or less looks like another block (`Framing.ComesBackIff`). `return_error_message` returns
  true also when the later chunks of its text found no room.
- `RunningCS` and `BytesTransmitted` leave literal escape bytes out
  (`Ports.Port.CountersMatchIff`).
- A length byte of 255 wraps to no parameters (`ParserSpec.LengthByte255`).
- `IntSqrt` can exceed the floor root one below a perfect square: 7 for 48, though not for 24. It
  does so exactly when its iteration comes by one above that square's root (`IntSqrts.ExceedsIff`).
- A forced write on an empty base ring whose capacity is a multiple of 256 loses the element it
  writes (`CircBuffers.CircBuffer.ForceFinishedWriting`).
- An `ISR_Message` with one cell drops everything and marks nothing
  (`IsrMessages.OneCellMarksNothing`).
- `unsigned_is_smaller` on types narrower than `int` does not wrap: with the default `WrapValue`
  it is wrong exactly when the second value is ahead by up to half the range
  (`Timing.NarrowIsRightIff`).

## Model

| member | source | states |
|---|---|---|
| `Ports.Port.constructor` | Port.hpp:76-85 | a fresh port over two empty rings is in the initial state, with nothing pending and both counters 0 |
| `Ports.Port.GetByteToSend` | Port.hpp:102-132 | the byte-wise consumer takes the specification step and keeps the invariant, from every reachable state |
| `Ports.Port.GetBlockToSend` | Port.hpp:145-182 | the block-wise consumer likewise; the asserted block behind every marker is always there |
| `Ports.Port.write_unbuffered_` | Port.hpp:198-210 | false without a block slot and then nothing changes; otherwise the block, or a literal escape byte for size 0, is promised last, and both counters count its bytes |
| `Ports.Port.StoreBlock` | Port.hpp:200-205 | the first of the two ring updates: the entry is queued and its marker is owed; a zero-size entry keeps the slot's old address and callback |
| `Ports.Port.StoreMarker` | Port.hpp:206 | the second update: the owed block becomes part of the promised stream |
| `Ports.Port.write_byte_` | Port.hpp:214-220 | one byte is promised, or nothing changes when an escape byte finds no block slot; escape bytes are not counted |
| `Ports.Port.write_byte` | Port.hpp:227-235 | accepts exactly when there is a free byte cell and, for an escape byte, a free block slot; both counters stay those of everything accepted |
| `Ports.Port.write` | Port.hpp:242-251 | true exactly when the bytes and their escape bytes all find room; otherwise nothing, or exactly what precedes the first escape byte without a slot; both counters stay those of everything accepted |
| `Ports.Port.write_unbuffered` | Port.hpp:264-270 | a non-empty block is promised, with its callback, exactly when both rings have room; an empty one succeeds and changes nothing; both counters stay those of everything accepted |
| `PortSpec.PutByteKeeps` | Port.hpp:214-220 | writing a byte keeps: sent plus pending equals promised |
| `PortSpec.PutBlockKeeps` | Port.hpp:199-205 | so does queueing a block whose marker is not queued yet |
| `PortSpec.PutMarkerKeeps` | Port.hpp:206 | so does queueing the marker, which then stands for the newest block |
| `PortSpec.GetByteKeeps` | Port.hpp:102-132 | handing out a byte keeps it, and nothing is handed out exactly when nothing is pending |
| `PortSpec.GetBlockKeeps` | Port.hpp:145-182 | the same for a block at a time; the callback comes with the next call |
| `PortSpec.EveryRun` | Port.hpp:102-132 | for every run of ring updates and interrupts: line and pending equal the promises in order; blocks queued = markers + in progress + owed; a consumer that finds nothing has sent everything |
| `PortSpec.DrainBytesIs` | Port.hpp:102-132 | asked until it has no more, the byte-wise consumer sends exactly the bytes pending |
| `PortSpec.DrainBlocksIs` | Port.hpp:145-182 | so does the block-wise consumer |
| `PortSpec.ConsumersAgree` | Port.hpp:97-182 | the two consumers put the same bytes on the line |
| `PortCallbacks.CallbacksAreAsked` | Port.hpp:109-109 | the callbacks that run are those passed with the blocks, each once, in order |
| `PortCallbacks.CallbackFollowsItsBytes` | Port.hpp:108-110 | the callback of a block comes directly behind the last of its bytes |
| `PortCallbacks.EveryRunReleases` | Port.hpp:149-154 | on every run the callbacks so far are the beginning of those asked for, and once drained all of them, for either consumer |
| `PortCallbacks.DrainedHasReleased` | Port.hpp:108-111 | with nothing left to send every callback asked for has run once |
| `Ports.Port.FinishBlock` | Port.hpp:109-111 | runs the callback the block came with, if any, and gives back its entry |
| `PortCounters.TallyAppend` | Port.hpp:207-208 | what every writer adds keeps the counters those of the accepted items without the literal escape bytes |
| `Ports.Port.CountersMatchIff` | Port.hpp:279-284 | the fields themselves: each is right exactly when the literal escape bytes are a multiple of 2^16, and add up to 0 modulo 256 |
| `PortCounters.CountMatchesIff` | Port.hpp:282-284 | BytesTransmitted equals the line's length modulo 2^16 exactly when the literal escape bytes are a multiple of 2^16 |
| `PortCounters.ChecksumMatchesIff` | Port.hpp:279-281 | RunningCS equals the line's checksum exactly when the literal escape bytes add up to 0 modulo 256 |
| `RingIndex.IndexStep` | CircBuffer.hpp:47-65 | compare-and-reset, mask and natural wrap advance an index the same way |
| `RingIndex.LeftToReadExact` | CircBuffer.hpp:42-42 | what a reader is told is exact, also while the other side is between its two stores |
| `RingIndex.LeftToWriteExact` | CircBuffer.hpp:61-61 | what a writer is told, with the uint8_t result of the base ring |
| `RingIndex.RoomExactIff` | CircBuffer.hpp:61-61 | the room is right in every state exactly when the base ring has at most 256 cells |
| `RingIndex.EmptyLooksFullIff` | CircBuffer.hpp:78-84 | the writer of an empty ring is told that it is full, so that a forced write is lost, exactly for a base capacity that is a multiple of 256 |
| `RingIndex.VariantsAgree` | CircBuffer.hpp:103-194 | up to 256 cells the three variants give the same answers and the same next indices |
| `CircBuffers.CircBuffer.constructor` | CircBuffer.hpp:37-38 | a new ring is empty |
| `CircBuffers.CircBuffer.Read` | CircBuffer.hpp:55-58 | takes the oldest element, or fails exactly on an empty queue |
| `CircBuffers.CircBuffer.Write` | CircBuffer.hpp:73-76 | appends exactly when the writer is told of room |
| `CircBuffers.CircBuffer.FinishedReading` | CircBuffer.hpp:47-47 | drops the oldest element and no other |
| `CircBuffers.CircBuffer.FinishedWriting` | CircBuffer.hpp:65-65 | queues the cell that was filled; all earlier writes stay reachable |
| `CircBuffers.CircBuffer.ForceFinishedWriting` | CircBuffer.hpp:81-84 | when the writer is told of no room drops exactly the oldest element, which on an empty ring is the new one |
| `CircBuffers.CircBuffer.At` | CircBuffer.hpp:86-90 | entry k is the element written k writes ago, even if already read |
| `RingInterleaving.StepKeeps` | CircBuffer.hpp:42-96 | every single memory access of either side, its load of the other's index among them, keeps the queue's contents where they belong, and what was loaded safe to act on later |
| `RingInterleaving.EveryInterleavingIsFifo` | CircBuffer.hpp:19-21 | on every run the reader has taken an initial part of what was written, and both sides are told the truth |
| `RingInterleaving.ReaderMisled` | CircBuffer.hpp:65-65 | on other base rings a run exists after which the reader of an empty ring is told of a whole ring of elements |
| `RingInterleaving.LockFreeIff` | CircBuffer.hpp:19-21 | exactly which rings need no lock |
| `BlockRings.BlockRing.Write` | CircBufferWithCont.hpp:51-54 | appends when there is room and leaves the block being read alone |
| `BlockRings.BlockRing.ForceSlotToWrite` | CircBufferWithCont.hpp:59-65 | on a full ring drops the whole block being read, or one element when none is, and ends that read |
| `BlockRings.BlockRing.SaferForceSlotToWrite` | CircBufferWithCont.hpp:69-76 | drops one element only when nothing is being read; otherwise fails and changes nothing |
| `BlockRings.BlockRing.FinishedReading` | CircBufferWithCont.hpp:85-88 | removes exactly the block that was handed out |
| `BlockRings.BlockRing.GetContinousBlockToRead` | CircBufferWithCont.hpp:104-114 | the block is contiguous and a prefix of the queue, as long as possible, from the read index on; refused exactly while one is out or the ring is empty |
| `BlockRings.BlockRing.TakeUpTo` | CircBufferWithCont.hpp:107-113 | the block is still a prefix of the queue when a writer has moved on since the write index was read |
| `BlockRings.DrainInTwo` | CircBufferWithCont.hpp:104-114 | two block reads with no write between them return the whole queue |
| `BlockRings.WritesSpareTheBlock` | CircBufferWithCont.hpp:51-76 | no sequence of writes and safer forced writes changes a block that is out |
| `BlockRings.ForceDuringRead` | CircBufferWithCont.hpp:59-88 | a forced write during a read drops the block once; the reader's own finish drops nothing more |
| `BlockInterleaving.StepKeeps` | CircBufferWithCont.hpp:43-114 | every single memory access of a writer and a reader keeps the queue, and the block that is out, where they belong |
| `BlockInterleaving.EveryRunIsTruthful` | CircBufferWithCont.hpp:20-22 | on every run without forced writes both sides are told the truth and a block that is out holds the next elements |
| `BlockInterleaving.FillThenForce` | CircBufferWithCont.hpp:69-76 | with them a run exists on which the read index moves one element too far |
| `BlockInterleaving.LockFreeIff` | CircBufferWithCont.hpp:20-22 | one writer and one reader need no lock exactly when the writer forces nothing, or the ring has one cell |
| `IsrMessages.IsrMessage.putchar` | ISR_Message.hpp:38-49 | a character is stored, replaced by `$` or dropped as it finds two free cells or more, one, or none; a stored character is returned and -1 otherwise (a stored 0xFF is -1 too where char is signed); nothing is lost silently |
| `IsrMessages.IsrMessage.BeginLog` | ISR_Message.hpp:31-33 | the same for a block read that is interrupted by further characters; none of them is lost or logged twice |
| `IsrMessages.IsrMessage.call_in_loop` | ISR_Message.hpp:30-36 | logs a prefix of the buffered text and removes exactly it |
| `IsrMessages.TellsOneMore` | ISR_Message.hpp:38-49 | a character can be dropped only after a rejected one, since the buffer fills only by writing `$` |
| `IsrMessages.GapOpensWithMark` | ISR_Message.hpp:42-44 | the first rejected character of every run is the one replaced by `$` |
| `IsrMessages.IsrMessage.Run` | ISR_Message.hpp:30-49 | over any interleaving, also with interrupts inside the block read, logged plus buffered text is the input with every gap opened by `$`, and which characters were kept is a function of the events alone; every replaced one shows as `$` |
| `IsrMessages.RenderShows` | ISR_Message.hpp:42-47 | character by character: `$` stands for every replaced one, and stored ones for themselves |
| `IsrMessages.FewAreKept` | ISR_Message.hpp:30-49 | a run of no more characters than the ring has room for beside the `$` keeps every one |
| `IsrMessages.AllStoredIsInput` | ISR_Message.hpp:45-47 | and then the text is the input |
| `IsrMessages.OneCellMarksNothing` | ISR_Message.hpp:40-41 | in a ring of one cell the first character is dropped without a mark |
| `Checksum.SumLoop` | MyMath.hpp:68-73 | the loop computes the sum modulo 256 |
| `Checksum.SumConcat` | MyMath.hpp:68-73 | checksums of parts add up to that of the whole |
| `Checksum.ChangedByteIsSeen` | MyMath.hpp:68-73 | changing one byte always changes the checksum |
| `Crc.Crc8` | common_c.c:163-171 | the two nested loops compute the specification function, in both modes |
| `Crc.Crc16` | common_c.c:173-186 | likewise |
| `Crc.Crc32` | common_c.c:188-197 | likewise |
| `Crc.Crc8IsSerial` | common_c.c:163-171 | word arithmetic equals a shift register over single bits, in both modes |
| `Crc.Crc16IsSerial` | common_c.c:173-186 | likewise |
| `Crc.Crc32IsSerial` | common_c.c:188-197 | likewise |
| `CrcTheory.StepInjectiveIff` | common_c.c:163-197 | a bit step is a bijection of the register exactly for polynomials with the last bit set |
| `CrcTheory.SerialLinear` | common_c.c:163-197 | the register is linear over exclusive or |
| `CrcTheory.BurstDetected` | common_c.c:163-197 | messages that differ inside a window no longer than the register leave different registers |
| `CrcTheory.LongerBurstMissed` | common_c.c:163-197 | one bit more is too long: there is a burst no register sees |
| `CrcTheory.MissedAnywhere` | common_c.c:163-197 | that burst goes unseen anywhere in a message |
| `CrcResults.Crc16MissesLongerBurst` | common_c.c:173-186 | so for Crc16: messages that differ by the 17 bits of the polynomial have the same CRC, in both modes |
| `CrcResults.Crc8DetectsBursts` | common_c.c:163-171 | different results for messages differing in at most 8 consecutive bits, in processing order |
| `CrcResults.Crc16DetectsBursts` | common_c.c:173-186 | the same for 16 |
| `CrcResults.Crc32DetectsBursts` | common_c.c:188-197 | the same for 32 |
| `CrcBursts.KnownValues` | common_c.c:163-197 | one value of each kernel, for Sensirion, Dallas, CCITT and IEEE parameters |
| `CrcBursts.Crc8SeesBurstsIff` | common_c.c:163-171 | every burst of at most 8 bits changes the CRC exactly when the polynomial is odd |
| `CrcBursts.Crc16SeesBurstsIff` | common_c.c:173-186 | the same for 16 bits |
| `CrcBursts.Crc32SeesBurstsIff` | common_c.c:188-197 | the same for 32 bits |
| `CrcResults.Crc16ModesMirror` | common_c.c:173-186 | mirroring bytes, seed and polynomial mirrors the result |
| `CrcResults.Crc8ModesMirror` | common_c.c:163-171 | the same for 8 bits |
| `CrcResults.Crc16Linear` | common_c.c:173-186 | linear in message and seed together, in both modes |
| `CrcResults.FrameResidueIff` | common_c.c:173-186 | a frame has residue 0 exactly when it ends in its CRC, low byte first |
| `ModbusSpec.LookFinds` | ModbusRTU.hpp:110-117 | the window loop stops at the first window that matches, and an exception wins over a header |
| `ModbusSpec.HeaderReceivedIff` | ModbusRTU.hpp:107-116 | a header was received contiguously, for every address but 0 |
| `ModbusSpec.RequestAsks` | ModbusRTU.hpp:86-96 | the request names function 3, the start register and the count, high bytes first, and ends in the CRC that leaves residue 0 |
| `ModbusSpec.EchoIsQuietIff` | ModbusRTU.hpp:100-105 | exactly which start registers make the echo's first six bytes imitate a reply |
| `ModbusSpec.LowStartIsQuiet` | ModbusRTU.hpp:103-105 | none below 0x100 |
| `ModbusSpec.EchoSkippedIff` | ModbusRTU.hpp:77-79 | an echo followed by a valid reply is resolved to the reply exactly when neither the start register nor the echo's CRC imitates one |
| `ModbusSpec.EchoTakenForException` | ModbusRTU.hpp:100-116 | a request whose echo is taken for an exception |
| `ModbusSpec.ReplyIsAccepted` | ModbusRTU.hpp:110-131 | a valid reply is accepted whatever precedes it, as long as no earlier window matches |
| `ModbusSpec.ModbusResidue` | ModbusRTU.hpp:125-127 | the comparison of CRCs is the residue test |
| `ModbusSpec.RegistersOfWire` | ModbusRTU.hpp:129-130 | decoding undoes big-endian encoding |
| `Modbus.ModbusMaster.DrainRx` | ModbusRTU.hpp:158-160 | reads up to the first poll that finds no byte, and reports whether there was one |
| `Modbus.ModbusMaster.FindHeader` | ModbusRTU.hpp:107-118 | what the loop finds is what the window specification says of the bytes delivered; it times out only when the next poll was late |
| `Modbus.ModbusMaster.ReadBytes` | ModbusRTU.hpp:168-181 | exactly the bytes delivered, in order, or too late only when a byte was late |
| `Modbus.ModbusMaster.ReadHoldingRegisters` | ModbusRTU.hpp:81-132 | the request is sent exactly when the count is good and a poll finds no byte; then the outcome and the error say what was heard (`Explained`), any reply complete in time succeeds, no late poll is waited for (`Waited`), and `out` is its decoding, or untouched |
| `Modbus.TimelyReplySucceeds` | ModbusRTU.hpp:110-131 | an outcome so explained is success whenever some beginning of the bus is timely and holds a valid reply, whatever follows |
| `Modbus.LatePollEndsTheWait` | ModbusRTU.hpp:110-118 | no poll that comes too late, by less than a turn of the clock, is waited for |
| `Modbus.LateEmptyPollEndsTheWait` | ModbusRTU.hpp:176-178 | the same while the body is read |
| `Modbus.NoReplyTaken` | ModbusRTU.hpp:115-127 | after any other outcome what was taken holds no reply |
| `Recency.FindIsUse` | CommandChain.hpp:70-77 | moving a found element to the front keeps the list in order of last use |
| `Recency.AddIsUse` | CommandChain.hpp:94-94 | so does adding a new one |
| `Recency.PositionIsDistinctSince` | CommandChain.hpp:63-79 | an element's position is the number of distinct others used since it was |
| `CommandLists.CommandList.FindByID` | CommandChain.hpp:65-79 | finds exactly registered IDs, moves the hit to the front, keeps the list acyclic with unique IDs, and compares 1 + the distinct others used since |
| `CommandLists.CommandList.Relink` | CommandChain.hpp:73-76 | the pointer surgery is moving to the front |
| `CommandLists.CommandList.AddCommand` | CommandChain.hpp:90-95 | adds in front exactly new, valid commands; an ID already there has been moved to the front when it fails |
| `CommandChains.CommandChain.AddCommand` | CommandChain.hpp:90-95 | keeps the parser valid, even inside a packet; succeeds exactly for a valid command with a new ID |
| `CommandLists.MoveToFrontKeeps` | CommandChain.hpp:72-76 | loses and duplicates nothing |
| `ParserSpec.TakeKeeps` | CommandChain.hpp:99-129 | every byte lands inside the input buffer and leaves a sound parser, and the registered commands stay the same |
| `ParserSpec.RoundTrip` | Protocol.hpp:5-12 | any commands in the documented encoding with NOOPs between them run exactly their handlers with their parameters, in order, without an error, and leave the parser idle |
| `ParserSpec.VerdictIs` | CommandChain.hpp:99-129 | exactly when ParseByte returns each of its codes, and when it runs a handler |
| `ParserSpec.OnlyPackets` | CommandChain.hpp:113-126 | a byte makes a handler run only when it completes a valid packet of a registered command |
| `ParserSpec.EveryCallWasSent` | CommandChain.hpp:99-129 | on any bytes, a handler that runs was sent for by the bytes just before |
| `ParserSpec.CallsFromPackets` | CommandChain.hpp:99-129 | on any bytes, all calls of a run come from packets on the line that do not overlap, in order |
| `ParserSpec.LengthByte255` | CommandChain.hpp:114-114 | the wrapped length: the handler runs without parameters exactly when the ID adds up to 255 |
| `CommandChains.CommandChain.constructor` | CommandChain.hpp:52-61 | an idle parser with no commands |
| `CommandChains.CommandChain.ParseByte` | CommandChain.hpp:99-129 | the object with its linked list and buffer refines the parser function; `Count` counts the handlers run, modulo 2^32 |
| `CommandChains.CommandChain.Flush` | CommandChain.hpp:97-97 | makes the parser idle and sound again after any error |
| `Framing.InfoSplits` | Protocol.hpp:231-238 | a text of n bytes goes in ceil(n/127) non-empty chunks that add up to it |
| `Framing.ErrorSplits` | Protocol.hpp:255-261 | an error text likewise, the first chunk as error block and the others as info |
| `Framing.CodesOnTheWire` | Protocol.hpp:178-181 | the bytes of the two error codes, and of the header of a reply |
| `Framing.ShortTextsOnTheWire` | Protocol.hpp:124-139 | texts of up to 3 bytes, byte for byte, with what is read behind them and the blanks |
| `Framing.FlatInOrder` | Protocol.hpp:328-337 | parts are concatenated in their order, each as it is |
| `Framing.StreamDecodes` | Protocol.hpp:13-32 | the decoder splits any concatenation of carried emissions into the same messages, with nothing left |
| `Framing.ComesBackIff` | Protocol.hpp:13-32 | an emission comes back as itself exactly when its reply is shorter than 65536 bytes, its code 1 or 2, its info text not empty, its error text at least 3 bytes |
| `Framing.PartsAddUp` | Protocol.hpp:312-335 | the uint16_t total and the uint8_t checksum of the parts are those of the whole |
| `ProtocolItems.InfoLine` | Protocol.hpp:112-116 | on the line, an info text is its blocks, whether sent buffered or not |
| `ProtocolItems.ErrorLine` | Protocol.hpp:122-140 | so is an error text, with the padding of short ones |
| `ProtocolItems.ReplyLine` | Protocol.hpp:304-343 | a reply in parts is, byte for byte, the reply with the concatenated data |
| `ProtocolItems.StaticTextIsABlock` | Protocol.hpp:114-114 | a text that stays is one block between its size and its checksum, in info and error messages |
| `ProtocolItems.StaticTextIsBlocks` | Protocol.hpp:231-238 | a long one is a block for every 127 bytes begun |
| `ProtocolItems.VolatileTextIsCopied` | Protocol.hpp:131-132 | a text that may go away is copied, byte by byte |
| `ProtocolItems.ShortTextItems` | Protocol.hpp:128-139 | the same for texts shorter than 3 bytes, whose padding is always sent from where it lies |
| `ProtocolItems.ReplyPartItems` | Protocol.hpp:281-292 | data are copied when buffered, and otherwise one block with its callback |
| `ProtocolItems.OnePart` | Protocol.hpp:281-292 | one part is what ReturnBytesBuffered and ReturnBytesUnbuffered send |
| `Protocols.Protocol.info_message_` | Protocol.hpp:112-116 | promises the whole block and returns true exactly when it fits; otherwise a prefix of it |
| `Protocols.Protocol.info_message` | Protocol.hpp:231-238 | the same for a text of any size |
| `Protocols.Protocol.error_message_` | Protocol.hpp:122-140 | the same; in a build whose assertions stop, the program goes on exactly when the block fits |
| `Protocols.Protocol.return_error_message` | Protocol.hpp:255-261 | in a build whose assertions stop, goes on exactly when the first block fits; the whole text is promised exactly when all of it fits |
| `Protocols.Protocol.return_error_code` | Protocol.hpp:178-181 | the code twice, or a prefix when it does not fit |
| `Protocols.Protocol.ReturnBytes` | Protocol.hpp:281-292 | header, data, checksum, buffered or not; true exactly when all fits |
| `Protocols.Protocol.ReturnMultiByPtrs` | Protocol.hpp:304-343 | the same for any number of parts, each buffered or not |
| `Protocols.Protocol.ReturnOK` | Protocol.hpp:392-395 | an empty reply, which is four zeros |
| `EndToEnd.HostDecodes` | Protocol.hpp:13-32 | in every state of the port with nothing left to send, however its interrupts fell, the line decodes to exactly the messages of the calls |
| `EndToEnd.SendAll` | Protocol.hpp:225-343 | calls that all fit promise exactly their items, one after the other |
| `EndToEnd.Drain` | Port.hpp:102-132 | the transmit interrupt comes to an end, with nothing left to send |
| `EndToEnd.Deliver` | Protocol.hpp:13-32 | the two together on a fresh port: the host decodes exactly what was sent |
| `CycleSpec.RawBytesAreStored` | Protocol.hpp:199-201 | raw bytes are stored as they come, counted down, and touch neither the parser nor the output |
| `CycleSpec.UnknownIdIsTold` | Protocol.hpp:204-207 | an unknown ID is answered by its own text, and the parser is idle |
| `CycleSpec.WrongSizeIsTold` | Protocol.hpp:208-211 | a length that does not fit is answered by the other |
| `CycleSpec.BadChecksumIsTold` | Protocol.hpp:212-215 | a wrong checksum is answered by 255 twice |
| `CycleSpec.PacketEndsOnZeros` | Protocol.hpp:188-223 | an interrupted packet ends after at most the zeros that still fit into the buffer, with exactly one outcome |
| `CycleSpec.IdleAnswers` | Protocol.hpp:217-217 | an idle device answers every zero by an empty reply and does nothing else |
| `CycleSpec.Resynchronises` | Protocol.hpp:50-60 | from any reachable state a bounded number of zeros leads to rest, after which every zero is answered by four zeros that decode as empty replies |
| `CycleSpec.RunsHandlerIff` | Protocol.hpp:55-56 | an interrupted packet completed by zeros runs its handler exactly when what had arrived adds up to 0, and reports a bad checksum otherwise |
| `CycleSpec.InterruptedRuns` | Protocol.hpp:55-56 | a device that received 1 and 255 is such a state, reached from rest, and zeros make its handler run |
| `Cycles.AnswerLine` | Protocol.hpp:203-219 | what is asked of the port for a byte is, on the line, the answer to it |
| `Cycles.Endpoint.cycle` | Protocol.hpp:198-221 | one received byte over the real parser and port: a raw byte is stored as it came, otherwise the device steps as specified, a handler's request for raw bytes is taken up, and the answer, which may be any writes of a handler, is promised whole whenever it fits |
| `Cycles.Endpoint.ReceiverFailed` | Protocol.hpp:193-197 | a receiver error empties the parser, leaves the countdown, and is told to the host as an info text |
| `IntSqrts.IntSqrt` | MyMath.hpp:58-66 | computes the iteration from its estimate and terminates for every y without dividing by zero or overflowing, with r*r <= y+1 and y < (r+1)*(r+1) |
| `IntSqrts.ExceedsIff` | MyMath.hpp:58-66 | it is more than the floor root exactly when y+1 is a perfect square and the iteration comes by one above its root |
| `IntSqrts.Below49And25` | MyMath.hpp:58-66 | 7 for 48, and 4 for 24 |
| `IntSqrts.FloorUnlessBelowSquare` | MyMath.hpp:58-66 | so it is the floor root, or one more when y+1 is a perfect square |
| `IntSqrts.StopsNear` | MyMath.hpp:64-64 | the stop rule, a step down by exactly one, is met only at the root or one below a perfect square |
| `SortSpec.MergeSorted` | sort.c:24-35 | merging two sorted sequences sorts |
| `SortSpec.MergePermutes` | sort.c:24-35 | and keeps every element |
| `SortSpec.MedianOf` | sort_and_median.h:46-50 | at least half of the elements are on either side of the median |
| `SortSpec.MedianIsMean` | sort_and_median.h:46-47 | the median is the middle element, or the mean of the two in the middle |
| `Sorting.MedianStep` | sort_and_median.h:46-47 | the macro computes it from the strided elements |
| `Sorting.Insert` | sort_and_median.h:21-29 | one element goes down to its place among the sorted ones before it |
| `Sorting.insertion_sort_step` | sort_and_median.h:19-31 | the strided elements become a sorted permutation of themselves, and no other cell changes |
| `Sorting.insertion_sort` | sort_and_median.h:33-33 | the same for contiguous elements |
| `Sorting.Combine` | sort.c:23-35 | the loop and its two remnants compute the merge of the halves |
| `Sorting.merge_sort` | sort.c:15-38 | a sorted permutation for every N, and no cell outside changes |
| `Sorting.SortAndMedianStep` | sort_and_median.h:46-49 | the value returned is the middle, or the mean of the two middle elements, of the sorted ones, and has at least half of the original ones on either side |
| `Sorting.SortAndMedian` | sort_and_median.h:50-50 | the same with merge sort |
| `Timing.SeesTrueOrderIff` | General.hpp:81-86 | the wrapping comparison sees the true order exactly when the distance lies in an even half-turn |
| `Timing.SeesTrueOrder` | General.hpp:81-86 | in particular for times less than half a turn apart |
| `Timing.NarrowIsRightIff` | General.hpp:81-86 | on a type of n values narrower than int it is wrong exactly when y is ahead of x by less than n - WrapValue / 2 |
| `Timing.Periodically.Run` | MyTime.hpp:181-187 | one poll takes the specified step on ticks; Func is not called for period 0 |
| `Timing.TimePeriod.Expired` | MyTime.hpp:103-113 | the same with a deadline that counts as passed, and a second clock reading |
| `Timing.PollAgrees` | MyTime.hpp:30-31 | a poll on wrapping ticks decides as true time does |
| `Timing.FiresIffDue` | MyTime.hpp:181-187 | over any run a timer fires at exactly the polls past its deadline, a period after it last fired |
| `Timing.TooLate` | MyTime.hpp:101-102 | a poll more than half a turn late misses its deadline |

## Left out

- `HW_IO_`, `TryToSend`, beacons and the waiting loops of `PurgeRX`: hardware. A received byte is an argument, `PurgeRX` is a flush of the parser, and the bytes it discards are just not among those that follow.
- printf wrappers, debug output, exceptions, `OutStream`, `CommandTable`, `ReturnMultiInReverse`, `VirtCircBuffer`, `Chain`, `Vector` and the small headers: easy, unfinished, or a second copy of what is modelled. The timers other than `Periodically` and `TimePeriod` repeat them.
- Pointers to data: blocks, texts and raw bytes are values, so a caller that changes a block before its release callback is not modelled. A short error text and `Pad` are the exception: the bytes read behind them are arguments.
- A handler is a number in the list. The writes it makes and how many raw bytes it asks for are an argument of `cycle`; one without room stops it.
- Assertions that stop the program are a result `alive` or `ok` that is false.
- `CircBuffers.CircBuffer.constructor`: asks that a base ring's counter can hold its size, which the source does not check.
- `RingInterleaving.StepKeeps`: each side loads the other's index once per question; a compiler that loads it twice is not modelled.
- `BlockRings.BlockRing.ForceSlotToWrite`: interrupts a reader only between the reader's calls; single accesses are in `BlockInterleaving`, where the forcing writer uses `SaferForceSlotToWrite`.
- `Ports.Port.write`: one uninterrupted call; interrupts between any two ring updates are in `PortSpec.EveryRun`, where a byte at a time is accepted.
- `Protocols.Protocol.info_message`: what fits is judged without an interrupt during the call; one would only add room.
- `Protocols.Protocol.error_message_`: a text shorter than 3 bytes asks that enough memory can be read behind it. In a build with NDEBUG `AVP_ASSERT` only evaluates its expression (Error.h, lines 73-74): the function goes on after a write that failed, so a later part of the block can go out without an earlier one. The contract is that of builds that stop.
- `Protocols.Protocol.return_error_message`: the same, and likewise `ReturnOK` and the asserted answers of `cycle`.
- `Modbus.ModbusMaster.ReadHoldingRegisters`: the bus is a finite trace of polls with the true times of the clock readings around each, of which the program sees the low 32 bits; a call that would outlast it is reported as waiting. `Write` is taken to send everything, and the clock reading after it is an argument.
- `IntSqrts.ExceedsIff`: the condition follows the iteration, which has no shorter form; what holds for every y without it is in `IntSqrts.IntSqrt`.
- `Sorting.merge_sort`: elements are real numbers, totally ordered; NaN and rounding of the averaged median are not modelled. Sizes are not negative.
- `Sorting.SortAndMedianStep`: asks for at least one element, as the macro reads one.
- `Timing.SeesTrueOrderIff`: the default `WrapValue` only, which is the one the timers use.
