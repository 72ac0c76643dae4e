# Verified model of njs-modbus

This project models the stateful core of a Modbus stack in Dafny and proves what that core is for: that a receiver's
output depends on the byte stream and not on how the transport cuts it, that a slave never runs two writes on a common
address, that a master calls every request back exactly once, that its timers run in order and on time, and that the two
ends of a connection read back what the other one wrote.

`dafny verify dfyconfig.toml` checks everything.

## How it is organised

Code that updates fields or buffers in place is a class or a method with the same fields, buffers and loops. Each is
proved against a function on plain values, and the properties are lemmas about those functions.

| files | component | specification | main results |
|---|---|---|---|
| `Bytes` | bytes and 16-bit words | | |
| `Crc16` | CRC table and loops | bitwise polynomial division | table = division; damage within two adjacent bytes is always noticed |
| `RtuFraming`, `RtuDecoder`, `RtuRuns`, `RtuScan`, `RtuTiming` | RTU decoder, encoder, t3.5 timer | `Scan`: one leftmost scan of the whole stream | the scan finds exactly the encoded legal frames, leftmost first; chunk independence, losslessness on legal traffic, no frame across a silence |
| `TcpFraming`, `TcpDecoder`, `TcpStreams` | TCP decoder, encoder | `Parse`: frames up to the first error | chunk independence up to the first error, exact round trip |
| `AsciiFraming`, `AsciiDecoder`, `AsciiLines` | ASCII decoder, encoder | `Fold`: a byte-wise state machine | chunk independence on every stream, self-synchronisation from every state |
| `WriteLock`, `WriteRanges` | slave write-range lock | history of starts and ends | mutual exclusion, no lost wake-up, termination of the flush, exactly which writes are kept apart |
| `MasterQueue`, `MasterLedger`, `MasterExchange`, `MasterRuns` | request queue, exchange engine, session, transaction ids | abstract queue; place of every callback | exactly-once settlement and order of dispatch over every interleaving |
| `TimerHeap` | timer heap, direct mode, migration | multiset of entries in heap order | a tick runs exactly what is due, in order; the native timer always covers the earliest deadline |
| `DeviceIdentification`, `DeviceIdServer`, `DeviceIdClient`, `DeviceIdReplies` | FC 43 / MEI 14 encoder, parser, walk | the ascending stream of a category | the walk yields every object once; parser inverts encoder |
| `Fingerprint` | deduplication hash | block-wise MurmurHash3 | streamed = reference; requests that differ in one word never collide |
| `CoilPacking` | FC 1, 2 and 15 bit packing | bit `k` is coil `k` | pack and unpack are inverse, end to end |
| `RegisterTransfer` | FC 3, 4, 16 and 23 register transfer | two bytes a register, high byte first | what one end writes the other reads, exactly for legal quantities |
| `Calls` | the calls of the master's interface | the addresses each call names | every call with a short list crosses an RTU line; the slave writes, and locks, what was meant |
| `Published` | checksums, hash and framings | values published for them | the model gives those values |

Callbacks and events are recorded in a log (`events`, `log`, `fired`, `rejected`) in the order the code issues them.
Time is a parameter: an integer for the RTU silence, a real for the timer heap.

## What the proofs say about the code

Some properties the design suggests do not hold on all inputs. For these the exact condition is proved.

- The RTU single-chunk fast path has no 256-byte limit, the scanner has one. A lone chunk of 257 bytes or more that is
  one well-formed frame is accepted whole (`RtuRuns.OversizedRequestGetsThrough`). Fast path and scanner agree exactly
  when the chunk is not such a frame (`RtuDecoder.FastPathAgreesIffNotOversized`); chunks of at most 256 bytes never are.
  Over whole runs a slave's output is that of one scan exactly when no chunk was such a frame
  (`RtuRuns.SlaveRunIsScanIffSafe`).
- An RTU master can be led to wait for an FC 43 response longer than its 256-byte buffer, and a frame that was in the
  buffer is lost or found depending on the cut (`RtuRuns.CutsCanLoseAFrame`). Cuts into chunks of at most 256 bytes agree
  exactly while no prefix of the stream leaves more than 256 undecided bytes (`RtuRuns.CutsAgreeIffAlwaysFits`), and only
  an unfinished object walk can (`RtuRuns.LongRestIsIdentification`). A slave is always decided before that, and so is a
  master on legal traffic.
- `TcpProtocolLayer.encode` documents payloads of up to 253 bytes; the decoder takes at most 252 back
  (`TcpFraming.SurvivesIffFits`). After a framing error the rest of the chunk is dropped but a new chunk is not
  (`TcpDecoder.CutMattersAfterError`): the cut is immaterial exactly when nothing follows the failing header
  (`TcpDecoder.CutsAgreeIffNothingBehind`). `RtuProtocolLayer.encode` documents 0..254; a frame survives exactly when it has
  the length its function code prescribes and fits 256 bytes (`RtuRuns.SurvivesIffLegal`).
- Under `deduplicate`, when every waiting request is a duplicate of the new one and the head index is above 0, the head
  index is reset without emptying the arrays and the queue is lost (`MasterQueue.DeduplicateLosesTheQueue`).
  `MasterQueue.RequestQueue.Admit` states exactly when the layout survives.
- The timer heap's clamp to 2^31 - 1 ms is computed on a value already wrapped to 32 bits; it has the documented effect
  below 2^31 ms and otherwise only by accident (`TimerHeap.CeilingIffSmall`, `TimerHeap.FarDeadlineWraps`). A wrapped
  delay only makes the native timer fire early, and `_onTick` re-arms it; migration, however, moves such a deadline
  earlier (`TimerHeap.MigrationIsNeverEarlyIffNear`).
- The FC 43 parser never closes an object value of fewer than two bytes, which the encoder does send
  (`DeviceIdClient.RoundTripIffTwoBytes`).
- The `ModbusMaster` constructor is documented to throw for `concurrent` on a protocol without transaction ids; the code
  does not check it. There a second request in flight takes over the waiter of the first
  (`MasterLedger.SharedKeyLosesAWaiter`); registering a waiter is sound exactly when its key is free
  (`MasterLedger.RegisterMatchesIffFree`).
- The write-range lock compares address numbers and not tables. It always keeps writes of a common cell apart, and it
  also serialises a coil write and a register write whose numbers meet (`WriteRanges.ApartIffCommonCell`).

## Model

| member | source | states |
|---|---|---|
| `Crc16.TableIsDivision` | src/utils/crc.ts:28-45 | each step through the published table is eight steps of division by the reversed polynomial 0xA001, for every register and byte |
| `Crc16.ShiftByteIsLinear` | src/utils/crc.ts:28-45 | the division step is linear over exclusive or |
| `Crc16.CrcFixed` | src/utils/crc.ts:62-70 | the loop over part of one array computes the CRC of exactly that part |
| `Crc16.CrcDual` | src/utils/crc.ts:91-102 | the loop over two segments computes the CRC of their concatenation |
| `Published.CrcCheckValue` | src/utils/crc.ts:62-70 | the check value of CRC-16/MODBUS, the checksum of "123456789", is 0x4B37 |
| `Crc16.WithCrcIsValid` | src/layers/protocol/rtu-protocol-layer.ts:720-728 | the trailer the encoder appends is accepted |
| `Crc16.ValidIffResidueZero` | src/layers/protocol/rtu-protocol-layer.ts:720-728 | a frame carries the right trailer if and only if the CRC over all its bytes is 0 |
| `Crc16.AdjacentDamageChangesCrc` | src/utils/crc.ts:62-70 | two sequences of any one length that differ only within two adjacent bytes have different CRCs |
| `Crc16.AdjacentDamageIsDetected` | src/layers/protocol/rtu-protocol-layer.ts:532-569 | damage confined to two adjacent bytes of a valid frame, trailer included, makes it invalid |
| `RtuFraming.PredictStable` | src/layers/protocol/rtu-protocol-layer.ts:440-520 | a length decided on a prefix is never changed by the bytes that follow |
| `RtuFraming.ObjectsLengthStable` | src/layers/protocol/rtu-protocol-layer.ts:460-478 | the walk over identification objects, once finished, does not depend on later bytes |
| `RtuFraming.ScanResumes` | src/layers/protocol/rtu-protocol-layer.ts:436-648 | scanning may stop anywhere and resume from the undecided suffix |
| `RtuFraming.RestIsUndecided` | src/layers/protocol/rtu-protocol-layer.ts:513-530 | the suffix a scan keeps is really undecided |
| `RtuFraming.SlaveRestIsShort` | src/layers/protocol/rtu-protocol-layer.ts:494-530 | on a slave the undecided suffix is always shorter than 256 bytes |
| `RtuDecoder.FastPathAgreesIffNotOversized` | src/layers/protocol/rtu-protocol-layer.ts:366-434 | the single-chunk fast path gives the scanner's frames if and only if the chunk is not an oversized frame taken whole |
| `RtuDecoder.ScannedFramesAreShort` | src/layers/protocol/rtu-protocol-layer.ts:522-525 | no frame found by the scanner exceeds 256 bytes, whatever the input |
| `RtuDecoder.RtuProtocolLayer.Decode` | src/layers/protocol/rtu-protocol-layer.ts:308-694 | for every state and chunk, the events are those of the specification over held bytes plus chunk, after the silence rule; the pinned length stays stale or exact and the timer is armed exactly when bytes are held; what the specification emits stands in the bytes at hand (`RtuScan.DecodedStands`) |
| `RtuDecoder.RtuProtocolLayer.ScanChunk` | src/layers/protocol/rtu-protocol-layer.ts:436-622 | the in-place scanner over buffer and chunk emits the frames of the leftmost scan and stops at its undecided suffix |
| `RtuDecoder.RtuProtocolLayer.TryAt` | src/layers/protocol/rtu-protocol-layer.ts:440-569 | at each offset the code takes the branch of the scan: wait, slide by one byte, or accept, the last exactly on an encoded legal frame (`RtuScan.AcceptsIffEncoded`) |
| `RtuDecoder.RtuProtocolLayer.PredictAt` | src/layers/protocol/rtu-protocol-layer.ts:440-511 | length prediction from bytes that may straddle buffer and chunk |
| `RtuDecoder.RtuProtocolLayer.WalkObjects` | src/layers/protocol/rtu-protocol-layer.ts:460-478 | the FC 43 cursor loop over the two segments |
| `RtuDecoder.RtuProtocolLayer.CrcAt` | src/layers/protocol/rtu-protocol-layer.ts:535-564 | the CRC of a frame that may straddle buffer and chunk |
| `RtuDecoder.RtuProtocolLayer.Compact` | src/layers/protocol/rtu-protocol-layer.ts:624-694 | in-place compaction keeps exactly the undecided suffix, of a longer one the newest 256 bytes (`RtuDecoder.KeptIsNewest`) |
| `RtuDecoder.RtuProtocolLayer.TakeWhole` | src/layers/protocol/rtu-protocol-layer.ts:366-434 | the fast path fires exactly on chunks that are one predicted, checksummed frame |
| `RtuDecoder.RtuProtocolLayer.OnSilence` | src/layers/protocol/rtu-protocol-layer.ts:669-692 | the t3.5 deadline discards what is held and reports it |
| `RtuDecoder.RtuProtocolLayer.Flush` | src/layers/protocol/rtu-protocol-layer.ts:280-292 | nothing is held afterwards and nothing is emitted |
| `RtuRuns.Receive` | src/layers/protocol/rtu-protocol-layer.ts:308-660 | feeding chunks one by one to the decoder is the functional run over them |
| `RtuRuns.RunIsScan` | src/layers/protocol/rtu-protocol-layer.ts:308-660 | both roles: over a cut in which no chunk is oversized and nothing overflows, a run is one scan of the whole stream |
| `RtuRuns.SlaveRunIsScanIffSafe` | src/layers/protocol/rtu-protocol-layer.ts:308-660 | slave: on every byte stream and every cut, a run is one leftmost scan of the whole stream if and only if no chunk met an empty buffer as one oversized frame |
| `RtuRuns.SlaveCutsAgree` | src/layers/protocol/rtu-protocol-layer.ts:308-660 | slave: any two cuts of one stream into chunks of at most 256 bytes give the same frames and the same remainder |
| `RtuRuns.PredictedIffLegal` | src/layers/protocol/rtu-protocol-layer.ts:38-69 | the length tables and the object walk give the encoder's length for frames of the prescribed shape and for no others |
| `RtuRuns.SurvivesIffLegal` | src/layers/protocol/rtu-protocol-layer.ts:708-730 | an encoded frame is decoded to itself if and only if it is legal |
| `RtuRuns.PrefixWaits` | src/layers/protocol/rtu-protocol-layer.ts:440-530 | a proper prefix of a legal frame is never decided wrongly |
| `RtuRuns.LegalTrafficIsLossless` | src/layers/protocol/rtu-protocol-layer.ts:308-730 | both roles: any sequence of legal frames, cut anywhere, is decoded to exactly those frames in order with nothing left |
| `RtuRuns.EncodeFrame` | src/layers/protocol/rtu-protocol-layer.ts:708-730 | the buffer-filling encoder produces unit, function code, payload and valid trailer |
| `Published.RequestOnRtu` | src/layers/protocol/rtu-protocol-layer.ts:708-730 | a request of unit 17 for three registers from 107 on, byte by byte |
| `RtuRuns.OversizedRequestGetsThrough` | src/layers/protocol/rtu-protocol-layer.ts:387-434 | a 264-byte request that the fast path accepts and no scan yields |
| `RtuRuns.CutsAgreeIffAlwaysFits` | src/layers/protocol/rtu-protocol-layer.ts:308-660 | both roles, every stream: all cuts of its prefixes into chunks of at most 256 bytes give the one scan if and only if no prefix leaves more than 256 undecided bytes |
| `RtuRuns.LongRestIsIdentification` | src/layers/protocol/rtu-protocol-layer.ts:460-478 | only an FC 43 / MEI 14 response whose object walk is unfinished can leave a master more than 256 undecided bytes |
| `RtuRuns.CutsCanLoseAFrame` | src/layers/protocol/rtu-protocol-layer.ts:627-648 | one stream and two cuts of it, all chunks of which fit the buffer: from the first a master reports a frame, from the second it reports none |
| `RtuScan.AcceptsIffEncoded` | src/layers/protocol/rtu-protocol-layer.ts:532-569 | bytes are accepted if and only if they are the encoding of a legal frame, checksum included |
| `RtuScan.SlidesOnlyPastNoFrame` | src/layers/protocol/rtu-protocol-layer.ts:440-530 | a byte is given up only when no continuation of the stream would make it the start of a legal frame |
| `RtuScan.ScanIsLeftmost` | src/layers/protocol/rtu-protocol-layer.ts:436-648 | on every stream: the frames found are legal, stand in it byte for byte, in order and without overlap; no frame in between is missed; nothing else precedes the remainder |
| `RtuScan.LeftmostIsUnique` | src/layers/protocol/rtu-protocol-layer.ts:436-648 | and no other list of frames has these properties |
| `RtuScan.DamagedIsNoFrame` | src/layers/protocol/rtu-protocol-layer.ts:532-569 | an encoded frame damaged within two adjacent bytes is the encoding of no frame and is not accepted in its place, whatever follows |
| `RtuScan.DecodedStands` | src/layers/protocol/rtu-protocol-layer.ts:308-694 | one chunk, by fast path or scanner: every frame reported stands byte for byte in held bytes plus chunk, and what is held is a suffix of them |
| `RtuScan.RunStands` | src/layers/protocol/rtu-protocol-layer.ts:308-660 | over every run, however cut: every frame reported was received byte for byte, checksum included |
| `RtuTiming.ReceiveTimed` | src/layers/protocol/rtu-protocol-layer.ts:308-694 | with timing enabled the receiver, deadline firings included, behaves as the timed specification |
| `RtuTiming.BurstStartsAtGap` | src/layers/protocol/rtu-protocol-layer.ts:315-322 | a burst is what arrived since the last gap longer than t3.5 or firing of the deadline |
| `RtuTiming.HeldIsRecent` | src/layers/protocol/rtu-protocol-layer.ts:315-322 | held bytes never reach back across a silence longer than t3.5 |
| `RtuTiming.NoFrameSpansASilence` | src/layers/protocol/rtu-protocol-layer.ts:315-322 | every frame lies within one burst: none contains bytes from both sides of a silence longer than t3.5 |
| `TcpFraming.ParseResumes` | src/layers/protocol/tcp-protocol-layer.ts:69-322 | parsing may stop anywhere and resume from the remainder; an error is final |
| `TcpFraming.RestIsIncomplete` | src/layers/protocol/tcp-protocol-layer.ts:287-321 | the remainder is a proper prefix of one frame: a partial header, or a valid header with too few bytes |
| `TcpFraming.BehindResumes` | src/layers/protocol/tcp-protocol-layer.ts:223-289 | what lies behind the failing header is found wherever parsing resumes, and grows with the stream |
| `TcpFraming.SurvivesIffFits` | src/layers/protocol/tcp-protocol-layer.ts:339-362 | a frame comes back as itself if and only if its payload has at most 252 bytes |
| `TcpFraming.EncodedStreamParses` | src/layers/protocol/tcp-protocol-layer.ts:69-362 | frames that fit are parsed back in order, whatever follows |
| `TcpFraming.EncodeFrame` | src/layers/protocol/tcp-protocol-layer.ts:339-362 | the buffer-filling encoder produces header and payload |
| `Published.RequestOnTcp` | src/layers/protocol/tcp-protocol-layer.ts:339-362 | the same request with transaction 1, byte by byte |
| `TcpStreams.HeaderByBytes` | src/layers/protocol/tcp-protocol-layer.ts:223-321 | the verdict on a header from its bytes: which ones wait, which ones are complete, and which error each of the others gives |
| `TcpStreams.ParsedIsEncoded` | src/layers/protocol/tcp-protocol-layer.ts:69-362 | every stream is the encoding of the frames found, all of which fit, followed by the incomplete remainder or by the failing header and what is behind it |
| `TcpStreams.ReadsAsEncoded` | src/layers/protocol/tcp-protocol-layer.ts:69-362 | a stream is read as a list of frames with nothing left if and only if it is their encoding and all fit |
| `TcpDecoder.TcpProtocolLayer.Decode` | src/layers/protocol/tcp-protocol-layer.ts:69-322 | for every state and chunk, the events are those of parsing held bytes plus chunk; what is held stays a proper prefix of one frame, so the 260-byte clamp never cuts |
| `TcpDecoder.TcpProtocolLayer.CompleteHeld` | src/layers/protocol/tcp-protocol-layer.ts:103-220 | finishing the held frame consumes exactly its missing bytes |
| `TcpDecoder.TcpProtocolLayer.TakeWhole` | src/layers/protocol/tcp-protocol-layer.ts:73-99 | the fast path fires exactly on chunks that are one frame |
| `TcpDecoder.RunIsParse` | src/layers/protocol/tcp-protocol-layer.ts:69-322 | up to the first framing error, and that error included, a run depends on the stream only |
| `TcpDecoder.TrafficIsLossless` | src/layers/protocol/tcp-protocol-layer.ts:69-362 | encoded traffic, cut anywhere, comes out frame by frame and leaves nothing behind |
| `TcpDecoder.CutsAgreeIffNothingBehind` | src/layers/protocol/tcp-protocol-layer.ts:69-322 | every cut of a stream gives the same events and the same held bytes if and only if nothing follows the header at which parsing fails, if it fails |
| `AsciiFraming.FoldResumes` | src/layers/protocol/ascii-protocol-layer.ts:213-388 | the state machine may be stopped and resumed anywhere |
| `AsciiFraming.HexPairsDecode` | src/layers/protocol/ascii-protocol-layer.ts:35-70 | the decoding tables, strict and lenient, invert the encoding tables on every byte string |
| `AsciiFraming.OverlongIsRejected` | src/layers/protocol/ascii-protocol-layer.ts:236-254 | a body of more than 512 digits yields one error and an idle decoder |
| `AsciiFraming.EncodedFrameSynchronises` | src/layers/protocol/ascii-protocol-layer.ts:213-438 | from any state, strict or lenient, an encoded frame of at most 253 payload bytes yields exactly that frame and an idle decoder; a longer one is rejected once |
| `AsciiFraming.EncodeFrame` | src/layers/protocol/ascii-protocol-layer.ts:401-438 | the buffer-filling encoder produces colon, upper-case hex of body and LRC, and line end; with the LRC the bytes sum to 0 (`AsciiLines.FrameSumsToZero`) |
| `Published.RequestOnAscii` | src/layers/protocol/ascii-protocol-layer.ts:401-438 | the same request, character by character |
| `AsciiLines.DigitsSent` | src/layers/protocol/ascii-protocol-layer.ts:58-71 | the sixteen digits sent are 0 to 9 and A to F, in order |
| `AsciiLines.DigitsUnderstood` | src/layers/protocol/ascii-protocol-layer.ts:35-56 | the digits understood and their values; lower case in lenient mode only |
| `AsciiLines.HighHalfFirst` | src/layers/protocol/ascii-protocol-layer.ts:64-71 | a byte is sent and understood high digit first |
| `AsciiLines.FrameSumsToZero` | src/layers/protocol/ascii-protocol-layer.ts:401-438 | the bytes of an encoded frame, check byte included, sum to 0 modulo 256 |
| `AsciiLines.AcceptedIffZeroSum` | src/layers/protocol/ascii-protocol-layer.ts:329-388 | bytes are accepted as a frame if and only if they sum to 0 modulo 256 |
| `AsciiLines.LineYields` | src/layers/protocol/ascii-protocol-layer.ts:213-388 | from any state, what a whole line of hex digits yields: too short, odd, wrong sum, or exactly the frame it spells |
| `AsciiLines.BadDigitEndsLine` | src/layers/protocol/ascii-protocol-layer.ts:255-273 | a character that is no digit gives one error, and nothing more comes of the line |
| `AsciiLines.LineFeedMissing` | src/layers/protocol/ascii-protocol-layer.ts:281-291 | a carriage return not followed by a line feed ends the line silently |
| `AsciiLines.ColonRestarts` | src/layers/protocol/ascii-protocol-layer.ts:218-237 | a colon starts a new line from any state and discards an unfinished one silently |
| `AsciiDecoder.AsciiProtocolLayer.Decode` | src/layers/protocol/ascii-protocol-layer.ts:137-388 | for every state and chunk, garbage included, fast path and byte loop give the events and state of the machine |
| `AsciiDecoder.AsciiProtocolLayer.TakeWhole` | src/layers/protocol/ascii-protocol-layer.ts:140-207 | when the whole-line fast path fires it gives the machine's event and leaves it idle |
| `AsciiDecoder.AsciiProtocolLayer.Complete` | src/layers/protocol/ascii-protocol-layer.ts:289-388 | the closing check over the buffer: length, then LRC; accepted are exactly the bodies whose bytes sum to 0 (`AsciiLines.AcceptedIffZeroSum`) |
| `AsciiDecoder.Receive` | src/layers/protocol/ascii-protocol-layer.ts:137-388 | any cut of any stream gives the events of the machine over the whole stream |
| `AsciiDecoder.TrafficSynchronises` | src/layers/protocol/ascii-protocol-layer.ts:137-438 | a sequence of encoded frames comes out in order even when reception starts inside something else |
| `WriteLock.OverlapIsSharedAddress` | src/slave/slave.ts:119-134 | two non-empty ranges overlap if and only if they share an address |
| `WriteLock.RangesOverlap` | src/slave/slave.ts:119-134 | the nested loops decide whether any two ranges overlap |
| `WriteLock.HistoryStarts` | src/slave/slave.ts:1904-1919 | starting a write that conflicts with nothing in flight keeps the whole history free of clashes |
| `WriteLock.SwapRemovedKeepsOthers` | src/slave/slave.ts:1940-1953 | swap-removal takes out that one write and keeps all others |
| `WriteLock.UnitWriteLock.SwapRemove` | src/slave/slave.ts:1940-1953 | one write leaves, every in-flight write still knows its index, and only a write whose handler has called back may leave |
| `WriteLock.UnitWriteLock.Execute` | src/slave/slave.ts:1918-1934 | a started write whose handler calls back at once is out of flight again when the call returns; any other stays in flight |
| `WriteLock.UnitWriteLock.OnLockedUnitWriteDone` | src/slave/slave.ts:1940-1958 | a completion ends one write and leaves every waiting write blocked by one in flight, unless a flush is already under way |
| `WriteLock.UnitWriteLock.FlushPendingWrites` | src/slave/slave.ts:1590-1637 | the re-entrant flush ends, loses and repeats no write, and stops only when every waiting write conflicts with one in flight |
| `WriteLock.UnitWriteLock.FlushPass` | src/slave/slave.ts:1598-1632 | a pass either completes something, and then fewer writes wait, or leaves only blocked ones; those that wait on keep their order |
| `WriteLock.UnitWriteLock.Arrive` | src/slave/slave.ts:1894-1935 | an arriving write waits, behind all others, if it conflicts with one in flight and starts at once otherwise; afterwards every waiting write is blocked by one in flight, in order of arrival, and nothing in flight has called back at once |
| `WriteLock.UnitWriteLock.Complete` | src/slave/slave.ts:1940-1958 | a later completion takes its write out of flight for good and leaves every waiting write blocked by one in flight, none overtaken by another that still waits |
| `WriteLock.UnitWriteLock.IdleMeansDone` | src/slave/slave.ts:1590-1637 | nothing in flight means nothing waits and every arrival is done |
| `WriteLock.RunAll` | src/slave/slave.ts:1834-1958 | over every interleaving of arrivals and completions no two running writes ever clash, no write is lost or run twice, those waiting do so in order of arrival, none is taken as done before its handler called back, none whose handler has called back stays in flight, and an idle lock has done everything |
| `WriteRanges.LockIsWhatIsWritten` | src/slave/slave.ts:1843-1867 | a standard write that reaches the model is locked with exactly the addresses it writes, at least one |
| `WriteRanges.UnlockedWritesNothing` | src/slave/slave.ts:1843-1867 | a standard write that bypasses the lock never reaches the model |
| `WriteRanges.ApartIffCommonAddress` | src/slave/slave.ts:119-134 | two accepted writes are kept apart if and only if their address numbers meet |
| `WriteRanges.ApartIffCommonCell` | src/slave/slave.ts:119-134 | two accepted writes that would change a common cell are always kept apart; writes of one table if and only if they would; writes of different tables without need exactly when their address numbers meet |
| `WriteRanges.RunningWritesShareNoCell` | src/slave/slave.ts:1834-1958 | over whole runs: at no moment do two running standard writes change a common cell |
| `WriteRanges.CoilAndRegisterAreSerialised` | src/slave/slave.ts:1864-1867 | a single coil and a single register of one number are kept apart although no cell is written by both |
| `WriteRanges.CoilZeroAndRegisterZero` | src/slave/slave.ts:1864-1867 | coil 0 and register 0 as the concrete input |
| `MasterQueue.SelectPartitions` | src/master/master.ts:422-446 | deduplication keeps or rejects every waiting request, once |
| `MasterQueue.SelectSorts` | src/master/master.ts:427-446 | and which of the two depends on its fingerprint alone |
| `MasterQueue.StrategyDecides` | src/master/master.ts:406-446 | which requests an arrival turns away: none under `fifo` and `concurrent`, all under `drop-stale`, under `deduplicate` exactly those with its own fingerprint, and none if it has none |
| `MasterQueue.SelectKeepsOrder` | src/master/master.ts:427-446 | kept and rejected requests both keep the order in which they waited |
| `MasterQueue.RequestQueue.Dequeue` | src/master/master.ts:512-540 | the seven arrays with head index give up the head of the queue they represent, shrinking when it empties |
| `MasterQueue.RequestQueue.DropAll` | src/master/master.ts:407-421 | drop-stale rejects every waiting request once, in order, and empties the arrays |
| `MasterQueue.RequestQueue.DropMatching` | src/master/master.ts:422-458 | in-place compaction over seven arrays rejects the duplicates in order and closes the gaps |
| `MasterQueue.RequestQueue.Admit` | src/master/master.ts:406-470 | under each strategy the queue becomes the survivors plus the new request; the layout is lost in exactly the case of a reset head |
| `MasterQueue.PushedLayout` | src/master/master.ts:455-469 | a head reset to 0 over cleared slots represents no queue at all |
| `MasterQueue.DeduplicateLosesTheQueue` | src/master/master.ts:447-540 | four requests and one completion, from an idle master on, after which the arrays represent no queue |
| `MasterLedger.NextTidComesCloser` | src/master/master.ts:693-699 | the identifier search visits every identifier in 1..65535 |
| `MasterLedger.SomeTidIsFree` | src/master/master.ts:693-699 | fewer than 65535 waiters leave an identifier free |
| `MasterExchange.ModbusMaster.AllocateTid` | src/master/master.ts:693-699 | the do-while ends with an identifier in range that no live waiter has |
| `MasterLedger.SettleMatched` | src/master/master-session.ts:63-138 | removing a settled exchange with its waiter keeps waiters and exchanges matched one to one |
| `MasterRuns.WaitersFewer` | src/master/master-session.ts:63-76 | live waiters never outnumber the requests sent |
| `MasterLedger.RegisterMatchesIffFree` | src/master/master-session.ts:63-65 | registering a waiter keeps waiters and exchanges matched if and only if its key is free |
| `MasterLedger.DispatchWired` | src/master/master.ts:690-758 | a request sent under a free key becomes the last one sent under it and hides no earlier one that still waits |
| `MasterLedger.SharedKeyLosesAWaiter` | src/master/master.ts:266-279 | two requests in flight without transaction identifiers: the second takes the place of the first, which no frame reaches any more |
| `MasterLedger.SettlePlaces` | src/master/master.ts:734-745 | settling moves a callback from pending to done and no other |
| `MasterLedger.OrderedAccepts` | src/master/master.ts:460-470 | a new request goes to the end of the order |
| `MasterLedger.OrderedDiscards` | src/master/master.ts:407-421 | turning away everything that waits keeps the order of what was written |
| `MasterLedger.AtOnceMeans` | src/master/master.ts:733-761 | which reports of a transport settle a request before write returns, and how; all others leave it open |
| `MasterLedger.DrainMeans` | src/master/master.ts:505-562 | draining settles the first requests, each as its own write says, up to the first that stays open, and leaves the ones behind it waiting |
| `MasterExchange.ModbusMaster.RunExchange` | src/master/master.ts:668-762 | an exchange is written once and opens with its timer and waiter; it stays open, and nothing is settled, unless the transport settles it inside write: by a failure, by having sent a broadcast, or by the response to anything else; other exchanges are untouched |
| `MasterExchange.ModbusMaster.Next` | src/master/master.ts:505-562 | the drain loop settles and leaves waiting exactly what dispatching the queue in order until one exchange stays open would |
| `MasterExchange.ModbusMaster.Send` | src/master/master.ts:363-471 | a request is taken in at the end of the order, or turned away by a destroyed master; over a transport that reports later it is open afterwards, if nothing else was, and nothing is settled but what the strategy turns away; the settlements it causes are stated in full |
| `MasterExchange.ModbusMaster.Enqueue` | src/master/master.ts:406-470 | what a strategy drops is rejected once, in order, and the rest stays in order |
| `MasterExchange.ModbusMaster.SettleAndGoOn` | src/master/master.ts:536-558 | settling one exchange leaves the others as they are and dispatches what waits |
| `MasterExchange.ModbusMaster.OnFrame` | src/master/master-session.ts:118-126 | a response settles the one exchange that waits under its key, which is the request most recently sent with it, as answered; then what waits is dispatched; an unknown key settles nothing |
| `MasterExchange.ModbusMaster.WaiterWasSentLast` | src/master/master-session.ts:118-126 | whoever waits under a transaction id is whose request was last put on the wire with that id |
| `MasterExchange.ModbusMaster.OnTimer` | src/master/master.ts:247-262 | a timer settles its own exchange; a stale timer touches nothing |
| `MasterExchange.ModbusMaster.OnWriteDone` | src/master/master.ts:704-760 | a late write result settles its own exchange only, and a success only a broadcast |
| `MasterExchange.ModbusMaster.OnFramingError` | src/master/master-session.ts:89-138 | every exchange that was waiting is closed and settled with the framing error; exchanges that were not waiting stay open |
| `MasterExchange.ModbusMaster.Destroy` | src/master/master.ts:1824-1871 | every callback ever handed in is settled, those not settled before with the rejection of destroy and nothing else; a second call does nothing |
| `MasterRuns.Take` | src/master/master.ts:247-262 | each input has its full effect: the settlement it causes and what is dispatched after it, or nothing; each outcome it logs is one this input can cause: a timeout only a timer, an answer only a frame, and so on, or a write that settles at once |
| `MasterRuns.RunAll` | src/master/master.ts:247-762 | over every interleaving: no callback is settled twice; each outcome is explained by an input of its kind or by a write that settles at once, only broadcasts are settled by being sent and only others by an answer; serial strategies have at most one exchange; the requests sent before destroy are taken in and written in the order sent, except those turned away, each of which is rejected; unless the strategy drops requests what is written is a prefix of what was sent; the last input has taken effect; once destroy has been called every request sent is settled, under concurrent dispatch too as long as at most 65535 were sent |
| `TimerHeap.RootIsLeast` | src/utils/timer-heap.ts:201-232 | in a heap-ordered array the root precedes every entry |
| `TimerHeap.HoleMovesUp` | src/utils/timer-heap.ts:210-226 | one step of sifting up keeps order everywhere but around the hole |
| `TimerHeap.HoleMovesDown` | src/utils/timer-heap.ts:297-325 | one step of sifting down keeps order everywhere but around the hole |
| `TimerHeap.TimerManager.SiftUp` | src/utils/timer-heap.ts:210-227 | the loop over three arrays ends with the entry in order and no entry lost |
| `TimerHeap.TimerManager.SiftDown` | src/utils/timer-heap.ts:297-330 | the loop over three arrays ends with a heap and no entry lost |
| `TimerHeap.TimerManager.HeapAdd` | src/utils/timer-heap.ts:201-232 | order is kept, exactly the new entry is added, and the native timer is set for the earliest deadline |
| `TimerHeap.TimerManager.Pop` | src/utils/timer-heap.ts:286-330 | the least entry leaves, order is kept, nothing else leaves |
| `TimerHeap.TimerManager.Sift` | src/utils/timer-heap.ts:339-401 | order is restored around a replaced entry |
| `TimerHeap.TimerManager.RemoveAt` | src/utils/timer-heap.ts:165-182 | removal anywhere keeps order and takes out exactly that entry |
| `TimerHeap.DrainStep` | src/utils/timer-heap.ts:268-276 | taking out the least entry keeps the order of what has run and counts down the entries due |
| `TimerHeap.RootStays` | src/utils/timer-heap.ts:169-185 | taking out an entry other than the root leaves the earliest deadline as it is |
| `TimerHeap.WithoutKeepsOthers` | src/utils/timer-heap.ts:85-97 | forgetting one direct timer keeps every other as often and in the same order, and nothing else |
| `TimerHeap.TimerManager.Remove` | src/utils/timer-heap.ts:153-188 | cancelling takes out one entry of that id if there is one and nothing otherwise; in direct mode all other timers stay, in order; the native timer stays set for the earliest deadline |
| `TimerHeap.TimerManager.OnTick` | src/utils/timer-heap.ts:265-285 | whatever timers the callbacks add with positive delays, a tick runs exactly the entries due when it began, by deadline and of one deadline by registration, keeps all others and the added ones, leaves none due, and sets the native timer for the next deadline |
| `TimerHeap.TimerManager.NothingIsOverdue` | src/utils/timer-heap.ts:241-258 | in every state the native timer goes off less than a millisecond past the deadline of every pending entry, or past the moment of arming for one already due then |
| `TimerHeap.TimerManager.OnDirectTimer` | src/utils/timer-heap.ts:85-97 | a direct timer runs once and is forgotten; all others stay, in order |
| `TimerHeap.Drained` | src/utils/timer-heap.ts:265-285 | a drain that stops at the first entry not due has run exactly the due ones |
| `TimerHeap.TimerManager.Add` | src/utils/timer-heap.ts:85-117 | registration in direct mode, in heap mode and across the migration; the native timer covers the earliest deadline afterwards |
| `TimerHeap.TimerManager.MigrateAll` | src/utils/timer-heap.ts:99-115 | the in-place migration is the functional one, for one reading of the clock |
| `TimerHeap.MigrationKeepsDeadlines` | src/utils/timer-heap.ts:99-115 | timers less than 2^31 ms away: none is lost, the due ones run in order of registration, the others keep that order and are never early |
| `TimerHeap.MigrationIsNeverEarlyIffNear` | src/utils/timer-heap.ts:99-115 | a timer keeps or delays its deadline in the migration if and only if it is less than 2^31 ms away |
| `TimerHeap.DelayRoundsUp` | src/utils/timer-heap.ts:250-253 | below 2^31 ms the delay is the difference rounded up |
| `TimerHeap.DelayIsNeverLate` | src/utils/timer-heap.ts:250-256 | the native timer is never set a millisecond or more past the deadline |
| `TimerHeap.CeilingIffSmall` | src/utils/timer-heap.ts:234-256 | the documented ceiling is what the code computes exactly under the stated condition on the difference |
| `TimerHeap.FarDeadlineWraps` | src/utils/timer-heap.ts:250-256 | 2^31 ms ahead the code asks for a negative delay |
| `DeviceIdentification.StreamIsComplete` | src/slave/slave.ts:1410-1453 | the ascending pass leaves no object of the category out |
| `DeviceIdentification.FillFragment` | src/slave/slave.ts:1410-1453 | the single pass over 256 identifiers takes the longest run of objects that fits and notes where it stopped, or fails on a value over 244 bytes |
| `DeviceIdentification.FitTakesOne` | src/slave/slave.ts:1448-1452 | a fragment is never empty |
| `DeviceIdentification.NotTheFirst` | src/slave/slave.ts:1444-1467 | the next-object field is never 0 when more follows, so 0 is unambiguous |
| `DeviceIdentification.ReplyFits` | src/slave/slave.ts:1367-1488 | every response PDU has at most 253 bytes |
| `DeviceIdentification.RestOfStream` | src/slave/slave.ts:1410-1453 | the next fragment starts with the object that did not fit, and its identifier is larger |
| `DeviceIdentification.WalkIsStream` | src/slave/slave.ts:1229-1486 | following the next-object field yields the category's objects once each, ascending |
| `DeviceIdServer.HandleFC43_14` | src/slave/slave.ts:1202-1490 | the whole handler, exceptions included, answers as specified; what the answers are is said in `DeviceIdReplies` |
| `DeviceIdServer.Encode` | src/slave/slave.ts:1457-1488 | the response buffer, filled field by field, is the specified payload |
| `DeviceIdServer.PayloadIsLegal` | src/layers/protocol/rtu-protocol-layer.ts:460-478 | every response is a frame whose object walk ends exactly at its end |
| `DeviceIdServer.ReplyCrossesRtu` | src/layers/protocol/rtu-protocol-layer.ts:308-660 | any identification response, cut anywhere, reaches an RTU master whole |
| `DeviceIdClient.ParseResponse` | src/master/master.ts:1626-1679 | the loop with its three locals computes the specified parse |
| `DeviceIdClient.ParsesIffPrinted` | src/master/master.ts:1626-1679 | on every payload: the parser returns a list of objects if and only if the payload is the encoding of that list, all values having at least two bytes |
| `DeviceIdClient.RoundTripIffTwoBytes` | src/master/master.ts:1635-1670 | the parser inverts the encoder on values of two bytes and more; with any shorter value it reports a count mismatch |
| `DeviceIdClient.OneByteValueIsRejected` | src/master/master.ts:1646-1658 | a response the slave sends and the master rejects |
| `DeviceIdClient.WalkCollectsStream` | src/slave/slave.ts:1202-1488 | from any requested object, a client walking slave and parser end to end collects exactly the category's objects in order, if and only if all their values have 2 to 244 bytes |
| `DeviceIdClient.WalkFromZeroIsComplete` | src/slave/slave.ts:1202-1488 | a walk from object 0 yields every object of the category |
| `DeviceIdReplies.IndividualAccess` | src/slave/slave.ts:1373-1403 | an individual access to a present object of 2 to 244 bytes is answered with exactly that object, as the parser reads it |
| `DeviceIdReplies.MandatoryObjects` | src/slave/slave.ts:1336-1340 | an individual access to a mandatory object the unit does not supply is answered with that object reading "null" |
| `DeviceIdReplies.IndividualAccessFails` | src/slave/slave.ts:1219-1403 | each exception an individual access gives, by identifier, presence and length |
| `DeviceIdReplies.UnknownAccessCode` | src/slave/slave.ts:1268-1281 | an access code other than 1 to 4 is rejected |
| `DeviceIdReplies.Categories` | src/slave/slave.ts:1410-1453 | the identifiers of the three streams: up to 2, up to 6, all |
| `DeviceIdReplies.StreamRestartsAtZero` | src/slave/slave.ts:1232-1356 | a stream asked for from an object that is missing or outside the category starts at object 0 |
| `DeviceIdReplies.StreamStartsWhereAsked` | src/slave/slave.ts:1232-1453 | any other stream starts with the object asked for |
| `DeviceIdReplies.FragmentIsLongest` | src/slave/slave.ts:1410-1453 | a fragment stops only where the next object would not fit the 253-byte PDU |
| `DeviceIdReplies.Levels` | src/slave/slave.ts:1358-1365 | the conformity level by the identifiers present |
| `DeviceIdReplies.PayloadHeader` | src/slave/slave.ts:1457-1488 | where each header field of a response stands |
| `DeviceIdReplies.PayloadFirstObject` | src/slave/slave.ts:1457-1488 | each object is identifier, length, value, the first one right behind the header |
| `DeviceIdReplies.MalformedRequests` | src/slave/slave.ts:1203-1293 | what the handler answers without looking at the objects |
| `Fingerprint.BlocksResume` | src/utils/adu-fingerprint.ts:136-189 | word-wise mixing may be stopped and resumed at any byte |
| `Fingerprint.PushHeaderByte` | src/utils/adu-fingerprint.ts:51-134 | the header state machine at every fill level |
| `Fingerprint.MixPayload` | src/utils/adu-fingerprint.ts:136-204 | top-up, aligned fast lane and tail together hash the payload after any header |
| `Fingerprint.GenerateAduHashFingerprint` | src/utils/adu-fingerprint.ts:42-223 | for every choice of header bytes and payload the result is reference MurmurHash3 of their concatenation, so moving bytes between header and payload changes nothing |
| `Fingerprint.OneWordNeverCollides` | src/utils/adu-fingerprint.ts:42-223 | messages of one length that differ only inside one aligned word never share a hash |
| `Fingerprint.SingleRequestsApart` | src/utils/adu-fingerprint.ts:249-272 | two address-and-value requests that differ only in target or only in value never share a key |
| `Fingerprint.IdentificationKeyIsExact` | src/utils/adu-fingerprint.ts:275-279 | two identification requests share a key if and only if they agree in unit, access code and object |
| `Published.HelloHash` | src/utils/adu-fingerprint.ts:42-223 | the reference hash of "hello" with seed 0 is 0x248BFA47 |
| `CoilPacking.PackCoils` | src/slave/slave.ts:434-477 | whole bytes and remainder of the packing loop give the specified bytes |
| `CoilPacking.UnpackCoils` | src/master/master.ts:811-848 | whole bytes and remainder of the unpacking loop give the specified coils |
| `CoilPacking.PackedBit` | src/master/master.ts:1217-1254 | bit `k` of the packed bytes is coil `k`, and padding bits are 0 |
| `Published.TenCoils` | src/master/master.ts:1195-1254 | writing ten coils from 20 on, as in section 6.11 of the application protocol |
| `CoilPacking.UnpackInvertsPack` | src/master/master.ts:811-848 | unpacking what was packed gives the coils back, for every length |
| `CoilPacking.PackInvertsUnpackIffPadded` | src/slave/slave.ts:893-930 | packing what was unpacked gives the bytes back if and only if the padding is 0 |
| `CoilPacking.WriteCoilsPayload` | src/master/master.ts:1213-1254 | the FC 15 payload, filled in place, is header and packed coils |
| `CoilPacking.HandleFC15` | src/slave/slave.ts:848-930 | the handler's checks and unpacking loop give the specified arguments or a rejection |
| `CoilPacking.WriteCoilsArriveIffLegal` | src/slave/slave.ts:848-930 | FC 15: for every list the slave's handler sees exactly the master's coils if there are 1 to 1968, and rejects the request otherwise |
| `CoilPacking.HandleFC1` | src/slave/slave.ts:387-477 | the handler's checks and packing loop give the specified response or a rejection |
| `CoilPacking.ParseFC1` | src/master/master.ts:146-157 | the master's length and byte-count checks and unpacking loop give the specified coils or a rejection |
| `CoilPacking.ReadCoilsArrive` | src/master/master.ts:785-848 | FC 1 and 2: the slave answers exactly four-byte requests for 1 to 2000 coils, and a master that asked for that quantity gets the slave's coils, missing ones as 0 |
| `CoilPacking.QuantityArrives` | src/master/master.ts:785-792 | the quantity of a read request arrives modulo 65536 |
| `RegisterTransfer.WordsInvertHalves` | src/slave/slave.ts:941-992 | reading back the two bytes of each register, high byte first, gives its low 16 bits |
| `RegisterTransfer.HalvesInvertWords` | src/slave/slave.ts:620-632 | any even number of bytes is what the registers read from it are written as |
| `RegisterTransfer.StoreRegisters` | src/slave/slave.ts:620-632 | the writing loop gives the specified bytes |
| `RegisterTransfer.LoadRegisters` | src/slave/slave.ts:985-990 | the reading loop gives the specified registers |
| `RegisterTransfer.WriteRegistersPayload` | src/master/master.ts:1311-1327 | the FC 16 payload, filled in place, is header and registers |
| `RegisterTransfer.HandleFC16` | src/slave/slave.ts:941-1000 | the checks and the loop of the handler give the specified arguments or a rejection |
| `RegisterTransfer.WriteArrivesIffLegal` | src/slave/slave.ts:941-1000 | FC 16: for every list the slave sees exactly the low 16 bits of what the master wrote if there are 1 to 123, and rejects the request otherwise |
| `RegisterTransfer.ReadWritePayload` | src/master/master.ts:1516-1537 | the FC 23 payload, filled in place, is header and registers |
| `RegisterTransfer.HandleFC23` | src/slave/slave.ts:1110-1165 | the checks and the loop of the handler give the specified arguments or a refusal |
| `RegisterTransfer.ReadWriteArrivesIffLegal` | src/slave/slave.ts:1110-1165 | FC 23: all four arguments arrive, the numbers modulo 65536, exactly when 1 to 125 registers are read and 1 to 121 written |
| `RegisterTransfer.HandleFC3` | src/slave/slave.ts:577-637 | the checks and the loop of the handler give the specified response or a rejection |
| `RegisterTransfer.ParseFC3` | src/master/master.ts:932-966 | the length and byte-count checks of the master and its loop give the specified registers or a rejection |
| `RegisterTransfer.ReadArrivesIffLegal` | src/master/master.ts:932-966 | FC 3 and 4: the slave answers exactly four-byte requests for 1 to 125 registers; a master that asked for that quantity gets the slave's registers, missing ones as 0, and one that asked for another rejects the answer |
| `Calls.RequestIsLegalIffShort` | src/master/master.ts:785-1560 | every call of the interface is a legal RTU frame if and only if its list has at most 1976 coils, 123 registers, or 121 registers for FC 23 |
| `Calls.CallsArrive` | src/master/master.ts:785-1560 | any sequence of calls with lists that short, cut anywhere, reaches an RTU slave whole and in order |
| `Calls.CallWritesWhatIsMeant` | src/slave/slave.ts:1843-1867 | for every call: the slave writes exactly the addresses the call names, or nothing, by the limits of the application protocol, and the lock is held for exactly these |
| `Calls.AnswerIsLegal` | src/slave/slave.ts:387-1200 | every answer of the slave, and every exception, is a legal frame for an RTU master |

## Left out

- `src/plugins`, `examples`, `benchmark`: I/O plumbing and demonstrations; nothing here depends on them.
- Custom function codes: user-supplied predictors, ranges and fingerprints are arbitrary functions.
- Access authorizers: absent; requests and handlers run as when none is set.
- RTU t1.5 gaps and strict mode: only the latest gap is remembered, so there is no stream property to state.
- Event texts, `raw` and `buffer` fields, lazy variants of callbacks: events carry what was decoded or the kind of error.
- Re-entrancy from user callbacks (new data fed from `onFrame`, `clear` from `onFire`, `send` from a request's callback); the synchronous completions the code itself allows for are modelled.
- A write that completes an exchange other than its own before `write` returns is not modelled.
- MasterExchange.ModbusMaster.constructor: requires a transaction id in 1..65535, TCP for `concurrent`, and a strategy other than `deduplicate`; the queue under `deduplicate` is covered in MasterQueue, with the input on which it fails.
- MasterExchange.ModbusMaster.Enqueue: for `fifo` and `drop-stale`; under `deduplicate` the queue it relies on can be lost.
- MasterExchange.ModbusMaster.Send: under `concurrent` requires a free transaction id, because the search loop of the code does not end without one; `SomeTidIsFree` gives one below 65535 waiters.
- MasterExchange.ModbusMaster.OnFrame: the check of unit and function code after settlement is not modelled, nor is the `settled` flag apart from membership in the map of pending exchanges.
- TimerHeap.TimerManager.Add: requires an id not in use in direct mode; the code would orphan the earlier native timer. The master never reuses an id.
- TimerHeap.TimerManager.MigrateAll: one value of the clock stands for the reading the code takes per timer. Due timers run in order of registration there, not of deadline; the code does the same.
- TimerHeap.TimerManager.NothingIsOverdue: about the moment the native timer is set for; how late the platform runs it is not modelled.
- TimerHeap.TimerManager.OnTick: callbacks may add timers with positive delays while the tick runs; removing, clearing, and adding with no delay, with which the loop of the code need not end, are not modelled.
- WriteLock.UnitWriteLock.Execute: whether a handler completes at once is a property of the request, and a handler calls back once. Completions of other units inside a flush, broadcast fan-out and the frame queue of `fifo` are not modelled.
- WriteLock.RunAll: writes wait in order of arrival, but conflicting writes need not start in that order; a new write is checked against writes in flight only and may overtake one that waits.
- WriteRanges.HandlerWrite: lengths and quantities a handler checks are modelled, its use of the model's callbacks is not.
- RtuTiming.NoFrameSpansASilence: stated for t3.5 with an integer clock; how the silence is derived from a baud rate is not modelled.
- DeviceIdentification.Answer: object values are byte strings; encoding text as UTF-8 and back, and identifiers outside 0..255, are not modelled. A handler that reports an error is not modelled.
- Fingerprint.RequestFingerprint: standard function codes only.
- DeviceIdServer.HandleFC43_14: a unit whose callback reports an error is not modelled.
- CoilPacking.HandleFC15: a unit without the callback, and which exception a rejection carries, are not modelled.
- CoilPacking.HandleFC1: a unit without the callback, or whose callback reports an error, is not modelled.
- CoilPacking.ParseFC1: the check of unit and function code, which comes before, is not modelled.
- CoilPacking.Joined: the eight bits do not overlap, so `|` is written as a sum.
- FC 5, 6, 8, 17 and 22 beyond the frames they travel in and the addresses they lock: single-branch facts.
- Calls.Answer: identification responses are in DeviceIdServer. Whether the master accepts an echo is not modelled.
- RegisterTransfer.HandleFC16: a unit without the callback, and which exception a rejection carries, are not modelled; so with HandleFC23 and HandleFC3.
