# Antenna management: verified models of its state machines

The antenna management software is C firmware for a phased-array antenna, with a Python decoder for
its telemetry files. This project models the parts of it that carry state over time, in Dafny, and
proves what they guarantee over all inputs, all runs or all interleavings. Code that works by
changing things step by step is modelled that way: classes with the same fields, arrays, loops and
in-place moves, each method proved against a function of the old state, and the guarantees proved
about those functions and states.

| module | models | main results |
|---|---|---|
| `Injector`, `FirmwareGeometry` | the FPGA firmware injector | the acknowledged packets are the file, for every failure pattern, if and only if the file has at most 2^32 - 2^20 bytes; every run on which nothing goes wrong but two tries of a packet completes; a receiver that places packets by number recovers the file; states, notices and retries of a run |
| `Rs422Protocol`, `Crc16` | RS-422 frames, checksum and CRC | codec round trips, frames to the byte; single-byte detection by the checksum; detection of every change within sixteen bits by the CRC |
| `RBuf`, `PkFinder`, `Rs422Client` | ring buffer, packet finder, receive and transact | the ring is a sequence; exactly the frames of a stream are accepted; what the first read decides |
| `UartFramer` | the UART receive thread's framing loop | chunk independence; well-formed frames in noise all arrive, each at its own callback |
| `TelemetryLog`, `DumpTelemetry` | telemetry queue, writer, rotation and the offline decoder | the files are a suffix of what was written, cut at frame boundaries, lose only what as many rotations as there are backups push out, and decode without error |
| `VersionManager`, `TrialRecord` | trial activation of a software version, and its record file | no crash at any step of any life leaves the system without a version to start, and its record names the version on trial and the one that was running exactly when no text was committed that broke off before the end of the two; exactly which texts and beginnings of texts read back |
| `CellConfig`, `TxGate` | cell and frequency tables, transmit switch and baseband link | the tables refine a dictionary; a sent mark is always backed by a confirmed command, over all interleavings; exactly when a link loss stops transmission, when the flag can be lost, which requests leave the antenna transmitting with nothing sent, and which turn it on again after a loss |
| `Cpri` | messages of the base station over TCP | however the stream is cut, exactly its messages are dispatched |
| `Heartbeat` | the base station's heartbeat and the main loop | a timeout comes neither early nor late, and closes the gate |
| `AlarmManager` | the alarm table | keys stay distinct, the table never fills, trackers equal records, for the TCP alarm exactly while its two calls do not overlap |

`Bytes`, `Counting` and `Options` hold what these share. `dafny verify dfyconfig.toml` verifies the
whole project.

System calls, clocks, the antenna's answers and the order in which threads run are parameters: the
results hold for all of them. Where code gives up a lock in the middle of an operation, the operation
is cut there into two methods, or into steps of a transition system, and anything may happen between.

## Where the code and its documentation differ

The models follow the code.

- A firmware file above 2^32 - 2^20 bytes can be reported as transferred without having been: the 32-bit
  segment count wraps to zero, or the size itself wraps (`Injector.TransferRebuildsFile`, `FirmwareGeometry.AnnouncedGeometry`).
- `rs422_seq_counter_rollback` does not undo an increment that wrapped
  (`Rs422Protocol.RollbackUndoesUnlessWrapped`).
- A reply that arrives in two reads is never received (`Rs422Client.FirstReadDecides`), and a frame with
  a zero length field is delivered but does not decode (`PkFinder.DeliveredFramesDecode`).
- The comment at s_band_antenna_mgmt/src/cell_config.c:318-321 says a closed gate keeps transmission off
  after a link loss. At most one ON still follows a loss (`TxGate.AtMostOneOn`), and a loss is sure to stop
  transmission exactly when no ON is under way and, where the antenna transmits, `g_tx_on` says so or an
  OFF is already coming (`TxGate.LossStopsExactly`). `g_tx_on` can be lost, so that no
  loss stops anything until the next `update_tx_control` with the link up (`TxGate.FlagCanBeLost`);
  `TxGate.AgreesExactly` says from which states flag and antenna can part.
- Transmission may stay on with no sent frequency. Over a run whose transmit commands go out that
  happens exactly when a request stores as unsent the only beam that was sent: in a mode that takes no
  band commands, or with new parameters, even if the band command then fails or its wait times out
  (`CellConfig.OnlyDemotionStrands`); a successful wait repairs it (`CellConfig.WaitRestores`).
- The edge tracker of the TCP alarm and its record can part: both calls release the lock between the two,
  and the reconnecting thread clears before it joins the receive thread that raises. The alarm then stays
  up on a live connection (`AlarmManager.ClearOvertakes`); the two are sure to agree exactly as long as a
  raise and a clear do not overlap (`AlarmManager.SettledAlong`).
- `trial_write` is described as leaving the old record or the new one. It does not look at the results of
  its writes, so the beginning of a record can be committed (`VersionManager.ActivationSafe`,
  `VersionManager.Manager.Lifetime`), even one that falls back to another version
  (`VersionManager.TornFallback`). Arming a second trial leaves the running one unprotected until the
  link has moved (`VersionManager.ProtectionLost`).
- A failed replacement of the current link removes the trial record even when the record was about
  another activation (`VersionManager.Manager.SwitchToVersion`).

## Model

| member | source | states |
|---|---|---|
| `Injector.Task.Inject` | s_band_antenna_mgmt/src/fpga_firmware_injector.c:253-331 | a whole run, from the start on: with enough turns on which nothing goes wrong, except that a packet may need up to three tries, it completes, for every file, with the end accepted, the reconfiguration confirmed and the first (size mod 2^32) bytes acknowledged, or none where the segment count wraps; and on any turns, once the data phase is over, the acknowledged data is the file if and only if the file has at most 2^32 - 2^20 bytes, no packet having been tried more than three times |
| `Injector.TransferRebuildsFile` | s_band_antenna_mgmt/src/fpga_firmware_injector.c:603-795 | the same for any log a run may have earned: above 2^32 - 2^20 bytes the 32-bit segment count or size wraps and what was acknowledged is not the file |
| `Injector.TransferredData` | s_band_antenna_mgmt/src/fpga_firmware_injector.c:355-358 | the packets of a complete transfer carry the file exactly up to that size |
| `Injector.ReceiverHoldsFile` | s_band_antenna_mgmt/src/fpga_firmware_injector.c:603-795 | a receiver that stores by segment and packet number, and kept at least what it acknowledged of what was sent, holds exactly the file |
| `Injector.AckedDataOfTransfer` | s_band_antenna_mgmt/src/fpga_firmware_injector.c:603-795 | past the data phase the acknowledged packets are those of the transfer, once each and in order |
| `Injector.Task.Start` | s_band_antenna_mgmt/src/fpga_firmware_injector.c:42-83 | refused without any change while a run is in progress; otherwise a fresh run, given back if the thread cannot be created |
| `Injector.Task.RunThread` | s_band_antenna_mgmt/src/fpga_firmware_injector.c:253-331 | one PRE notice first, one POST notice last, file closed at exit; in between exactly the turns given, each doing what StateTurn says, until an abort, COMPLETED or FAILED; the state left behind was earned: COMPLETED only after ready, every packet, end and reconfiguration, in that order |
| `Injector.Task.HandleState` | s_band_antenna_mgmt/src/fpga_firmware_injector.c:253-311 | the next state, position, tries and log of each of the six states, in terms of what the turn brought |
| `Injector.GoodRunCompletes` | s_band_antenna_mgmt/src/fpga_firmware_injector.c:253-331 | a run of more good turns than TurnsNeeded ends, and not by failing: at most three turns a packet, one a segment and six more |
| `Injector.AnswersByCode` | s_band_antenna_mgmt/src/fpga_firmware_injector.c:398-962 | what each answer code in front of and behind the data phase leads to: 00 goes on, 11 keeps polling, anything else fails, and a refused end is answered by an abort |
| `Injector.RunAnswered` | s_band_antenna_mgmt/src/fpga_firmware_injector.c:253-311 | every state a run has behind it was left on a turn that brought the answer for it |
| `Injector.AckedByAnswer` | s_band_antenna_mgmt/src/fpga_firmware_injector.c:603-795 | every packet on record as acknowledged was sent on a turn whose answer was OK |
| `Injector.UnreadableFails` | s_band_antenna_mgmt/src/fpga_firmware_injector.c:626-676 | a packet that cannot be read, or a place in the file that cannot be reached, fails the run and nothing is sent |
| `Injector.GivesUp` | s_band_antenna_mgmt/src/fpga_firmware_injector.c:648-768 | a transfer whose file can be read is given up only after three tries of a packet in three turns running, none of them acknowledged, and the receiver is told |
| `Injector.Task.HandleParsingMetadata` | s_band_antenna_mgmt/src/fpga_firmware_injector.c:334-395 | goes on if and only if every check and read succeeds, with the segment count of the file and the CRC of its bytes |
| `Injector.Task.HandleTransferStart` | s_band_antenna_mgmt/src/fpga_firmware_injector.c:398-530 | the data phase starts, at segment 0 and packet 0, if and only if some poll is answered READY with nothing but preparing before it, and the file reopens; while all polls say preparing the wait goes on; the announcement goes out once per poll |
| `Injector.Task.AwaitReady` | s_band_antenna_mgmt/src/fpga_firmware_injector.c:441-504 | the polling loop: ready if and only if a poll says READY after nothing but preparing, waiting if and only if all do, one announcement per poll |
| `Injector.Task.HandleTransferData` | s_band_antenna_mgmt/src/fpga_firmware_injector.c:603-795 | what each outcome of a turn does to position, tries, state and record; the position invariant is kept and (segments left, packets left, tries left) falls lexicographically |
| `Injector.Task.DataPhaseEnds` | s_band_antenna_mgmt/src/fpga_firmware_injector.c:603-795 | whatever the line does, the data phase ends after finitely many turns |
| `Injector.Task.EnterSegment` | s_band_antenna_mgmt/src/fpga_firmware_injector.c:612-636 | after the seek at a first packet the next sequential read starts at the packet, in every segment |
| `Injector.Task.ReadPacket` | s_band_antenna_mgmt/src/fpga_firmware_injector.c:648-676 | sequential position and retry seek alike deliver exactly the packet of the file at the current position |
| `Injector.Task.Exchange` | s_band_antenna_mgmt/src/fpga_firmware_injector.c:678-768 | the packet counts as acknowledged and the position moves if and only if the answer is OK; anything else costs one of three tries |
| `Injector.Task.HandleTransferEnd` | s_band_antenna_mgmt/src/fpga_firmware_injector.c:798-863 | on to reconfiguration if and only if the answer is OK; a refusal sends an abort, silence does not |
| `Injector.Task.HandleReconfigStart` | s_band_antenna_mgmt/src/fpga_firmware_injector.c:866-893 | polling follows a successful send, FAILED an unsuccessful one, and nothing is recorded |
| `Injector.Task.HandleReconfigPolling` | s_band_antenna_mgmt/src/fpga_firmware_injector.c:896-962 | completion if and only if the answer is SUCCESS in time; unreadable answers and IN_PROGRESS keep polling, all else fails |
| `FirmwareGeometry.SegmentCountExact` | s_band_antenna_mgmt/src/fpga_firmware_injector.c:355-356 | the uint32_t rounding is the exact number of segments up to 2^32 - 2^20 bytes and 0 above; it fits twelve bits |
| `FirmwareGeometry.PacketsCarryPrefix` | s_band_antenna_mgmt/src/fpga_firmware_injector.c:612-676 | the packets before a position carry exactly the bytes before it, by induction over segments and packets |
| `FirmwareGeometry.AllPacketsCarryFile` | s_band_antenna_mgmt/src/fpga_firmware_injector.c:603-676 | all packets together carry the file |
| `FirmwareGeometry.PacketLengths` | s_band_antenna_mgmt/src/fpga_firmware_injector.c:612-676 | packet i of segment s is the file from s * 1048576 + i * 1000 on, 1000 bytes or what is left of the segment |
| `FirmwareGeometry.AnnouncedGeometry` | s_band_antenna_mgmt/src/fpga_firmware_injector.c:403-425 | the announced total equals the file size if and only if 1 <= n <= 2^32 - 2^20; one segment is announced without flags by its own length, several with two ones, their number and 2^20 bytes each, and the last length matches the last segment sent |
| `FirmwareGeometry.GroupFlags` | s_band_antenna_mgmt/src/rs422_protocol.c:326-343 | each segment has exactly one first and one last flag, or a single lone flag, and packet indices fit fourteen bits |
| `FirmwareGeometry.StoreAgrees` | s_band_antenna_mgmt/src/rs422_protocol.c:326-358 | storing genuine packets at segment * 2^20 + index * 1000 never puts a wrong byte anywhere |
| `FirmwareGeometry.ReceiverRecoversFile` | s_band_antenna_mgmt/src/rs422_protocol.c:326-358 | any selection of genuine packets, in any order with repetitions, recovers the file as long as each packet was stored once |
| `FirmwareGeometry.GenuinePacketOnWire` | s_band_antenna_mgmt/src/rs422_protocol.c:299-367 | the frame built for a packet reads back as that packet with its flag |
| `Rs422Protocol.ComputeChecksum` | s_band_antenna_mgmt/src/rs422_protocol.c:41-52 | the 32-bit accumulator loop equals the sixteen-bit complement of the byte sum, for any length |
| `Rs422Protocol.ChecksumDetectsOneByte` | s_band_antenna_mgmt/src/rs422_protocol.c:41-52 | two inputs that differ in one byte never share a checksum |
| `Rs422Protocol.DecodeFrame` | s_band_antenna_mgmt/src/rs422_protocol.c:135-217 | in-place decoding returns exactly the fields or the error class of the frame |
| `Rs422Protocol.RollbackUndoesUnlessWrapped` | s_band_antenna_mgmt/src/rs422_protocol.c:26-31 | rollback undoes an increment if and only if the counter was not 65535 |
| `Rs422Protocol.Encoder.EncodeFrame` | s_band_antenna_mgmt/src/rs422_protocol.c:74-133 | the buffer holds the sealed frame of apid, command, payload and counter; a payload or buffer of the wrong size changes nothing, the counter included |
| `Rs422Protocol.BuildFileData` | s_band_antenna_mgmt/src/rs422_protocol.c:299-367 | the buffer holds the file-data frame of segment, index, total and data, or nothing changes |
| `Rs422Protocol.DecodeSealed` | s_band_antenna_mgmt/src/rs422_protocol.c:135-217 | any sealed body decodes to its packet id, word and payload |
| `Rs422Protocol.CodecRoundTrip` | s_band_antenna_mgmt/src/rs422_protocol.c:74-217 | an encoded command with the acknowledgement sync word decodes to the low eleven apid bits, the command and the payload; with its own sync word it is refused |
| `Rs422Protocol.FilePacketRoundTrip` | s_band_antenna_mgmt/src/rs422_protocol.c:326-358 | segment, flag, index and data of a file packet read back from the frame |
| `Rs422Protocol.ChecksumCompletes` | s_band_antenna_mgmt/src/rs422_protocol.c:41-52 | the byte sum and the checksum together make sixteen ones |
| `Rs422Protocol.ChecksumTest` | s_band_antenna_mgmt/src/rs422_protocol.c:41-52 | and no other number does |
| `Rs422Protocol.CommandOnWire` | s_band_antenna_mgmt/src/rs422_protocol.c:74-133 | a command on the wire, field by field at its offset: EB 90, APID, two ones and fourteen bits of counter, length, code, payload, sum |
| `Rs422Protocol.FileDataOnWire` | s_band_antenna_mgmt/src/rs422_protocol.c:299-367 | a file-data packet on the wire, field by field at its offset |
| `Rs422Protocol.UploadNotices` | s_band_antenna_mgmt/include/rs422_protocol.h:37-54 | the two upload notices at counter 0 to the byte, with the sums FD 67 and FD 66 that the header file documents |
| `Rs422Protocol.DecodesExactly` | s_band_antenna_mgmt/src/rs422_protocol.c:135-217 | exactly which byte strings the decoder accepts, and which bytes it returns |
| `Crc16.ComputeCrc16` | s_band_antenna_mgmt/src/rs422_protocol.c:55-72 | the byte loop computes the CRC of the data |
| `Crc16.AbsorbAppend` | s_band_antenna_mgmt/src/rs422_protocol.c:55-72 | the CRC composes over concatenation |
| `Crc16.StepsLinear` | s_band_antenna_mgmt/src/rs422_protocol.c:60-69 | shifting is linear over exclusive or |
| `Crc16.StepsInjective` | s_band_antenna_mgmt/src/rs422_protocol.c:60-69 | shifting never maps two registers to one |
| `Crc16.SerialIsSteps` | s_band_antenna_mgmt/src/rs422_protocol.c:58-69 | up to sixteen message bits may be added to the register first and shifted out afterwards |
| `Crc16.AbsorbIsSerial` | s_band_antenna_mgmt/src/rs422_protocol.c:55-72 | the byte-wise loop refines the bit-serial CRC |
| `Crc16.BurstUnique` | s_band_antenna_mgmt/src/rs422_protocol.c:55-72 | two bit messages equal outside a window of sixteen bits and equal in CRC are equal |
| `Crc16.CrcDetectsBurst` | s_band_antenna_mgmt/src/rs422_protocol.c:55-72 | two messages that differ only within any sixteen consecutive bits, byte-aligned or not, have different CRC values |
| `Crc16.CrcDetectsTwoBytes` | s_band_antenna_mgmt/src/rs422_protocol.c:55-72 | two messages that differ only in two adjacent bytes have different CRC values |
| `Crc16.KnownParameters` | s_band_antenna_mgmt/src/rs422_protocol.c:55-58 | the register starts at FFFF and the polynomial is 1021 |
| `Crc16.GeneratorByte` | s_band_antenna_mgmt/src/rs422_protocol.c:60-69 | from a zero register the byte 01 leaves the polynomial: the bits go in most significant first |
| `RBuf.Ring.Put` | s_band_antenna_mgmt/src/rBuf.c:42-98 | appends the longest prefix that fits a capacity of len - 1, in all three wrap-around cases |
| `RBuf.Ring.Get` | s_band_antenna_mgmt/src/rBuf.c:100-137 | copies out a prefix and removes nothing |
| `RBuf.Ring.Remove` | s_band_antenna_mgmt/src/rBuf.c:139-165 | drops a prefix |
| `RBuf.Ring.NBytes` | s_band_antenna_mgmt/src/rBuf.c:167-176 | the length of the sequence |
| `RBuf.Ring.IsFull` | s_band_antenna_mgmt/src/rBuf.c:178-187 | holds exactly at len - 1 bytes |
| `PkFinder.PkFinderFind` | s_band_antenna_mgmt/src/pkfinder.c:42-140 | the search over the buffer finds the first head and its announced length, keeping the caller's stale length when it has none |
| `PkFinder.AcceptedFrame` | s_band_antenna_mgmt/src/pkfinder.c:142-204 | on every input, an accepted packet starts with the head, has its announced length and passed the callback |
| `PkFinder.FindFrame` | s_band_antenna_mgmt/src/pkfinder.c:42-140 | a complete frame behind noise without 0x1A is the next candidate, whatever follows it |
| `PkFinder.FindTail` | s_band_antenna_mgmt/src/pkfinder.c:142-204 | without a complete frame the pass stops in front of the unfinished one, at most two bytes of noise before it |
| `PkFinder.ParseStream` | s_band_antenna_mgmt/src/pkfinder.c:142-204 | on noise, complete frames and a proper prefix of one more, exactly the frames are checked and accepted in order and the prefix stays, for any stale position and any stale length up to the buffer size |
| `PkFinder.ZeroLengthFrame` | s_band_antenna_mgmt/src/uart_rs422_client.c:43-129 | frames with a zero length field that are delivered and do not decode, with any other bytes |
| `PkFinder.DeliveredFramesDecode` | s_band_antenna_mgmt/src/uart_rs422_client.c:43-129 | a delivered frame decodes if and only if its length field is at least 1 |
| `PkFinder.ReplyOnWire` | s_band_antenna_mgmt/src/uart_rs422_client.c:43-129 | exactly which byte strings are frames for finder and callback together |
| `PkFinder.RefusedCostsHead` | s_band_antenna_mgmt/src/pkfinder.c:163-201 | a candidate the callback refuses costs its two head bytes; the search goes on behind them |
| `PkFinder.UnfinishedKept` | s_band_antenna_mgmt/src/pkfinder.c:163-201 | an unfinished frame is kept, one announcing more than the buffer holds is passed over |
| `Rs422Client.RecvContext.CheckAndProcess` | s_band_antenna_mgmt/src/uart_rs422_client.c:43-86 | accepts exactly frames of 10 to 2048 bytes with a right checksum, and keeps the accepted one |
| `Rs422Client.RecvContext.SearchTurn` | s_band_antenna_mgmt/src/pkfinder.c:164-201 | one find-and-check turn, with the resume position of each outcome |
| `Rs422Client.RecvContext.Scan` | s_band_antenna_mgmt/src/pkfinder.c:163-201 | the in-place loop checks exactly the candidates of the pass, in order; the received frame is the last accepted |
| `Rs422Client.RecvContext.ParseRing` | s_band_antenna_mgmt/src/pkfinder.c:142-204 | the ring loses exactly what the pass consumed |
| `Rs422Client.RecvContext.Refill` | s_band_antenna_mgmt/src/uart_rs422_client.c:382-394 | a read is appended as far as it fits, and a full ring is emptied for it |
| `Rs422Client.RefillByRoom` | s_band_antenna_mgmt/src/uart_rs422_client.c:382-394 | what fits is appended; a full ring is emptied first |
| `Rs422Client.RecvContext.RecvFrame` | s_band_antenna_mgmt/src/uart_rs422_client.c:309-432 | the result is decided by the first non-empty read |
| `Rs422Client.RecvContext.SendAndWait` | s_band_antenna_mgmt/src/uart_rs422_client.c:457-516 | the answer depends only on bytes read after the command went out, whatever the ring held before; a reply handed over is the frame received and has the command code asked for |
| `Rs422Client.WaitingChangesNothing` | s_band_antenna_mgmt/src/uart_rs422_client.c:361-382 | idle polls and empty reads do not change a transaction |
| `Rs422Client.FirstReadDecides` | s_band_antenna_mgmt/src/uart_rs422_client.c:309-432 | with a complete frame in the first read the last one is the reply; with none the call fails at once, so a reply split over two reads is never received |
| `Rs422Client.ReplyByCode` | s_band_antenna_mgmt/src/uart_rs422_client.c:457-516 | a reply that fits is handed over when no command code was asked for, or its own, and refused otherwise |
| `Rs422Client.ReceivedFramesAreSound` | s_band_antenna_mgmt/src/uart_rs422_client.c:309-432 | every successful receive returns a well-formed, checked frame that fits the caller's buffer |
| `UartFramer.Framer.ReadLength` | s_band_antenna_mgmt/src/uart_client.c:228-268 | both length rules and the bounds check |
| `UartFramer.Framer.TakeFrame` | s_band_antenna_mgmt/src/uart_client.c:223-323 | what becomes of a header: wait, give up one byte, or deliver to the callback of its kind |
| `UartFramer.Framer.FrameTurn` | s_band_antenna_mgmt/src/uart_client.c:174-324 | one turn of the loop |
| `UartFramer.Framer.ScanBuffer` | s_band_antenna_mgmt/src/uart_client.c:172-324 | all turns over the buffer deliver the frames of one pass and name the first byte to keep |
| `UartFramer.Framer.Receive` | s_band_antenna_mgmt/src/uart_client.c:150-347 | one read: overflow costs the bytes held and only these, then append, frame and shift |
| `UartFramer.HeaderResumes` | s_band_antenna_mgmt/src/uart_client.c:201-213 | resuming at a kept half header loses no header |
| `UartFramer.TurnStable` | s_band_antenna_mgmt/src/uart_client.c:174-324 | a turn that did not wait would do the same on any extension of the buffer |
| `UartFramer.ScanStable` | s_band_antenna_mgmt/src/uart_client.c:174-324 | scanning a prefix and going on equals scanning the whole |
| `UartFramer.ScanShift` | s_band_antenna_mgmt/src/uart_client.c:326-347 | moving the buffer down does not change what is found |
| `UartFramer.ChunkIndependence` | s_band_antenna_mgmt/src/uart_client.c:150-347 | for every stream and every split that fits, deliveries and leftover equal those of one pass over the whole stream |
| `UartFramer.FramesInNoise` | s_band_antenna_mgmt/src/uart_client.c:174-324 | all of them are, once and in order, and nothing is left |
| `UartFramer.NoisyLineDelivered` | s_band_antenna_mgmt/src/uart_client.c:150-347 | the same however the line is cut into reads |
| `UartFramer.HeldBelowFrame` | s_band_antenna_mgmt/src/uart_client.c:150-347 | less than the longest frame is ever held back |
| `UartFramer.ReadsFit` | s_band_antenna_mgmt/src/uart_client.c:151-170 | reads of at most 1024 bytes on a line of frames of at most 1024 bytes never overflow the buffer |
| `UartFramer.EveryFrameArrives` | s_band_antenna_mgmt/src/uart_client.c:150-347 | so on such a line every frame arrives, for every split |
| `UartFramer.DeliveredAreFrames` | s_band_antenna_mgmt/src/uart_client.c:174-324 | on any input, only well-formed frames are delivered |
| `UartFramer.FramesOnWire` | s_band_antenna_mgmt/src/uart_client.c:223-283 | a frame is EB 93 with source and length of the whitelist, or EB 90 with a big-endian length up to 2042, each closed by 55 55 |
| `UartFramer.DeliveredToItsCallback` | s_band_antenna_mgmt/src/uart_client.c:285-323 | on any input: a delivery goes to the telemetry callback if and only if its second byte is 93, and to the status callback if and only if that byte is 90 and the frame has 133 bytes |
| `UartFramer.CallbacksGetTheirs` | s_band_antenna_mgmt/src/uart_client.c:150-347 | on a line of frames and reads of at most 1024 bytes: telemetry callback, status callback and the third one get exactly the telemetry frames, the 133-byte EB 90 frames and all others, each in order |
| `UartFramer.GarbageSkipped` | s_band_antenna_mgmt/src/uart_client.c:201-283 | garbage full of false headers costs nothing behind it |
| `DumpTelemetry.Parse` | tools/dump_telemetry.py:37-74 | the two lists are those of the turn-by-turn decoding of the whole file |
| `DumpTelemetry.FileDecodes` | tools/dump_telemetry.py:37-74 | a file of whole frames decodes to exactly its frames, with no error |
| `DumpTelemetry.FramesAreThere` | tools/dump_telemetry.py:37-74 | in any file, every frame returned is there at its offset, with header and tail, and behind the one before it |
| `DumpTelemetry.FaultCostsByte` | tools/dump_telemetry.py:44-66 | a byte at which no frame starts, and a frame with another tail, cost one byte and are reported |
| `DumpTelemetry.EndReported` | tools/dump_telemetry.py:44-61 | what is cut off at the end of a file is reported by kind and ends the decoding |
| `DumpTelemetry.FrameReturned` | tools/dump_telemetry.py:67-74 | a frame of an unknown source or wrong length is returned with its remark |
| `TelemetryLog.SlotsPut` | s_band_antenna_mgmt/src/telemetry_log.c:314-317 | writing at the tail appends to the queue, across the wrap |
| `TelemetryLog.SlotsTake` | s_band_antenna_mgmt/src/telemetry_log.c:153-155 | reading at the head removes the oldest, across the wrap |
| `TelemetryLog.Log.OnFrame` | s_band_antenna_mgmt/src/telemetry_log.c:292-321 | a frame is accepted last in order, or counted as dropped when 32 are queued, or ignored |
| `TelemetryLog.Log.Take` | s_band_antenna_mgmt/src/telemetry_log.c:143-157 | the oldest frame goes to the writer; the writer leaves only with everything handled |
| `TelemetryLog.Log.WriteOut` | s_band_antenna_mgmt/src/telemetry_log.c:167-195 | the frame in hand is handled, and written unless both attempts fail |
| `TelemetryLog.Log.ToFile` | s_band_antenna_mgmt/src/telemetry_log.c:168-194 | exactly one file is closed when the frame would reach the limit, and exactly one more, with a retry, after a failed write; the history stays a suffix of what was written |
| `TelemetryLog.Log.Rotate` | s_band_antenna_mgmt/src/telemetry_log.c:87-131 | the current file becomes backup 1, every other backup moves up by one unchanged, and only the one at the depth goes; the files still form a suffix of what was written, cut at frame boundaries |
| `TelemetryLog.Log.ShiftBackups` | s_band_antenna_mgmt/src/telemetry_log.c:104-116 | unlink and renames from the oldest down move every backup one number up |
| `TelemetryLog.Log.Drain` | s_band_antenna_mgmt/src/telemetry_log.c:134-200 | after a stop every accepted frame is handled, and written when each write or its retry succeeds |
| `TelemetryLog.Log.Snapshot` | s_band_antenna_mgmt/src/telemetry_log.c:323-388 | the copy is the current file: whole frames, the latest part of what was written |
| `TelemetryLog.Log.Conservation` | s_band_antenna_mgmt/src/telemetry_log.c:134-321 | offered = handled + in hand + queued + dropped, and nothing is reordered |
| `TelemetryLog.Log.FilesDecode` | tools/dump_telemetry.py:37-74 | the offline decoder returns exactly each file's frames without error, and the files from the oldest backup on are a suffix of what was written |
| `TelemetryLog.Log.OnlyPushedOutLost` | s_band_antenna_mgmt/src/telemetry_log.c:87-194 | over any run the backups are the files closed last, by number, and with the current file they hold every frame written but those of files pushed out by as many later rotations as there are backups: none before that |
| `TelemetryLog.RotateHistory` | s_band_antenna_mgmt/src/telemetry_log.c:87-131 | a rotation keeps the suffix property |
| `TelemetryLog.FramerFeedsTelemetry` | s_band_antenna_mgmt/src/uart_client.c:231-296 | every telemetry frame the framer delivers is one the log takes and the decoder accepts |
| `VersionManager.Manager.TrialWrite` | s_band_antenna_mgmt/src/version_manager.c:1227-1247 | two steps, the temporary file and its rename; what is committed is as much of the text as reached the file, for any number of bytes |
| `VersionManager.Manager.ReplaceCurrentLink` | s_band_antenna_mgmt/src/version_manager.c:1258-1274 | the steps of the link: it is never missing |
| `VersionManager.Manager.SwitchToVersion` | s_band_antenna_mgmt/src/version_manager.c:1279-1382 | the steps and the answer of an activation; a successful trial of another version than the one running is guarded when its record was written, one by hand never writes a record and leaves none when the old one can be removed, and one of the running version leaves the record alone; a failed link replacement costs the record, whichever version it was about |
| `VersionManager.ActivationLeaves` | s_band_antenna_mgmt/src/version_manager.c:1339-1371 | the same of the steps: what a successful activation leaves, by who asked for it |
| `VersionManager.OnlyTrialsWrite` | s_band_antenna_mgmt/src/version_manager.c:1339-1371 | at every step of any other activation the record is the old one or gone |
| `VersionManager.LinkNeverMissing` | s_band_antenna_mgmt/src/version_manager.c:1258-1274 | at every step of an activation the link names the old version or the new one, and there is a version to start |
| `VersionManager.ActivationSafe` | s_band_antenna_mgmt/src/version_manager.c:1339-1376 | safe: a version can be started, and a record reads back as the version of the last trial armed and the one running then. From a safe disk every step is safe if and only if no text is committed that was cut off before the end of the previous version or broken by a line break in a name; else the commit is the first unsafe step |
| `VersionManager.CrashLeaves` | s_band_antenna_mgmt/src/version_manager.c:1339-1376 | after a crash anywhere in an activation that commits, and the next start: the new version, with a record (new, old, 0) if and only if the text was kept; or, for a kept text, the old version with the record it had before the commit and none after it |
| `VersionManager.NewVersionGuarded` | s_band_antenna_mgmt/src/version_manager.c:1339-1376 | every step of a committing activation at which the new version is current has the record (new, old, 0), if and only if the text was kept or the link never moves |
| `VersionManager.TornFallback` | s_band_antenna_mgmt/src/version_manager.c:1227-1247 | a text cut k characters into the previous version is committed as a record that falls back to those k characters, whatever version they spell |
| `VersionManager.UptimeSafe` | s_band_antenna_mgmt/src/version_manager.c:1879-1907 | rewriting the record of the running trial keeps a safe disk safe at every step if and only if the text reaches the end of the previous version |
| `VersionManager.ProtectionLost` | s_band_antenna_mgmt/src/version_manager.c:1339-1376 | a crash between the commit of a kept text and the link takes the protection of a trial in progress |
| `VersionManager.Manager.Init` | s_band_antenna_mgmt/src/version_manager.c:1429-1443 | drops exactly a record that names a version other than the current one, if the removal succeeds |
| `VersionManager.Manager.OnChannelEstablished` | s_band_antenna_mgmt/src/version_manager.c:1851-1877 | the first channel of a process ends any trial if the removal succeeds, later ones do nothing |
| `VersionManager.Manager.OnUptime` | s_band_antenna_mgmt/src/version_manager.c:1879-1907 | after the stable time, once per process and never after a confirmation, a record of the version that is running keeps its versions and loses its failed starts, if the text is written that far; any other disk stays as it is |
| `VersionManager.Manager.Live` | s_band_antenna_mgmt/src/version_manager.c:1279-1907 | a request, a crash after any of its steps, or a restart: what it adds to the life of the device |
| `VersionManager.Manager.Lifetime` | s_band_antenna_mgmt/src/version_manager.c:1279-1907 | over any life of requests, crashes at any step and restarts there is always a version to start; and every state is safe if and only if no request lived to commit a text cut off before the end of the two versions or broken by their names |
| `TrialRecord.Read` | s_band_antenna_mgmt/src/version_manager.c:1194-1223 | the fields are those of reading line by line through the 640-byte buffer, a NUL ending its line and numbers read as strtoul reads them |
| `TrialRecord.RecordRoundTrip` | s_band_antenna_mgmt/src/version_manager.c:1194-1247 | a written record reads back as it was if and only if none of its strings holds a line break (or a NUL) |
| `TrialRecord.RecordText` | s_band_antenna_mgmt/src/version_manager.c:1236-1237 | the text of the record, key by key |
| `TrialRecord.CutRecord` | s_band_antenna_mgmt/src/version_manager.c:1194-1247 | of a written record of which only n bytes reached the file, the two versions read back as they were if and only if neither holds a line break and n is at or behind the end of the previous one; and no failed starts read back as none |
| `TrialRecord.CutInPrevious` | s_band_antenna_mgmt/src/version_manager.c:1194-1247 | cut k characters into the previous version, the rest reads back as the new version and those k characters |
| `TrialRecord.CutRead` | s_band_antenna_mgmt/src/version_manager.c:1201-1220 | a last line that breaks off in its key sets nothing, and in its value sets what is there of it |
| `TrialRecord.DigitsRead` | s_band_antenna_mgmt/src/version_manager.c:1215-1216 | strtoul of a number as printf wrote it is the number |
| `TrialRecord.ReadFits` | s_band_antenna_mgmt/src/version_manager.c:1194-1223 | whatever a file holds, what is read fits the buffers |
| `TrialRecord.LineRead` | s_band_antenna_mgmt/src/version_manager.c:1201-1220 | one key=value line sets exactly its field, whatever follows it |
| `TrialRecord.ReadIsClean` | s_band_antenna_mgmt/src/version_manager.c:1201-1220 | whatever a file holds, no line break or NUL ever reaches a field |
| `TxGate.Gate.ApplyTxControl` | s_band_antenna_mgmt/src/cell_config.c:290-305 | the flag follows a command only when it went out |
| `TxGate.Gate.UpdateTxControl` | s_band_antenna_mgmt/src/cell_config.c:310-334 | with the link up exactly one command, ON if and only if a sent frequency exists; with the link down none; the recorded state stays that of the antenna |
| `TxGate.Gate.NotifyBbuLink` | s_band_antenna_mgmt/src/cell_config.c:346-381 | a loss sends OFF exactly when transmission was on; and while the link is down and transmission on, every OFF since the loss has failed |
| `TxGate.AtMostOneOn` | s_band_antenna_mgmt/src/cell_config.c:310-334 | split between link read and send, at most one ON follows a loss before the next link-up, over all interleavings |
| `TxGate.StopsExactly` | s_band_antenna_mgmt/src/cell_config.c:290-381 | from any state with the link down and threads anywhere inside: every run whose sends succeed ends with transmission off if and only if no ON is under way, what transmits has an OFF coming, and a set flag has someone to clear it |
| `TxGate.LossStopsExactly` | s_band_antenna_mgmt/src/cell_config.c:290-381 | so a loss stops transmission for certain if and only if no ON is under way and, where the antenna transmits, the flag says so or some OFF is on its way |
| `TxGate.AgreesExactly` | s_band_antenna_mgmt/src/cell_config.c:290-381 | from any state with the link down: g_tx_on and the antenna agree at the end of every run if and only if no ON under way can meet a notifier and, with none under way, what transmits has an OFF coming (or all is at rest and they agree) |
| `TxGate.LossFromConsistent` | s_band_antenna_mgmt/src/cell_config.c:290-381 | where nothing is lost yet: a loss stops transmission unless an ON is under way, and can part flag and antenna if and only if that ON repeats one already recorded |
| `TxGate.RacePartsSoon` | s_band_antenna_mgmt/src/cell_config.c:290-381 | an ON under way and a notifier inside, or about to enter: some order of the two parts them |
| `TxGate.FlagCanBeLost` | s_band_antenna_mgmt/src/cell_config.c:290-374 | a run after which the antenna transmits with g_tx_on false; whatever the link then does, no loss stops it before update_tx_control is reached with the link up |
| `TxGate.OffUntilUpdated` | s_band_antenna_mgmt/src/cell_config.c:310-374 | at rest with g_tx_on false, no reports of the link, in any order and number, do anything to antenna or flag |
| `TxGate.UpdateAlone` | s_band_antenna_mgmt/src/cell_config.c:290-332 | undisturbed, the split update does what the atomic one does: with the link up and the command out, flag and antenna are as the tables say |
| `TxGate.ReportAlone` | s_band_antenna_mgmt/src/cell_config.c:346-374 | undisturbed, the split report does what the atomic one does: a loss sends OFF exactly when the flag is set |
| `TxGate.Drain` | s_band_antenna_mgmt/src/cell_config.c:346-381 | the notifiers in flight can always finish, with this effect on antenna and flag |
| `Counting.CountBounds` | s_band_antenna_mgmt/src/cell_config.c:835-848 | the count is the capacity exactly when no slot is free and 0 exactly when all are |
| `CellConfig.SetView` | s_band_antenna_mgmt/src/cell_config.c:471-573 | and changes what is known about that cell only |
| `CellConfig.NoCellNoBeams` | s_band_antenna_mgmt/src/cell_config.c:471-573 | a cell that is not there has no frequencies, and each record names its own cell and beam |
| `CellConfig.WaitForModeCycle` | s_band_antenna_mgmt/src/cell_config.c:588-663 | fails with a timeout if and only if the antenna left business or spectrum mode within fifty polls and was not seen back within the rest of them |
| `CellConfig.CellManager.HasAnyFreq` | s_band_antenna_mgmt/src/cell_config.c:246-260 | true if and only if some beam of some known cell is marked sent |
| `CellConfig.CellManager.UpdateTxControl` | s_band_antenna_mgmt/src/cell_config.c:310-334 | one command that says whether a sent beam exists, when the link is up; then transmission matches the tables if it went out |
| `CellConfig.CellManager.EstablishCell` | s_band_antenna_mgmt/src/cell_config.c:492-528 | a new cell with no frequencies, whatever its slot held; an existing one only with the same power and type |
| `CellConfig.CellManager.ReconfigCell` | s_band_antenna_mgmt/src/cell_config.c:530-541 | only the power of a known cell changes |
| `CellConfig.CellManager.DeleteCell` | s_band_antenna_mgmt/src/cell_config.c:543-562 | and transmission is looked at again exactly when there was a cell |
| `CellConfig.CellManager.ApplyCell` | s_band_antenna_mgmt/src/cell_config.c:471-573 | the answer and the new tables of every cell request, as the base station sees them, with the table invariant kept |
| `CellConfig.CellManager.StoreFreq` | s_band_antenna_mgmt/src/cell_config.c:815-857 | the beam's record is replaced, or a new one counted, unless sixteen other beams are active |
| `CellConfig.CellManager.MarkSent` | s_band_antenna_mgmt/src/cell_config.c:917-920 | only the sent flag of that beam's record changes, and only with confirmed parameters |
| `CellConfig.CellManager.RemoveFreq` | s_band_antenna_mgmt/src/cell_config.c:940-955 | the beam is gone, the counter follows |
| `CellConfig.CellManager.FindDuplicate` | s_band_antenna_mgmt/src/cell_config.c:789-813 | true if and only if the cell has a sent record with the same parameters; then those were once confirmed |
| `CellConfig.CellManager.EstablishFreq` | s_band_antenna_mgmt/src/cell_config.c:789-876 | skip, fail or wait: tables, answer and log of each case |
| `CellConfig.CellManager.BeginFreq` | s_band_antenna_mgmt/src/cell_config.c:686-966 | the whole first half of a frequency request; transmission is looked at again exactly after a delete or a skipped command |
| `CellConfig.CellManager.FindRecord` | s_band_antenna_mgmt/src/cell_config.c:894-907 | found if and only if the beam still, or again, carries the request's parameters |
| `CellConfig.CellManager.FinishFreq` | s_band_antenna_mgmt/src/cell_config.c:876-930 | after the unlocked wait: success if and only if the wait succeeded and the beam carries the parameters, and only then the tables change |
| `CellConfig.CellManager.Do` | s_band_antenna_mgmt/src/cell_config.c:310-966 | one step of any thread: tables, g_tx_on, g_bbu_link_ok and waiting callers change exactly as the relation StepOf says |
| `CellConfig.CellManager.Run` | s_band_antenna_mgmt/src/cell_config.c:686-966 | over any interleaving, a beam is marked sent only if some call sent exactly its present parameters and then saw its mode wait succeed; and the moments of the run follow from one another by the steps of StepOf |
| `CellConfig.OnlyDemotionStrands` | s_band_antenna_mgmt/src/cell_config.c:686-966 | over any run whose transmit commands go out, link losses and returns included: the antenna is found transmitting with nothing sent if and only if some frequency request stores as unsent the only beam that was sent while it transmits |
| `CellConfig.StrandedNext` | s_band_antenna_mgmt/src/cell_config.c:310-966 | any one step: transmitting with nothing sent begins exactly at such a demotion, and ends exactly at a look at transmission or a loss of the link |
| `CellConfig.WaitRestores` | s_band_antenna_mgmt/src/cell_config.c:876-930 | the mode wait makes such an antenna honest again if and only if it succeeds and the beam still carries the parameters sent |
| `CellConfig.DemotionLeavesTx` | s_band_antenna_mgmt/src/cell_config.c:746-787 | the family: one beam alone sent, asked for again in another mode, or with new parameters whether or not the band command goes out |
| `CellConfig.BegunUnlooked` | s_band_antenna_mgmt/src/cell_config.c:739-869 | what a request leaves sent when transmission is not looked at |
| `CellConfig.SentIsProven` | s_band_antenna_mgmt/src/cell_config.c:789-812 | every beam the tables call sent has such a proof |
| `CellConfig.EstablishedMeansSent` | s_band_antenna_mgmt/src/cell_config.c:739-934 | a request to establish a beam is answered with success at once exactly when it leaves the beam marked sent; it waits only with a band command out, and stores the parameters asked for |
| `CellConfig.CellAnswered` | s_band_antenna_mgmt/src/cell_config.c:471-564 | what a cell request is answered says what the cell then is |
| `CellConfig.SkippedTurnsOn` | s_band_antenna_mgmt/src/cell_config.c:927-934 | with the link up and the command out, transmission is on after a request that left its beam marked sent without a wait |
| `CellConfig.WaitedTurnsOn` | s_band_antenna_mgmt/src/cell_config.c:876-925 | and after one that waited with success |
| `CellConfig.DeletedTurnsOff` | s_band_antenna_mgmt/src/cell_config.c:543-955 | after the last sent beam or its cell is deleted, transmission is off |
| `CellConfig.ResendTurnsOn` | s_band_antenna_mgmt/src/cell_config.c:782-934 | sending a configuration once more whose beam is marked sent, in business or spectrum mode, turns transmission on |
| `CellConfig.Recovers` | s_band_antenna_mgmt/src/cell_config.c:310-374 | over runs: after a loss and a return of the link the loss has stopped transmission and any such resend starts it again |
| `CellConfig.NewFrequency` | s_band_antenna_mgmt/src/cell_config.c:746-925 | a configuration new to its cell is sent, waited for and then marked, and transmission starts |
| `CellConfig.WaitOutcomes` | s_band_antenna_mgmt/src/cell_config.c:588-664 | what the mode wait comes to, by what the antenna was seen to do |
| `CellConfig.OtherBeamsStay` | s_band_antenna_mgmt/src/cell_config.c:471-966 | no step touches a beam other than its own or those of a cell it deletes |
| `CellConfig.OtherCellsStay` | s_band_antenna_mgmt/src/cell_config.c:471-966 | nor a cell other than the one it names |
| `CellConfig.DeletedIsGone` | s_band_antenna_mgmt/src/cell_config.c:543-955 | a delete makes its beam, or all beams of its cell, unknown |
| `Cpri.DecodeEncode` | s_band_antenna_mgmt/src/cpri_protocol.c:115-200 | decoding an encoded message gives its fields and payload, with the length filled in |
| `Cpri.EncodedOnWire` | s_band_antenna_mgmt/src/cpri_protocol.c:115-152 | each field of a message at its own offset, little-endian |
| `Cpri.DecodedFromWire` | s_band_antenna_mgmt/src/cpri_protocol.c:154-176 | and read from there |
| `Cpri.BadLengthEmpties` | s_band_antenna_mgmt/src/main.c:121-146 | a length below 15 or above 8192 empties the buffer, and so does a read that does not fit |
| `Cpri.SetupOnWire` | s_band_antenna_mgmt/src/main.c:163-171 | a message opens the gate exactly when it begins with the number two |
| `Cpri.EncodeMessage` | s_band_antenna_mgmt/src/cpri_protocol.c:115-152 | the buffer holds the message and is untouched behind it; too small a buffer is left alone |
| `Cpri.Pool.Free` | s_band_antenna_mgmt/src/cpri_protocol.c:41-61 | only that slot becomes free; a payload from elsewhere changes nothing |
| `Cpri.Pool.Alloc` | s_band_antenna_mgmt/src/cpri_protocol.c:19-38 | takes a free slot; refuses if and only if the size is over 8192 or all sixteen are taken |
| `Cpri.Receiver.DecodeMessage` | s_band_antenna_mgmt/src/cpri_protocol.c:154-200 | a message exactly when it has no payload or a slot is free |
| `Cpri.Receiver.Handle` | s_band_antenna_mgmt/src/main.c:155-177 | the message is dispatched, the pool is as before, and a channel setup opens the gate |
| `Cpri.Receiver.OnData` | s_band_antenna_mgmt/src/main.c:119-187 | one read: the messages dispatched, the bytes kept, the pool unchanged |
| `Cpri.Receiver.Session` | s_band_antenna_mgmt/src/main.c:119-187 | the reads of a connection, one after another |
| `Cpri.Receiver.OnDisconnected` | s_band_antenna_mgmt/src/main.c:99-116 | nothing of the old connection is kept, the link gate closes, and transmission is off if the command went out |
| `Cpri.ScanBeginning` | s_band_antenna_mgmt/src/main.c:135-186 | of any beginning of an encoded stream the complete messages come out and the rest is kept |
| `Cpri.StreamDelivered` | s_band_antenna_mgmt/src/main.c:119-187 | however an encoded stream is cut into reads that fit, exactly its messages are dispatched in order and nothing is left |
| `Cpri.LostOnlyWhenFull` | s_band_antenna_mgmt/src/main.c:156-177 | every message is dispatched if and only if a slot is free or none carries a payload |
| `Cpri.ShortReadsFit` | s_band_antenna_mgmt/src/main.c:121-127 | reads that leave room for the longest message never overflow |
| `Heartbeat.NeverEarly` | s_band_antenna_mgmt/src/heartbeat.c:135-165 | a timeout means at least sixty seconds without a heartbeat |
| `Heartbeat.NeverLate` | s_band_antenna_mgmt/src/heartbeat.c:135-165 | with checks at most d seconds apart a timeout comes by the deadline, from any state of the counter |
| `Heartbeat.TimeoutWindow` | s_band_antenna_mgmt/src/heartbeat.c:135-165 | from the last heartbeat on: not before 60 s and no later than 20 * (2 + d) s |
| `Heartbeat.TimeoutNotEarly` | s_band_antenna_mgmt/src/heartbeat.c:135-165 | the first timeout of a whole series of checks is not early |
| `Heartbeat.Heartbeat.HandleBbu` | s_band_antenna_mgmt/src/heartbeat.c:112-133 | the count starts over when enabled |
| `Heartbeat.Heartbeat.CheckTimeout` | s_band_antenna_mgmt/src/heartbeat.c:135-165 | the new counter and base, and never true within sixty seconds |
| `Heartbeat.MainLoop.Turn` | s_band_antenna_mgmt/src/main.c:512-533 | a timeout closes the gate, ends the channel and sends one OFF to a transmitter that was on; otherwise nothing happens |
| `Heartbeat.MainLoop.WatchSilence` | s_band_antenna_mgmt/src/main.c:512-533 | a silent station ends with the gate closed and transmission off |
| `AlarmManager.CountIsKeys` | s_band_antenna_mgmt/src/alarm_manager.c:226-227 | with distinct keys the counter is the number of keys |
| `AlarmManager.RaisableAreFew` | s_band_antenna_mgmt/src/alarm_manager.c:448-576 | the code base can raise at most 33 keys |
| `AlarmManager.NeverFull` | s_band_antenna_mgmt/src/alarm_manager.c:173-181 | so the 64 records are never all in use |
| `AlarmManager.Manager.Trigger` | s_band_antenna_mgmt/src/alarm_manager.c:185-262 | the key is active afterwards; refused if and only if it is new and 64 others are active |
| `AlarmManager.Manager.Clear` | s_band_antenna_mgmt/src/alarm_manager.c:266-304 | the key is not active afterwards, and no other changes |
| `AlarmManager.Manager.Edge` | s_band_antenna_mgmt/src/alarm_manager.c:448-463 | after an edge the record is active exactly when the condition holds |
| `AlarmManager.Manager.CheckLoUnlock` | s_band_antenna_mgmt/src/alarm_manager.c:448-463 | the alarm follows the lock status, the tracker follows the record |
| `AlarmManager.Manager.CheckOpticalSyncLoss` | s_band_antenna_mgmt/src/alarm_manager.c:466-488 | the alarm of a port 0-7 follows its sync status; other ports change nothing |
| `AlarmManager.Manager.CheckOverTemperature` | s_band_antenna_mgmt/src/alarm_manager.c:491-517 | the alarm of a probe 0-9 follows the thresholds; other probes change nothing |
| `AlarmManager.Manager.CheckChannelFaultExceed` | s_band_antenna_mgmt/src/alarm_manager.c:520-538 | the alarm follows the fault count |
| `AlarmManager.Manager.TriggerOther` | s_band_antenna_mgmt/src/reset.c:202-235 | an alarm without a tracker always finds room and disturbs no tracker |
| `AlarmManager.Manager.OpticalInGrace` | s_band_antenna_mgmt/src/alarm_manager.c:603-626 | the grace period begins with the first readable clock and is never begun again |
| `AlarmManager.Manager.CheckOpticalPorts` | s_band_antenna_mgmt/src/alarm_manager.c:655-666 | after the loop every watched port's alarm is the negation of its bit |
| `AlarmManager.Manager.PeriodicCheck` | s_band_antenna_mgmt/src/alarm_manager.c:629-668 | afterwards every watched alarm is active exactly when the frame says so, by alarm code, threshold and link bit, all others as before; in the grace period optical alarms are only put off |
| `AlarmManager.FrameSays` | s_band_antenna_mgmt/src/alarm_manager.c:629-668 | what a frame says, alarm by alarm: lock status, thresholds, fault count and one bit a port |
| `AlarmManager.Manager.BeginTcpRaise` | s_band_antenna_mgmt/src/alarm_manager.c:550-557 | the first half of the TCP alarm: the tracker, before the lock is released |
| `AlarmManager.Manager.EndTcpRaise` | s_band_antenna_mgmt/src/alarm_manager.c:557-563 | the second half: the record |
| `AlarmManager.Manager.BeginTcpClear` | s_band_antenna_mgmt/src/alarm_manager.c:566-571 | likewise for the clear |
| `AlarmManager.Manager.EndTcpClear` | s_band_antenna_mgmt/src/alarm_manager.c:571-576 | likewise for the clear |
| `AlarmManager.SettlesExactly` | s_band_antenna_mgmt/src/alarm_manager.c:550-576 | with calls in flight, tracker and record agree in whatever order they end if and only if only one kind is in flight, the kind the tracker shows, or none is and they agree |
| `AlarmManager.SettledAlong` | s_band_antenna_mgmt/src/alarm_manager.c:550-576 | over a run they are sure to agree at every rest if and only if no raise and clear ever overlap |
| `AlarmManager.ClearOvertakes` | s_band_antenna_mgmt/src/tcp_client.c:229-241 | the run in which a reconnection overtakes the disconnection: the alarm stays up on a live connection, whatever clears follow |
| `AlarmManager.Manager.Run` | s_band_antenna_mgmt/src/alarm_manager.c:185-668 | over any run the counter is the number of distinct active alarms, at most 33, and every tracker driven by frames equals its record; that of the TCP alarm does at rest if no raise and clear overlapped |

## Left out

- Guards against null arguments, logging text, timestamps and configuration parsing; configuration values are parameters.
- Sockets, termios, `select`, `usleep`, and all time-bounded waiting of the RS-422 client: the reads and time-outs of a transaction are inputs.
- `fpga_firmware_injection_abort`, `_wait` and `_cleanup`: an abort request is an input of each turn of the injection loop; the abort frame another thread may send at the same time is not modelled, nor is the progress callback.
- Hashing and parsing of firmware metadata (`handle_parsing_metadata`): whether they succeed is an input.
- RBuf.Ring.Put: the data to put is a value, so a caller that passes the ring's own storage is not covered.
- PkFinder.PkFinderFind: fixed-length packets, partial head masks and little-endian length fields, which this firmware never configures.
- Crc16.ComputeCrc16: the register is a sequence of sixteen bits; `Crc16.Value` gives the number it stands for.
- Other builders and parsers of rs422_protocol.c: field copying around `EncodeFrame` and `DecodeFrame`.
- UartFramer.Framer.Receive: contents of status frames and the other message type; their decoding copies fields.
- TelemetryLog.Log.ToFile: a write succeeds as a whole or not at all and the file can be reopened after a rotation; a short write that leaves part of a frame in the file is not modelled.
- TelemetryLog.Log.WriteOut: as `ToFile`, which it calls.
- TelemetryLog.Log.Write: as `ToFile`, which calls it.
- TelemetryLog.Log.Rotate: the rename of the current file and its reopening succeed.
- TelemetryLog.Log.ShiftBackups: the renames of the backups succeed.
- TelemetryLog.Log.constructor: a log file left by an earlier process, to which the firmware appends, is not modelled.
- The polling thread of the telemetry log, which only sends requests.
- VersionManager.Manager.SwitchToVersion: file-system calls take effect in order; reordering by the disk before a `sync` is not modelled, nor are the rollback-information file, downloads that delete version directories, and `upgrade-guard.sh`, which is not part of this model.
- TrialRecord.Read: `unsigned long` is taken to have 64 bits; with 32, numbers of 2^32 and more would read as 2^32 - 1.
- The step system of `TxGate`: one worker calls `update_tx_control`, as in the firmware; any number of threads report the link.
- CellConfig.CellManager: information elements and responses (byte copying), the worker's job ring (a circular queue like that of the telemetry log) and the busy response.
- Cpri.EncodeMessage: payloads so long that the 32-bit length would wrap.
- Cpri.Receiver.Handle: what the message handlers do; they are taken to leave the payload pool alone, as only this path allocates from it.
- Heartbeat.MainLoop.Turn: sending the antenna's own heartbeat and the periodic channel setup requests.
- AlarmManager.Manager.Trigger: reporting to the base station and the `reported` flags.
- AlarmManager.Manager.Edge: a check driven by telemetry and its trigger or clear are one step, since only the UART receive thread makes them; the TCP alarm, which two threads drive, is split.
- `fpga_protocol.c` messages, loopback, reset, calibration, status and parameter handlers: field copying.
- Shutdown order of threads and lifetimes of mutexes.
