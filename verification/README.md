# Safety co-processor link: a verified model

The repository carries small framed messages from a safety co-processor to a
Linux supervisor and back: firmware tasks write frames to a UART, a bridge
forwards the bytes (and can inject faults), a link daemon cuts them into frames
and hands them to a kernel driver, and a supervisor reads them, keeps a health
state machine and runs a recovery worker. This project models that path in
Dafny and proves what each stage keeps and what the stages guarantee together.

The modules follow the program:

| module | what it models |
|---|---|
| `Crc`, `CrcCheck`, `Wire`, `WireMeaning`, `Burst`, `BurstBorder` | the CRC-32 register and its check value, pack and validate byte by byte, and what damage a valid frame can survive |
| `Framing`, `FrameSearch`, `Framers`, `Streams`, `Bridge`, `Injection`, `PtyBridges` | one parse decision on the bytes at hand; what it finds, by position; the three buffered framers as objects that refine it; frames in noise; the bridge; its fault injector; both directions of the bridge through that one injector |
| `Receiver`, `Transmit` | the firmware: the byte-at-a-time interrupt receiver, and sending from several tasks through one mutex and one buffer |
| `Driver`, `DriverCalls`, `Timeline`, `Admission`, `Provenance`, `DriverFaults`, `CallEffects`, `DriverBeats` | the kernel driver as sections under one lock that interleave freely; its entry points as methods; the event ring; what a read can deliver; where the frames in the RX queue come from; what becomes of the driver's own fault events; what each call does to the device; which heartbeats are counted |
| `Health`, `Supervisor`, `EventLoops`, `RecoveryWorkers`, `RecoveryFailures`, `HeartbeatIds`, `FrameEffects` | the health state machine, and the event loop and the recovery worker as two interleaving threads; whose recovery a FAILED report ends; how heartbeats run out; which frames move the state |
| `Json`, `Log`, `Replays`, `ReplayRuns`, `MockLog` | the event log's printer and reader, the log writer, the mock run and the replay of its log, and what that log says of every frame |
| `Histogram` | the tracer's log2 histograms, their merge over CPUs, and percentiles |
| `EndToEnd` | a run of the firmware's tasks, the bridge without or with faults, the link daemon, a run of the driver and the supervisor's reads in one statement |
| `Iterate`, `Sequences`, `Arithmetic` | iteration, folds, sequences, quotients, common multiples and powers of two |

Bytes are `bv8`, and header fields have the widths of the C structure, in
little-endian order. Counters wrap where the source's do. A concurrent part is
a total step function on a state and an action: an action that is not enabled
leaves the state alone, so a statement about all lists of actions is a
statement about all runs. Where the source has a loop or updates an object,
there is a method proved against a function of the old state, and the
statements about runs use that function.

## Where the code and its documentation differ

The model follows the code. Four differences matter:

- `docs/architecture.md:68` gives RECOVERING an edge to SAFE_MODE;
  `userspace/safety-supervisord/health_state_machine.cpp:60-65` has none
  (`Health.EdgesTaken` states the edges there are).
- `docs/architecture.md:126-134` lets a fault frame lead to recovery;
  `userspace/safety-supervisord/event_loop.cpp:221-225` only degrades, and from
  there the supervisor never recovers
  (`Supervisor.FaultDegradedNeverRecovers`).
- `userspace/safety-supervisord/recovery_worker.cpp:69-72` waits with a
  deadline for a recovery in progress. No run reaches that wait
  (`Supervisor.OneOutcomePerRecovery`), and a recovery fails as soon as the
  worker takes its lock back with an empty queue
  (`Supervisor.OutcomeDecidedAtRelock`), whatever the deadline.
- The firmware's receiver drops a whole over-long header where the buffered
  framers drop one byte, so a frame that starts inside such a header is lost
  to the firmware only. `Receiver.MachineMeaning` says what the receiver does
  on every stream, `Receiver.AgreementIsExact` exactly when the two find the
  same frames at the same places, `Receiver.AgreesOnQuietStreams` gives a
  simpler sufficient condition, and `Receiver.OverlongHeaderHidesFrame` gives
  streams on which they differ.

Six more properties hold only under a condition, and are stated with the
exact one:

- which damage a valid frame survives (`Burst.DamageVerdict`; a burst across
  the checksum's border can);
- that a fault event the driver makes is acted on (`DriverFaults.DriverFaultActs`;
  driver and firmware both number from 0, the supervisor has one table of
  duplicates for both, and `DriverFaults.InjectedFaultLost` is a run in which an
  injected critical fault is taken for a duplicate);
- that a FAILED report ends its own recovery (`RecoveryFailures.FailedReportMeets`;
  `RecoveryFailures.FailureOvertaken` is a run in which it ends a later one);
- agreement of replay and mock run (`Replays.ReplayAgreesWithMock`; the log
  does not record that a fault was critical);
- reading a string back (`Json.TextField`; unusual control characters are
  printed as `\u00XX` and not read back);
- reading a number back (`Json.NumberField`; outside 64 bits the conversion
  throws, which ends a replay: `Replays.AbortIsExact`).

## Model

| member | source | states |
|---|---|---|
| `Crc.ShiftByMask` | include/safety_protocol.h:168-171 | the branch-free mask form of one register step is the shift-and-conditional-xor step |
| `Crc.ComputeCrcStep` | include/safety_protocol.h:160-174 | the two nested loops compute the fold of the byte step over the data, from any register |
| `Crc.ShiftIsLinearInjection` | include/safety_protocol.h:168-171 | one register step is linear over xor and loses no information |
| `Crc.CrcStepInjective` | include/safety_protocol.h:160-174 | for any data, different registers stay different |
| `Crc.BitwiseIsTableDriven` | include/safety_protocol.h:152-174 | the bitwise form equals the table-driven form of section 8 of RFC 1952, on all data |
| `CrcCheck.Crc32IsTableDriven` | include/safety_protocol.h:176-182 | the CRC of any data is the table-driven one of RFC 1952 from all ones, inverted at the end |
| `CrcCheck.CheckValue` | include/safety_protocol.h:152-182 | the CRC of the nine digits "123456789" is CBF43926, the published check value |
| `CrcCheck.ChecksumIsTableDriven` | include/safety_protocol.h:187-198 | a frame's checksum is that CRC over twelve header bytes, four zeros and the payload |
| `Wire.ParseInvertsHeaderBytes` | include/safety_protocol.h:98-106 | reading a laid-out header gives back every field |
| `Wire.HeaderBytesInvertsParse` | include/safety_protocol.h:98-106 | laying out a read header gives back its 16 bytes |
| `Wire.PackValidates` | include/safety_protocol.h:216-263 | a packed frame validates, whatever follows it, and carries its fields and payload |
| `Wire.ValidFramesArePacked` | include/safety_protocol.h:216-263 | the only frames that validate are packed ones |
| `WireMeaning.VerdictByBytes` | include/safety_protocol.h:243-263 | the verdict on every buffer, on its bytes alone: magic, version, length and the table-driven checksum, the first that fails |
| `WireMeaning.FrameByBytes` | include/safety_protocol.h:200-228 | where type, id, length, time, checksum and payload stand in a packed frame |
| `WireMeaning.OverlongPacksNothing` | include/safety_protocol.h:216-228 | more than 256 bytes of payload pack to nothing |
| `Burst.CrcLinear` | include/safety_protocol.h:160-174 | the register after the xor of two messages is the xor of the registers |
| `Burst.CrcDetectsBurst` | include/safety_protocol.h:160-182 | two messages that differ only in 32 consecutive bits, at any bit offset, never have the same CRC |
| `Burst.ValidMeansChecksum` | include/safety_protocol.h:187-198 | a frame validates exactly when its checksum field is the CRC of the bytes it covers |
| `Burst.DamageVerdict` | include/safety_protocol.h:187-198 | a change that spares the length field turns a valid frame into one that validates exactly if it spares magic and version and its own register, from 0 over the covered bytes, is its own checksum part: a condition on the change alone |
| `Burst.FrameBurstDetected` | include/safety_protocol.h:187-198 | a valid frame damaged within 32 consecutive bits, sparing the length field and not straddling the checksum's border, no longer validates |
| `BurstBorder.StraddlePasses` | include/safety_protocol.h:187-198 | there is a change within 32 consecutive bits across the checksum's border that meets that condition |
| `BurstBorder.StraddlingBurstUndetected` | include/safety_protocol.h:187-198 | so the border condition cannot be dropped: on every valid 20-byte frame that burst validates |
| `Framing.ResidualBound` | userspace/safety-supervisord/protocol.cpp:37-97 | what is left over is shorter than 272 bytes |
| `Framing.DecisionStable` | userspace/safety-supervisord/protocol.cpp:44-90 | a decision made on a buffer stands when more bytes arrive |
| `Framing.ParseInTwoParts` | userspace/safety-supervisord/protocol.cpp:37-97 | parsing a stream in two parts gives the items and the residual of parsing it at once |
| `Framing.ChunkingIndependence` | userspace/safety-linkd/main.cpp:95-132 | however a stream is cut into feed calls, the items and the residual are those of one feed |
| `FrameSearch.ParseIsLeftmost` | userspace/safety-supervisord/protocol.cpp:44-90 | the parse takes the frame at the leftmost place where one can start and goes on behind it, or keeps everything from there; on the way it reports exactly the over-long headers |
| `FrameSearch.FirstExists` | userspace/safety-supervisord/protocol.cpp:44-53 | there always is such a leftmost place |
| `Framers.FrameAssembler.Feed` | userspace/safety-supervisord/protocol.cpp:37-97 | the nested loops return exactly the parse of buffer and data, and keep exactly its residual |
| `Framers.LinkFramer.Feed` | userspace/safety-linkd/main.cpp:95-132 | as the assembler, keeping only whole frames |
| `Framers.ByteFramer.Feed` | bridge/pty_bridge.cpp:42-91 | forwards the same parse as pieces, noise in runs and over-long headers byte by byte |
| `Framers.ByteFramer.Hunt` | bridge/pty_bridge.cpp:49-59 | the inner loop stops at the next magic or before the last byte, and the run it passed is all noise |
| `Streams.FramesThroughNoise` | userspace/safety-supervisord/protocol.cpp:37-97 | through any noise without the magic, exactly the frames come out in order, with at most one byte left |
| `Streams.RoundTripThroughNoise` | userspace/safety-supervisord/protocol.cpp:37-118 | messages packed and sent through noise arrive exactly, with their fields and payloads, all valid |
| `Streams.BackToBack` | userspace/safety-supervisord/protocol.cpp:37-97 | frames without noise parse to exactly themselves, with nothing left |
| `Bridge.ItemsSpellTheStream` | bridge/pty_bridge.cpp:42-91 | the items and the residual spell the stream byte for byte |
| `Bridge.BridgeIsLossless` | bridge/pty_bridge.cpp:42-91 | for any chunking, what was forwarded and then what is held is what was fed |
| `Bridge.NoiseIsOnePiece` | bridge/pty_bridge.cpp:46-62 | noise before a frame is one piece of the count and the frame the next |
| `Bridge.BridgeTransparency` | userspace/safety-linkd/main.cpp:95-132 | behind the bridge, with any read sizes on either side, the link daemon extracts the frames of the raw stream |
| `Injection.FaultInjector.Process` | bridge/fault_injector.cpp:64-107 | counts the frame and drops, damages in place or forwards it as its periods and type filter say |
| `Injection.DamageIsCaught` | bridge/fault_injector.cpp:88-96 | a damaged frame is still a whole frame and validates BAD_CHECKSUM |
| `Injection.DamageIsOneByte` | bridge/fault_injector.cpp:88-96 | damage turns over the bits of byte 12 and changes nothing else |
| `Injection.DropsByType` | bridge/fault_injector.cpp:78-86 | with a type filter, dropped are exactly the pieces at the period whose byte 3 is that type |
| `Injection.FilteredDrops` | bridge/fault_injector.cpp:78-86 | and in any series their number is that of the pieces of the type at the period |
| `Injection.InjectedVerdicts` | bridge/fault_injector.cpp:64-107 | of valid frames with any numbers, exactly the undropped ones go on, in order; the damaged ones validate BAD_CHECKSUM and the others OK |
| `Injection.CountedBehind` | bridge/fault_injector.cpp:64-107 | behind the injector, what is missing was dropped and what fails validation was damaged, in number |
| `PtyBridges.PtyBridge.Forward` | bridge/pty_bridge.cpp:261-292 | one read on either side: that side's framer, the one injector and that side's output move as the bridge function says, and the other side's framer and output stay |
| `PtyBridges.DirectionsAreSeparate` | bridge/pty_bridge.cpp:261-292 | in any order of reads each direction holds and hands over what it would with the other side silent |
| `PtyBridges.NumbersAreGlobal` | bridge/fault_injector.h:54 | along each direction the numbers ascend and are the places in the common order of all frames of both directions |
| `PtyBridges.InjectionIsFrameExact` | bridge/pty_bridge.cpp:261-292 | one side sends valid frames, perhaps a part of one at the end, the other side anything: with any read sizes the receiver finds exactly the frames let through, in order, by their numbers in the common count, and the bridge holds exactly the part |
| `PtyBridges.SilentOtherSide` | bridge/pty_bridge.cpp:261-292 | with the other side silent these are the frames let through when numbered 1, 2, 3, ... |
| `PtyBridges.InjectionCounts` | bridge/fault_injector.cpp:64-107 | without a type filter, n frames of both directions together give n/d drops and n/c - n/lcm(c,d) damaged ones |
| `PtyBridges.ReceivedCounts` | bridge/fault_injector.cpp:64-107 | the two receivers together find n - n/d frames, of which n/c - n/lcm(c,d) fail validation |
| `Receiver.Uart.FeedByte` | zephyr/safety_copro_firmware/src/safety_protocol.c:131-206 | one byte moves the receiver as the step function says, keeps got + need at the header or frame size, and queues a valid completed frame unless eight wait |
| `Receiver.QueuedIfRoom` | zephyr/safety_copro_firmware/src/safety_protocol.c:193-203 | a completed frame is queued exactly if it is valid and fewer than eight wait |
| `Receiver.CompletedInTwoParts` | zephyr/safety_copro_firmware/src/safety_protocol.c:131-206 | the frames completed and the bytes held depend only on the stream, not on where it is cut |
| `Receiver.MachineMeaning` | zephyr/safety_copro_firmware/src/safety_protocol.c:131-206 | on every stream the receiver completes exactly the stated frames and holds exactly the stated bytes |
| `Receiver.AgreementIsExact` | zephyr/safety_copro_firmware/src/safety_protocol.c:131-206 | on every stream the receiver and the buffered parse find the same frames at the same places exactly if at no over-long header met the parse finds a frame inside it, and where the parse gets stuck inside nothing is completed behind it |
| `Receiver.AgreesOnQuietStreams` | zephyr/safety_copro_firmware/src/safety_protocol.c:131-206 | in particular if no over-long header covers the start of a frame |
| `Receiver.DeliversTheOkFrames` | zephyr/safety_copro_firmware/src/safety_protocol.c:131-206 | with no over-long header met, the frames it delivers are the valid frames of the assembler |
| `Receiver.OverlongHeaderHidesFrame` | zephyr/safety_copro_firmware/src/safety_protocol.c:167-171 | the failing family: before any frame without payload, eight bytes make the receiver lose it |
| `Transmit.SeqIdsRepeat` | zephyr/safety_copro_firmware/src/safety_protocol.c:69-70 | two allocations get the same 16-bit id exactly when they are a multiple of 65,536 apart |
| `Transmit.SeqIdsCount` | zephyr/safety_copro_firmware/src/safety_protocol.c:47-70 | the ids start at 0 and count up: the n-th is n modulo 65,536 |
| `Transmit.Sender.SendFrame` | zephyr/safety_copro_firmware/src/safety_protocol.c:54-89 | a call refuses without a trace, or uses one id and puts out exactly its frame |
| `Transmit.Sender.PackInto` | include/safety_protocol.h:216-228 | the frame overwrites the front of the buffer and nothing else |
| `Transmit.StepKeeps` | zephyr/safety_copro_firmware/src/safety_protocol.c:54-89 | every step of every task keeps mutual exclusion, the buffer's contents, the wire's shape and the matching of ids to frames |
| `Transmit.WireAtomicity` | zephyr/safety_copro_firmware/src/safety_protocol.c:54-89 | in any interleaving the wire is whole valid frames and then a prefix of the mutex holder's; the receiving side finds exactly those frames (and the holder's once complete) and keeps the rest |
| `Transmit.IdsAreConserved` | zephyr/safety_copro_firmware/src/safety_protocol.c:70-89 | every allocated id is with one task or in one frame on the wire; frames fewer than 65,536 allocations apart have different ids |
| `Transmit.WireCarriesCalls` | zephyr/safety_copro_firmware/src/safety_protocol.c:54-89 | in any interleaving every frame on the wire carries the type, time and payload of its call, and the number of the call modulo 65,536 as its id |
| `Transmit.WaitingTaskCanSend` | zephyr/safety_copro_firmware/src/safety_protocol.c:74-88 | from a free mutex a waiting task can finish its frame |
| `Transmit.WireOrderMayDiffer` | zephyr/safety_copro_firmware/src/safety_protocol.c:70-74 | the order on the wire need not be the order of the ids |
| `Timeline.TimelineBuffer.RecordEvent` | linux/drivers/safety_copro/safety_copro_kfifo.c:27-39 | the ring in place does what the ring function says |
| `Timeline.TimelineBuffer.Show` | linux/drivers/safety_copro/safety_copro_debugfs.c:208-244 | the read-out loop returns the ring's entries from the oldest on |
| `Timeline.RingRefinesLog` | linux/drivers/safety_copro/safety_copro_kfifo.c:27-39 | after any records and resets the read-out is the last 64 events since the last reset, oldest first |
| `Timeline.ShowsAtMost64` | linux/drivers/safety_copro/safety_copro_debugfs.c:208-244 | of n events it shows the last 64, or all n |
| `Driver.AdmissionIsExact` | linux/drivers/safety_copro/safety_copro_chrdev.c:91-157 | a frame is let in exactly when it is whole and nothing but its checksum may be wrong |
| `Driver.ExecKeeps` | linux/drivers/safety_copro/safety_copro_chrdev.c:49-157 | no section under the lock breaks the queues, the tallies, the watchdog, the work or the timeline |
| `Driver.StepKeeps` | linux/drivers/safety_copro/safety_copro_chrdev.c:91-397 | no step of any thread, timer, work or reset does |
| `Driver.QueuesAreBoundedFifos` | linux/drivers/safety_copro/safety_copro_kfifo.c:50-180 | in any interleaving what left each queue and what waits in it is what entered, in order, and neither outgrows its depth |
| `Driver.ErrorsAddUp` | linux/drivers/safety_copro/safety_copro_chrdev.c:49-73 | the total of protocol errors is the sum of its classes modulo 2^32, each the number since the last reset |
| `Driver.CountersCount` | linux/drivers/safety_copro/safety_copro_chrdev.c:75-84 | the heartbeat, drop, timeout, retry and fault counters are the numbers of those events since the last reset, modulo 2^32, and the fault record is the latest fault since |
| `Driver.TxAdmissionIsExact` | linux/drivers/safety_copro/safety_copro_chrdev.c:172-190 | write() lets a buffer through exactly if it starts with a whole valid frame; bytes after that frame are not looked at |
| `Driver.OneShot` | linux/drivers/safety_copro/safety_copro_timer.c:34-105 | bookkeeping of two flags, each cleared by the step that tests it: the watchdog fires at most once an arming; the recovery work runs once a batch of requests and forgets none |
| `Driver.TimelineShowsLatest` | linux/drivers/safety_copro/safety_copro_debugfs.c:208-244 | at any moment of any run the timeline shows the last 64 events since the last reset |
| `DriverBeats.BeatsBalance` | linux/drivers/safety_copro/safety_copro_chrdev.c:137-154 | in any run the heartbeats counted, with the calls in between, are the valid heartbeat frames queued |
| `DriverBeats.HeartbeatsAreThoseQueued` | linux/drivers/safety_copro/safety_copro_chrdev.c:146-154 | so without a reset the counter is the number of valid heartbeats queued, modulo 2^32, but for calls that have queued one and not yet counted it |
| `CallEffects.RxEffect` | linux/drivers/safety_copro/safety_copro_chrdev.c:91-157 | PUSH_RX on the bytes of any frame: which error class is counted, whether it is queued or dropped, what the timeline gets; the heartbeat counter, the link and the watchdog move exactly for a valid frame of type 1 that found room |
| `CallEffects.TxEffect` | linux/drivers/safety_copro/safety_copro_chrdev.c:162-202 | write() on any buffer: its error class, the TX queue or the drop |
| `CallEffects.SynthEffect` | linux/drivers/safety_copro/safety_copro_kfifo.c:200-274 | a frame the driver makes is valid, has the next synthetic id and its payload, and stands at the end of the queue, or is dropped and counted |
| `CallEffects.WatchdogEffect` | linux/drivers/safety_copro/safety_copro_timer.c:34-71 | an expiry counts a timeout and a fault, records it, sets the link, reports a fault event of severity 1 and asks for recovery; nothing else changes |
| `CallEffects.WorkEffect` | linux/drivers/safety_copro/safety_copro_workqueue.c:27-46 | the recovery work counts a retry, sets the link and reports; nothing else changes |
| `CallEffects.InjectEffect` | linux/drivers/safety_copro/safety_copro_chrdev.c:350-368 | an injected fault is counted, recorded and reported with severity 2; nothing else changes |
| `CallEffects.ControlEffects` | linux/drivers/safety_copro/safety_copro_chrdev.c:317-334 | a threshold other than 0 is stored and arms the watchdog; a forced recovery only asks for the work |
| `CallEffects.ResetEffect` | linux/drivers/safety_copro/safety_copro_chrdev.c:289-315 | a reset clears every counter, the classes, the fault record and the timeline, and nothing else |
| `DriverCalls.SafetyCopro.QueueRxFromLinkd` | linux/drivers/safety_copro/safety_copro_chrdev.c:91-157 | carries out its script, whose effect is `CallEffects.RxEffect`; returns 0, -28, -90 or -22 exactly as frame and room say |
| `DriverCalls.SafetyCopro.WriteFrame` | linux/drivers/safety_copro/safety_copro_chrdev.c:162-202 | carries out its script, whose effect is `CallEffects.TxEffect`; returns the length, -11, -90 or -22 exactly as buffer and room say |
| `DriverCalls.SafetyCopro.ReadFrame` | linux/drivers/safety_copro/safety_copro_chrdev.c:208-237 | hands over the oldest frame exactly if the caller's buffer holds it; a small buffer costs the frame |
| `DriverCalls.SafetyCopro.PopTxFrame` | linux/drivers/safety_copro/safety_copro_chrdev.c:381-397 | hands over the oldest TX frame, or -EAGAIN |
| `DriverCalls.SafetyCopro.ResetStatistics` | linux/drivers/safety_copro/safety_copro_chrdev.c:289-315 | clears the counters, the classes, the fault record and the timeline, and leaves the queues, the watchdog and the work |
| `DriverCalls.SafetyCopro.RecordProtoError` | linux/drivers/safety_copro/safety_copro_chrdev.c:49-73 | adds one to the total and to the class of the verdict |
| `DriverCalls.SafetyCopro.PushFrame` | linux/drivers/safety_copro/safety_copro_kfifo.c:50-97 | refuses a bad length, else appends unless full, and then raises the high-water mark and records the event |
| `DriverCalls.SafetyCopro.SynthesizeAndPush` | linux/drivers/safety_copro/safety_copro_kfifo.c:200-274 | packs a frame with the next synthetic id and its own times for payload and header, and queues it, or counts one drop |
| `DriverCalls.SafetyCopro.HbTimerFn` | linux/drivers/safety_copro/safety_copro_timer.c:34-71 | carries out the watchdog's script, whose effect is `CallEffects.WatchdogEffect` |
| `DriverCalls.SafetyCopro.RecoveryWorkFn` | linux/drivers/safety_copro/safety_copro_workqueue.c:27-46 | carries out the recovery work's script |
| `DriverCalls.SafetyCopro.InjectFault` | linux/drivers/safety_copro/safety_copro_chrdev.c:350-368 | counts and records the fault and queues a critical fault event |
| `DriverCalls.SafetyCopro.SetHbTimeout` | linux/drivers/safety_copro/safety_copro_chrdev.c:317-334 | refuses 0; else stores the threshold and arms the watchdog |
| `DriverCalls.CompleteInSteps` | linux/drivers/safety_copro/safety_copro_chrdev.c:91-157 | a call carried out without interruption, each section with its own readings of the clocks, is a run of the interleaved system |
| `Admission.EveryReadIsOneFrame` | linux/drivers/safety_copro/safety_copro_chrdev.c:208-237 | in every run of the driver each read parses to exactly one frame with nothing left over, valid or with a bad checksum |
| `Admission.NackReasonIsTrue` | userspace/safety-supervisord/event_loop.cpp:149-168 | the supervisor refuses such a frame, always with reason CHECKSUM, exactly if its checksum is bad |
| `Admission.DriverFaultsAtSupervisor` | linux/drivers/safety_copro/safety_copro_kfifo.c:243-256 | a fault event the driver made is acted on exactly if its id is not in the table of duplicates: an injected one takes HEALTHY or DEGRADED to SAFE_MODE, the watchdog's takes HEALTHY to DEGRADED; otherwise the loop stays as it is |
| `Provenance.EveryFrameHasASource` | linux/drivers/safety_copro/safety_copro_kfifo.c:50-97 | in every run, of any threads, each frame that entered the RX queue was handed over by a call or made by the driver; those of calls are exactly the pushes that found room, in order |
| `Provenance.LinkFramesArriveInOrder` | userspace/safety-linkd/main.cpp:365-380 | with one link daemon, whatever else interleaves, the admissible frames it handed over are in order those pushed and the one in hand, and the frames of calls in the queue are the pushed ones minus exactly those that found it full |
| `Provenance.RoomyMeaning` | linux/drivers/safety_copro/safety_copro_chrdev.c:137-145 | the places of the frames that found room: ascending, and exactly those pushed while fewer than the depth were waiting |
| `DriverFaults.SeenInRun` | userspace/safety-supervisord/event_loop.cpp:171-179 | in every run of the supervisor the table of duplicates holds exactly the types and ids of the valid frames handled |
| `DriverFaults.DriverFaultActs` | userspace/safety-supervisord/event_loop.cpp:171-226 | in every run of the driver and every run of the supervisor over its reads, a fault event of the driver is acted on exactly if no valid fault event with its id was read before |
| `DriverFaults.InjectedFaultLost` | linux/drivers/safety_copro/safety_copro_kfifo.c:214-217 | the failing input: after a fault event of the firmware with id 0 and severity below 2, the first injected critical fault leaves the supervisor in DEGRADED |
| `DriverFaults.FirmwareFaultIsMild` | zephyr/safety_copro_firmware/src/safety_protocol.c:47-89 | the firmware's first frame is such a fault event whenever it is one of severity 0 or 1 |
| `Health.HealthStateMachine.Apply` | userspace/safety-supervisord/health_state_machine.cpp:33-81 | moves along the table, reports whether the state changed, and tells the hook exactly then |
| `Health.EdgesTaken` | userspace/safety-supervisord/health_state_machine.cpp:38-71 | exactly eight edges can be taken, each on one event |
| `Health.TraceIsWalk` | userspace/safety-supervisord/health_state_machine.cpp:73-80 | whatever events come, the hook sees a gapless walk along those edges |
| `FrameEffects.FrameMoves` | userspace/safety-supervisord/event_loop.cpp:142-229 | the state after any frame: only new valid heartbeats and fault events move it, by the stated cases; telemetry, replies, reports, duplicates and damaged frames never do |
| `FrameEffects.StepMoves` | userspace/safety-supervisord/event_loop.cpp:142-289 | every way in which a step of either thread can move the state |
| `FrameEffects.OthersDoNotMatter` | userspace/safety-supervisord/event_loop.cpp:209-228 | taking all other frames out of any list leaves the supervisor in the same state |
| `FrameEffects.StepPosts` | userspace/safety-supervisord/event_loop.cpp:195-245 | exactly which requests a step posts, with their ids and times |
| `FrameEffects.StepIds` | userspace/safety-supervisord/event_loop.cpp:149-245 | each reply and each RECOVER uses one id, and nothing else does |
| `Supervisor.StepKeeps` | userspace/safety-supervisord/event_loop.cpp:142-289 | every step of either thread keeps the joint invariant |
| `Supervisor.SingleToken` | userspace/safety-supervisord/recovery_worker.cpp:42-135 | in every interleaving at most one recovery is between its request and its SENT report, none in BOOTING, HEALTHY or RECOVERING, and requests alternate RECOVER, RESTORED |
| `Supervisor.OneOutcomePerRecovery` | userspace/safety-supervisord/recovery_worker.cpp:60-136 | whenever the worker is at its loop head, blocked or stopped, no recovery is active and each RECOVER taken has had exactly one outcome, after its own SENT |
| `Supervisor.WorkerComesToRest` | userspace/safety-supervisord/recovery_worker.cpp:60-136 | left alone the worker reaches such a point, whatever the device answers |
| `Supervisor.OutcomeDecidedAtRelock` | userspace/safety-supervisord/recovery_worker.cpp:97-133 | the outcome is SUCCESS exactly if a request is queued when the worker takes its lock back after sending |
| `Supervisor.EntersRecovering` | userspace/safety-supervisord/event_loop.cpp:257-281 | a step enters RECOVERING exactly if it adds to the history of entries |
| `Supervisor.EntriesTraceBack` | userspace/safety-supervisord/event_loop.cpp:257-281 | that history counts the entries of the run; the k-th entry into RECOVERING has the id of the k-th RECOVER posted, and at most the last RECOVER has none |
| `Supervisor.OnlyTimeoutsAsk` | userspace/safety-supervisord/event_loop.cpp:231-248 | a RECOVER is posted only by a timeout that takes HEALTHY to DEGRADED |
| `Supervisor.FaultDegradedNeverRecovers` | userspace/safety-supervisord/event_loop.cpp:209-226 | once a fault event has degraded the supervisor, every later state is DEGRADED, FAILED or SAFE_MODE |
| `RecoveryFailures.LateStep` | userspace/safety-supervisord/event_loop.cpp:250-289 | every step keeps the order of reports, and ties entries into RECOVERING to the SENTs applied and the requests posted |
| `RecoveryFailures.FailedReportMeets` | userspace/safety-supervisord/event_loop.cpp:275-281 | a FAILED report about to be applied answers the RECOVER its place says, and at most a RESTORED and one RECOVER were posted since; when it acts, it ends a later recovery than its own exactly if its own entered RECOVERING, the state is DEGRADED and the last request is a RECOVER |
| `RecoveryFailures.FailureOvertaken` | userspace/safety-supervisord/recovery_worker.cpp:113-133 | a run in which the FAILED report of recovery 1 ends recovery 3 |
| `RecoveryFailures.ReportsAreTruthful` | userspace/safety-supervisord/recovery_worker.cpp:80-133 | in every run a SENT bears the id and time of its RECOVER, a SUCCESS the time of its RESTORED, a FAILED the id of its RECOVER and that time with the deadline added |
| `HeartbeatIds.AcknowledgedAtMost` | userspace/safety-supervisord/protocol.cpp:163-168 | in every run at most 65,536 heartbeats are acknowledged, and exactly that many if and only if every heartbeat id is in the table of duplicates |
| `HeartbeatIds.HealthRunsOut` | userspace/safety-supervisord/event_loop.cpp:171-208 | after the last of them there is never another acknowledgement, and a supervisor that is not HEALTHY is never HEALTHY again |
| `EventLoops.EventLoop.ProcessFrames` | userspace/safety-supervisord/event_loop.cpp:142-229 | the loop over the frames of a read is the frame function applied to each, with its replies, and leaves the worker with exactly the requests the frames call for |
| `EventLoops.EventLoop.IsDuplicate` | userspace/safety-supervisord/protocol.cpp:163-168 | answers whether the type and id were seen before, and remembers them |
| `EventLoops.EventLoop.OnHeartbeatTimeout` | userspace/safety-supervisord/event_loop.cpp:231-248 | moves the state machine and, from HEALTHY, leaves the worker with one more RECOVER, with the next id |
| `EventLoops.EventLoop.WorkOutside` | userspace/safety-supervisord/recovery_worker.cpp:95-133 | the worker without its lock sends or closes, and the loop has exactly the reports of those moves: SENT if the device took the command, or the outcome |
| `EventLoops.EventLoop.DrainRecoveryReports` | userspace/safety-supervisord/event_loop.cpp:250-289 | takes over all reports and applies them in order |
| `EventLoops.RepliesAreExpected` | userspace/safety-supervisord/event_loop.cpp:149-208 | over any frames the replies are a NACK for each invalid one and an ACK for each fresh heartbeat, in order, with consecutive ids; a refused frame makes no later one a duplicate |
| `EventLoops.HandledInSteps` | userspace/safety-supervisord/event_loop.cpp:142-229 | handling a read is a run of the step system |
| `EventLoops.DrainedInSteps` | userspace/safety-supervisord/event_loop.cpp:250-289 | and so is a drain |
| `RecoveryWorkers.RecoveryWorker.HandleRequests` | userspace/safety-supervisord/recovery_worker.cpp:80-134 | the inner loop and the check after it reach the state the worker's moves reach |
| `RecoveryWorkers.RecoveryWorker.HoldLock` | userspace/safety-supervisord/recovery_worker.cpp:62-135 | from taking the lock to giving it up the thread's two loops make exactly the worker's moves |
| `RecoveryWorkers.SectionInSteps` | userspace/safety-supervisord/recovery_worker.cpp:62-135 | those moves are a run of the step system that reports nothing and loses no request |
| `RecoveryWorkers.OutsideInSteps` | userspace/safety-supervisord/recovery_worker.cpp:95-133 | and so are its moves without the lock, with exactly those reports posted, no request taken and the event loop untouched |
| `Json.NumberRoundTrip` | userspace/safety-supervisord/replay_mode.cpp:53-71 | a printed integer is read back, before any non-digit, exactly if it fits into 64 bits; otherwise the conversion throws |
| `Json.TextReturns` | userspace/safety-supervisord/replay_mode.cpp:29-50 | what reading a printed string gives, character by character, for every string |
| `Json.ReturnedIsSame` | userspace/safety-supervisord/logger_worker.cpp:27-48 | that is the string itself exactly if it has no control characters but newline, return and tab |
| `Json.ControlByCode` | userspace/safety-supervisord/logger_worker.cpp:38-43 | a control character without a short form is printed with its code in hexadecimal |
| `Json.KeyNotAhead` | userspace/safety-supervisord/replay_mode.cpp:23-27 | no key with its closing quote and colon can stand inside or at the end of a printed value |
| `Json.FirstMatch` | userspace/safety-supervisord/replay_mode.cpp:23-27 | the first match of a field's key in a line is at that field, whatever the values hold |
| `Json.TextField` | userspace/safety-supervisord/replay_mode.cpp:20-51 | reading a text field gives what was printed, exactly if it is plain |
| `Json.OddTexts` | userspace/safety-supervisord/replay_mode.cpp:29-48 | an escape the printer does not use stands for its second character, and a text without a closing quote is read to its end |
| `Json.NumberField` | userspace/safety-supervisord/replay_mode.cpp:53-71 | reading a number field gives the number exactly if it fits into 64 bits |
| `Json.OddNumbers` | userspace/safety-supervisord/replay_mode.cpp:60-69 | what the reader does with a plus sign, a sign without digits, a quote, and no digits |
| `Json.LineNoControl` | userspace/safety-supervisord/logger_worker.cpp:27-75 | a printed line has no newline or other control character, whatever the strings |
| `Log.AppendJsonEscaped` | userspace/safety-supervisord/logger_worker.cpp:27-48 | the loop appends the escaped string |
| `Log.SerializeEvent` | userspace/safety-supervisord/logger_worker.cpp:51-75 | the appends build the line of the event's eight fields in the fixed order |
| `Log.LockedSchema` | userspace/safety-supervisord/logger_worker.cpp:51-75 | a line is these eight keys in this order, each with the value of its field |
| `Log.ReadString` | userspace/safety-supervisord/replay_mode.cpp:20-51 | search and decoding loop give the string the reader function gives, or nothing |
| `Log.ReadNumber` | userspace/safety-supervisord/replay_mode.cpp:53-71 | search, sign and digit loop give the number the reader function gives, nothing, or a throw on a bare sign or a number out of range |
| `Log.PrinterParserInverse` | userspace/safety-supervisord/logger_worker.cpp:51-75 | for every event the kind comes back, each number exactly if it fits into 64 bits, and each string exactly if it is plain |
| `Log.LinesOfFile` | userspace/safety-supervisord/logger_worker.cpp:135-138 | the file splits back into exactly the printed events |
| `Log.LoggerLosesNothing` | userspace/safety-supervisord/logger_worker.cpp:95-140 | in any interleaving what is written is a prefix of what was pushed and the rest is in the writer's hands or queued; once the writer has left, exactly what was pushed before is written and later events stay in the queue |
| `Replays.LineIsEvent` | userspace/safety-supervisord/replay_mode.cpp:113-168 | for every event the replay does with its printed line what the event says with its strings as they are read back, and reading its time throws exactly if it does not fit into 64 bits |
| `Replays.AbortIsExact` | userspace/safety-supervisord/replay_mode.cpp:122-123 | the replay of any printed events is cut short by an exception exactly if some time does not fit into 64 bits |
| `Replays.SeenSoFar` | userspace/safety-supervisord/main.cpp:203-207 | the mock's table of duplicates holds the keys of all frames so far, refused ones too |
| `Replays.LateMeansElapsed` | userspace/safety-supervisord/main.cpp:233-236 | a heartbeat is late exactly if more than the timeout has elapsed, over the integers, also when the clock has wrapped |
| `MockLog.CriticalMeans` | userspace/safety-supervisord/main.cpp:286-294 | a fault event is critical exactly if its second byte of payload is 2 or more |
| `Replays.MockInStep` | userspace/safety-supervisord/main.cpp:181-297 | after every frame the mock and the replay of its log stand as stated: equal, one step apart, or parted by a critical fault |
| `Replays.ReplayAgreesWithMock` | userspace/safety-supervisord/replay_mode.cpp:113-168 | replaying the file runs to its end and gives the mock's transitions, but perhaps a last RECOVERING to HEALTHY, exactly if no critical fault was taken after a heartbeat; all of them exactly if also the last heartbeat was not late |
| `MockLog.LogCoversFrames` | userspace/safety-supervisord/main.cpp:181-297 | the mock's log says of every frame exactly once, in order, that it was received, repeated or damaged, and how it was answered |
| `MockLog.LogRaisesAlarms` | userspace/safety-supervisord/main.cpp:231-278 | its timeouts, commands and recovery results are exactly those its late heartbeats call for, with their times and ids |
| `MockLog.LogTellsTransitions` | userspace/safety-supervisord/main.cpp:157-166 | its changes of state are exactly the transitions of the run |
| `MockLog.LineMoves` | userspace/safety-supervisord/replay_mode.cpp:113-168 | the state of a replay after any line at all, by what stands in its fields |
| `ReplayRuns.MockRunner.RunAll` | userspace/safety-supervisord/main.cpp:171-297 | the loop over the frames is the mock run, with its log and transitions |
| `ReplayRuns.RunReplay` | userspace/safety-supervisord/replay_mode.cpp:112-168 | the loop over the lines is the replay of the file, and stops where reading a time throws |
| `Histogram.FastLog2` | ebpf/safety_trace.bpf.c:170-180 | the six tests give the place of the highest bit |
| `Histogram.Log2AtMost` | ebpf/safety_trace.bpf.c:168-180 | a sample's bucket is at most s exactly if the sample is below 2^(s+1) |
| `Histogram.Recorder.Record` | ebpf/safety_trace.bpf.c:183-196 | updates bucket, count, sum, minimum and maximum in place, with 64-bit wrap-around |
| `Histogram.RecordAllOf` | ebpf/safety_trace.bpf.c:183-196 | samples recorded one by one leave exact buckets, count, minimum and maximum, and the sum modulo 2^64 |
| `Histogram.SumPercpuHist` | ebpf/safety_trace_user.c:188-220 | the nested loops merge the CPUs' histograms |
| `Histogram.MergedIsExact` | ebpf/safety_trace_user.c:188-220 | the merge is the histogram of all samples, however they were spread over CPUs |
| `Histogram.PercentileNs` | ebpf/safety_trace_user.c:241-258 | the loop stops at the first bucket whose running total, modulo 2^64, reaches the rank |
| `Histogram.SlotSumIsCount` | ebpf/safety_trace_user.c:188-220 | the buckets add up to the count |
| `Histogram.RankIsNearest` | ebpf/safety_trace_user.c:244-247 | the rank is the whole number nearest to the percentage of the count, a half rounded up, at least 1; there is only one |
| `Histogram.PercentileBounds` | ebpf/safety_trace_user.c:241-258 | the running total never wraps, and the reported value v and the sample x of the nearest rank: x < v <= 2x from 2 on, 1 for 0 and 1, undefined exactly from 2^63 |
| `Histogram.PercentilesAscend` | ebpf/safety_trace_user.c:241-258 | a larger percentage never reports less |
| `Histogram.ExtremeRanks` | ebpf/safety_trace_user.c:241-258 | the 100th percentile is that of the largest sample, the 0th that of the smallest |
| `Histogram.NothingToReport` | ebpf/safety_trace_user.c:243-244 | without samples every percentile is 0 |
| `Histogram.ReportIsFaithful` | ebpf/safety_trace_user.c:188-258 | from the samples of every CPU to the report: exact count, sum modulo 2^64, minimum and maximum, and percentiles that bound the sample of the nearest rank |
| `EndToEnd.FramesExtracted` | userspace/safety-linkd/main.cpp:95-132 | in any interleaving of the tasks and any cutting of the stream the link daemon extracts exactly the frames sent |
| `EndToEnd.FramesArrive` | linux/drivers/safety_copro/safety_copro_chrdev.c:91-237 | when one link daemon hands over admissible frames in order, in any run of the driver, the supervisor parses one frame out of each read, and apart from the driver's own frames these are exactly the frames that found room in the queue, in order, as many as were read |
| `EndToEnd.MessagesArrive` | userspace/safety-linkd/main.cpp:365-380 | from any run of the firmware's tasks, through a bridge without faults, what is read is so exactly the messages sent that found room, in the order of the wire |
| `EndToEnd.MessagesArriveAsPlanned` | bridge/pty_bridge.cpp:261-292 | through a bridge with faults, the other direction carrying anything, it is exactly what the injector let through and found room: each frame its message, or with a bad checksum exactly where the plan damages its number in the common count |

## Left out

- PTY, UART, epoll, timer and file handling, argument parsing, signals and the summaries: input and output only; the steps they cause are parameters or actions.
- Real time: timers fire at any moment they are armed, clocks are arbitrary readings, and the wall-clock deadline of the recovery worker does not appear because no decision reads it.
- Memory and thread scheduling: a section under a lock is one step; the event loop's state machine and its posts to the worker are one step, since no other thread reads the state machine.
- The recovery worker's endless loop is not one method: its turns under the lock are `RecoveryWorkers.RecoveryWorker.HoldLock`, and the whole thread is the step function `Supervisor.Work`.
- Sending from several tasks (`zephyr/safety_copro_firmware/src/safety_protocol.c:54-89`) is modelled on values as a step system; the method `Transmit.Sender.SendFrame` is one call without other tasks.
- Driver: that the recovery work never runs twice at once is not used, so more interleavings are covered than the kernel allows; poll masks and trace points are left out.
- DriverCalls.SafetyCopro.ReadFrame: a read that may block waits until a frame is there and tries again; the method is the read of an open file that does not block, and in the interleaved system waiting is the read step that changes nothing.
- DriverCalls.SafetyCopro.ResetStatistics: the per-CPU counters, which only the debug files show, are not part of the model.
- PtyBridges.PtyBridge.Forward: a write that fails and gives up the rest of its frame is not modelled; every piece let through is written whole.
- Histogram.RecordAllOf: assumes fewer than 2^64 samples, since the count itself wraps there and the code then takes the next sample for the first.
- Histogram.PercentileNs: the rank is computed in exact arithmetic instead of doubles.
- Histogram.PercentileBounds: exact arithmetic likewise.
- Histogram.ReportIsFaithful: exact arithmetic likewise.
- The pairing of timeline events into fault cycles (`ebpf/safety_trace_user.c:400-478`) and the averages: report formatting.
- The supervisor's log events in live mode, `RetryTracker`, telemetry, command dispatch and the other firmware tasks: single branches that would add easy members.
- Driver set-up and tear-down, debugfs files other than the timeline, and the ioctls that only copy values out.
