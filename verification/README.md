# SputterOS: a Dafny model and its proofs

SputterOS is a real-time kernel for small machines: a priority scheduler with a background
ring, a cross-core command queue, a framed serial protocol with a host-side counterpart, N-core
barriers, a lifecycle state machine, and rolling metrics. This project models those parts and
proves what they promise, over all inputs, all runs and all interleavings. Where a promise turns
out not to hold, the model keeps the code as it is and proves exactly when the promise holds.

`dafny verify dfyconfig.toml` checks the project (Dafny 4.11).

## How it is organised

Each component has a value-level specification, lemmas about it, and, where the source updates
objects or buffers in place, classes and methods proved to compute that specification.

| files | what they model |
|---|---|
| `Bytes`, `Ring`, `Modular` | wire bytes, ring positions, remainders |
| `Cobs`, `CobsCodec` | the byte stuffing, on device buffers and host lists |
| `ShiftRegister`, `Crc16`, `CrcOrder`, `CrcStart` | linear check registers in the abstract, the 16-bit one, its period and its initial value |
| `Frame`, `FrameCodec`, `HostProtocol` | frames, the byte-at-a-time decoder, the host's side |
| `Conversation` | host and device together, from the handshake to the answers |
| `ErrorBound`, `BurstBound`, `AliasedFrames` | exactly which few-bit and burst errors a frame survives, and frames with two spellings |
| `SpscQueue`, `LockFreeQueue` | the queue as interleaved atomic steps, and as an object |
| `Delivery` | comms and control tasks interleaved over the queue |
| `Cli`, `CommandLine`, `Answers` | text and framed mode, the handshake, the comms tick, and which commands are answered |
| `PeriodGate`, `BackgroundRing`, `BuildOrder` | the scheduler's two phases and its build-time order |
| `Barrier`, `Lifecycle`, `Crunch` | N-core barriers, the kernel state, the crunch loop |
| `TaskTimer`, `Metrics`, `RingLogs` | window statistics, the metrics reply, the two logs |

## Findings

Properties that fail as one might first state them, each with its exact condition in the model:

- A segment that lacks a redundant closing block after a full one is accepted as well as the
  encoder's own output (`Frame.AcceptsExactly`, `AliasedFrames.AliasesExist`).
- A burst of at most 16 bits across the end of the body may escape the check, whose low byte comes
  first, in twelve ways (`BurstBound.BurstEscapesExactly`).
- After an overflow the frame decoder does not wait for the next delimiter, as its comment at
  FrameDecoder.h:97 says; it accumulates again at once (`Frame.AcceptsAnyLength`).
- After an exit request the rest of the same read still goes to the frame decoder, so splitting
  a read matters, and a handshake in it is answered without effect (`Cli.SplitExactly`,
  `Cli.HandshakeAfterExitIsLost`). A command in it is answered and queued in the next framed
  session at the earliest, after the handshake response, which is then not the only output
  (`Cli.LeftOverIsAnsweredLater`, `Cli.HandshakeOpens`).
- A completed command may get no answer (`Answers.AnswersExactly`, `Answers.ReadAnsweredExactly`):
  one that another of its kind follows before the next drain, also when the first of the two was
  read by `init`, which does not drain (`Answers.InitCommandIsOverwritten`); a frame in one read
  with an exit request behind it (`Answers.CommandsBeforeExitAreLost`); and a line in one read with
  a handshake behind it (`Answers.LinesBeforeHandshakeAreLost`). Without a mode change only the
  first can happen (`Cli.PlainTextAnsweredExactly`, `Cli.CommandSessionAnsweredExactly`).
- The background time bound needs budget sums below 2^64 (`BackgroundRing.TimeBoundExactly`),
  and a crowded ring with no gap serves every task only if their number is odd
  (`BackgroundRing.FairExactlyWhenOdd`).
- A dispatch at time 0 leaves no stamp (`PeriodGate.SpacedExactly`).
- With a full task list ControlTask is silently dropped and the build still succeeds
  (`BuildOrder.ControlFirstExactly`, `BuildOrder.DroppedControl`,
  `BuildOrder.BuildsWithoutControl`).
- Building again after a failed build finds the kernel tasks twice and fails, once the fault is
  repaired as well, unless neither of them finds room any more (`BuildOrder.RetryExactly`,
  `BuildOrder.RetryOfBuildExactly`, `BuildOrder.RetryOverFullList`).
- Automatic priorities are rate-monotonic across powers of ten only; within a band the order of
  registration decides (`BuildOrder.RateMonotonicExactly`). The comment at SystemBuilder.h:863 puts
  the longest band above 10 s; the code does above 1 s.
- The comment at SystemBuilder.h:524 gives both kernel tasks priority 0; the code gives comms 1.
- A barrier's 32-bit clock may wrap, and then gives up late (`Barrier.GivesUpExactly`) or never
  (`Barrier.GivesUpAtAllExactly`).
- A percentile may exceed the maximum of its window (`TaskTimers.WithinMaxExactly`).
- From a suspended or aborted state the shutdown phase does nothing (`Lifecycle.FinishExactly`).
  No production caller requests those states: only the tests' access structure does, at this
  commit.
- More than seven tasks leave a metrics request unanswered (`Metrics.ReplyExactly`).

## Modelling choices

- Bytes are integers below 256, the check register is a 16-bit vector, lengths and indices are
  unbounded naturals. Wrap-around is written out where the source's width can matter: the 64-bit
  budget sums and elapsed times, the 32-bit poll clock, counters and histogram, the wire widths.
- Atomics are sequentially consistent: each load, slot access and store is one step of a state
  machine, and an interleaving is any sequence of the cores' steps. The classes beside those
  machines are their uninterrupted runs.
- The environment is a parameter: bytes that arrive and how they are cut into reads, monitor
  verdicts, clocks, task running times, stop conditions, and the line grammar (`parse`), which
  the source takes from `strtol` and `strtof`.
- Floats are four opaque bytes on the wire and exact reals in the percentile.
- A registered task is a value with an id; distinct objects have distinct ids.

## Model

| member | source | states |
|---|---|---|
| Cobs.EncodeShape | include/sputteros/comms/protocol/CobsCodec.h:37-41 | an encoding holds no zero byte and has between n + 1 and n + n/254 + 1 bytes |
| Cobs.DecodeEncode | include/sputteros/comms/protocol/CobsCodec.h:62-160 | decoding undoes encoding, for every message |
| Cobs.EncodeDecode | include/sputteros/comms/protocol/CobsCodec.h:62-160 | encoding undoes decoding, except that a segment whose last block is full comes back with one more byte 0x01 |
| Cobs.DecodesToExactly | include/sputteros/comms/protocol/CobsCodec.h:110-160 | exactly which segments decode to a given message: its encoding, or that without the redundant closing block |
| Cobs.KnownEncodings | include/sputteros/comms/protocol/CobsCodec.h:62-96 | the encodings of the empty message, of a zero, of data around one, and of the longest run that fits a block |
| CobsCodec.EncodeInto | include/sputteros/comms/protocol/CobsCodec.h:62-96 | the buffer encoder writes the encoding in bounds, or nothing when the capacity is below the worst case, and touches nothing beyond its result |
| CobsCodec.DecodeInto | include/sputteros/comms/protocol/CobsCodec.h:110-160 | the buffer decoder returns the decoded bytes, or length 0 for a malformed segment or one that does not fit, and writes nothing beyond the capacity |
| CobsHost.EncodeList | tools/cli/sputterctl/cobs.py:10-42 | the host's encoder computes the same function |
| CobsHost.DecodeList | tools/cli/sputterctl/cobs.py:45-75 | the host's decoder accepts the same segments with the same result; its exception is `None` |
| Crc16.Compute | include/sputteros/comms/protocol/Crc16.h:34-55 | the register loop over a buffer computes the check function, from any initial value |
| Crc16.CrcConcat | include/sputteros/comms/protocol/Crc16.h:34-55 | a message may be checked in pieces, each seeding the next |
| Crc16.CrcIsBitSerial | include/sputteros/comms/protocol/Crc16.h:34-55 | the byte-wise loop is the bit-serial register fed most significant bit first |
| Crc16.EscapesExactly | include/sputteros/comms/protocol/Crc16.h:34-55 | exactly which changes to a message leave the check alone: those whose error pattern by itself leaves a clear register clear |
| Crc16.BurstChangesCrc | include/sputteros/comms/protocol/Crc16.h:34-55 | every burst of errors within 16 consecutive bits, so any one byte or two adjacent bytes, changes the check, whatever came before and after it |
| Crc16.CrcParity | include/sputteros/comms/protocol/Crc16.h:34-55 | the check has the parity of the message, so every odd number of flipped bits changes it |
| CrcOrder.OrderExactly | include/sputteros/comms/protocol/Crc16.h:34-55 | shifting brings every register back to where it was exactly after the multiples of 32767 shifts |
| CrcOrder.TwoFlipsEscapeExactly | include/sputteros/comms/protocol/Crc16.h:34-55 | two flipped bits of a message leave the check alone if and only if they are a multiple of 32767 bits apart |
| CrcStart.LeadingZerosExactly | include/sputteros/comms/protocol/Crc16.h:34 | zero bytes put in front of a message leave its check alone if and only if their number is a multiple of 32767 |
| CrcStart.CheckOfDigits | include/sputteros/comms/protocol/Crc16.h:34-55 | the check of the nine bytes 123456789 is 0x29B1 |
| ShiftRegister.DifferenceLaw | include/sputteros/comms/protocol/Crc16.h:34-55 | for any linear register, the difference of two runs is the run of the difference |
| ShiftRegister.BurstDetected | include/sputteros/comms/protocol/Crc16.h:34-55 | for any such register, a burst no longer than its width is never cancelled by what follows |
| Frame.RawParts | include/sputteros/comms/protocol/FrameEncoder.h:75-98 | a raw frame carries its type, number, payload, 16-bit length and a matching check at their places |
| Frame.FinishExactly | include/sputteros/comms/protocol/FrameDecoder.h:130-175 | a delimiter yields frame (t, q, p) if and only if the accumulated segment decodes to that frame's raw bytes and the payload is within the limits |
| Frame.AcceptsExactly | include/sputteros/comms/protocol/FrameDecoder.h:78-175 | exact acceptance: a segment that fits is silent until its delimiter and then yields (t, q, p) if and only if it is the encoder's output for it, or that without a redundant closing block |
| Frame.AcceptsAnyLength | include/sputteros/comms/protocol/FrameDecoder.h:78-100 | the same for segments of any length, in terms of what was accumulated since the last overflow |
| Frame.OverflowKeeps | include/sputteros/comms/protocol/FrameDecoder.h:90-99 | after an overflow accumulation restarts at once, so an overlong segment leaves its tail in the accumulator |
| Frame.SegmentAnswered | include/sputteros/comms/protocol/FrameDecoder.h:78-175 | every answer to a segment of any length: before the delimiter an error on each overflow and nothing else; on the delimiter silence if nothing is left, a frame if what is left spells one, and an error otherwise |
| Frame.StreamDelivered | include/sputteros/comms/protocol/FrameDecoder.h:78-175 | a stream of encoded frames is delivered one by one, in order, each on its own last byte, with no error among them |
| Frame.Resynchronises | include/sputteros/comms/protocol/FrameDecoder.h:78-100 | from any decoder state and after any garbage, one delimiter restores that |
| Frame.CorruptionDetected | include/sputteros/comms/protocol/FrameDecoder.h:142-151 | an intact frame does not stay intact under an odd number of bit flips anywhere, a burst within 16 bits of header and payload, or any change of the stored check alone |
| Frame.CorruptionRejected | include/sputteros/comms/protocol/FrameDecoder.h:130-175 | and the decoder answers such a frame, re-encoded, with ERROR on its delimiter and with nothing before it |
| AliasedFrames.AliasesExist | include/sputteros/comms/protocol/CobsCodec.h:110-160 | such frames exist: every 250 non-zero payload bytes can be continued by two more to a frame that the decoder also delivers from a segment without the closing block |
| BurstBound.BurstEscapesExactly | include/sputteros/comms/protocol/FrameDecoder.h:142-151 | a burst within 16 bits anywhere in a frame, its stored check included, leaves it intact if and only if it is one of twelve patterns, all of which run from the last body bytes into the check |
| BurstBound.PatternsEscape | include/sputteros/comms/protocol/FrameDecoder.h:142-151 | and each of the twelve does so in every frame |
| ErrorBound.TwoFlipsIntactExactly | include/sputteros/comms/protocol/FrameDecoder.h:142-151 | two flipped bits anywhere in a frame of any length leave it intact if and only if the powers of x that they stand for are a multiple of 32767 apart |
| ErrorBound.TwoFlipsEscapeAt4096 | include/sputteros/comms/protocol/FrameDecoder.h:142-151 | an input: in a frame of 4096 bytes the first bit and the lowest bit of the check |
| ErrorBound.FewFlipsDetected | include/sputteros/comms/protocol/FrameDecoder.h:142-151 | no frame of up to 4095 bytes stays intact under one, two or three flipped bits anywhere in it, the stored check included |
| ErrorBound.FewFlipsRejected | include/sputteros/comms/protocol/FrameDecoder.h:130-175 | and the decoder answers it with ERROR on its delimiter |
| FrameEncoding.FrameEncoder.EncodeFrame | include/sputteros/comms/protocol/FrameEncoder.h:63-110 | the encoder writes the frame's wire bytes in bounds, or nothing when payload or capacity do not allow it; a null payload adds no bytes but keeps the declared length |
| FrameEncoding.FrameEncoder.Stage | include/sputteros/comms/protocol/FrameEncoder.h:75-98 | the staging buffer holds header, payload and check |
| FrameDecoding.FrameDecoder.FeedByte | include/sputteros/comms/protocol/FrameDecoder.h:78-100 | the object with its buffers takes exactly the specified step on every byte, errors and overflow included |
| FrameDecoding.FrameDecoder.ProcessFrame | include/sputteros/comms/protocol/FrameDecoder.h:130-175 | decode, check and length tests in the code's order, with the fields an error return leaves behind |
| FrameDecoding.FrameDecoder.Reset | include/sputteros/comms/protocol/FrameDecoder.h:105-112 | a reset decoder is a fresh one |
| HostProtocol.EncodeFrame | tools/cli/sputterctl/protocol.py:82-95 | the host emits the device's wire bytes, up to the 16-bit length limit |
| HostProtocol.CrcOfList | tools/cli/sputterctl/protocol.py:64-74 | the host's check is the device's |
| HostProtocol.HostDecoder.FeedBytes | tools/cli/sputterctl/protocol.py:111-167 | the host's decoder object delivers what the listening function says, for every chunk |
| HostProtocol.ReceiversAgree | tools/cli/sputterctl/protocol.py:140-167 | host and device accept the same frames from the same segments, up to the device's payload limit and the host's list of known types |
| HostProtocol.HostHearsDevice | tools/cli/sputterctl/protocol.py:111-167 | whatever the device streams, the host's callback receives exactly, in order |
| HostProtocol.HostResynchronises | tools/cli/sputterctl/protocol.py:111-167 | whatever its buffer holds and whatever garbage it reads, after the next delimiter the host hears exactly the frames that follow |
| Conversation.HeardExactly | tools/cli/sputterctl/protocol.py:36-56 | the host hears a well-formed frame if and only if its type is one of the device's enumeration |
| Conversation.HostHearsTheDevice | tools/cli/sputterctl/protocol.py:111-167 | whatever the device reads, in any state and in any pieces, the frames that it sends are heard by the host, in order, and nothing else |
| Conversation.HelloUnderstood | tools/cli/sputterctl/protocol.py:180-211 | the device takes exactly the requests with the magic number, the host's among them, and the host reads version 1 and the magic out of its response |
| Conversation.ReceiptUnderstood | tools/cli/sputterctl/protocol.py:190-202 | the host reads out of an acknowledgement the command's id and out of a refusal its id, device and value |
| Conversation.SessionUnderstood | tools/cli/sputterctl/protocol.py:175-202 | a whole session: the host's handshake and its commands, cut into reads that hold at most one command each, are answered by the response and then, for every command in turn and under its number, by its acknowledgement or refusal |
| SpscQueue.Linearizable | include/sputteros/osal/sync/LockFreeQueue.h:94-140 | every interleaving of single loads, slot accesses and stores is, step for step, a run of a bounded first-in first-out list; a false return means the list was full, or empty, at the cross-side load |
| SpscQueue.QueueConserves | include/sputteros/osal/sync/LockFreeQueue.h:94-140 | from an empty queue, what was popped followed by what is in the ring is what was accepted, in order, and the ring never holds more than its capacity |
| SpscQueue.StepIsFifo | include/sputteros/osal/sync/LockFreeQueue.h:94-140 | one step keeps the invariant and is one step, or none, of the list |
| SpscQueue.NoSharedSlot | include/sputteros/osal/sync/LockFreeQueue.h:94-140 | the slot about to be written is never the slot about to be read |
| SpscQueue.SizeIsExactFromEitherEnd | include/sputteros/osal/sync/LockFreeQueue.h:146-153 | `size`, two loads apart, is exact for producer and consumer and never exceeds the capacity for anyone |
| LockFreeQueues.LockFreeQueue.TryPush | include/sputteros/osal/sync/LockFreeQueue.h:94-113 | an undisturbed push appends, and fails exactly when the queue is full |
| LockFreeQueues.LockFreeQueue.TryPop | include/sputteros/osal/sync/LockFreeQueue.h:127-140 | an undisturbed pop takes the oldest item, and fails exactly when the queue is empty |
| LockFreeQueues.LockFreeQueue.Size | include/sputteros/osal/sync/LockFreeQueue.h:146-153 | the size is the number of queued items |
| LockFreeQueues.LockFreeQueue.Clear | include/sputteros/osal/sync/LockFreeQueue.h:164 | clearing empties the queue |
| Delivery.EndToEnd | include/sputteros/kernel/tasks/ScheduledCommsTask.h:93-127 | in every interleaving of comms and control steps over the queue's atomic steps, what the application handled followed by what is on its way is what was acknowledged, in order; each command taken has exactly one answer, or is in the comms task's hands |
| Delivery.TicksAreBounded | include/sputteros/kernel/tasks/ScheduledControlTask.h:79-174 | no control tick handles more than its limit, an unsafe one handles nothing, and the abort flag is up exactly if some tick was unsafe |
| Delivery.MonitorsComeFirst | include/sputteros/kernel/tasks/ScheduledControlTask.h:79-92 | in every interleaving a finished tick is unsafe if and only if one of its monitors, asked in turn, objected; and no step touches the queue or hands over a command before all of them agreed |
| Delivery.TickAlone | include/sputteros/kernel/tasks/ScheduledControlTask.h:79-174 | a control tick that nothing interrupts hands over what the task over the queue object does: the oldest commands up to the limit, fewer only if the queue is then empty, and none if a monitor objects |
| Delivery.ArrivalsAreTaken | include/sputteros/kernel/tasks/ScheduledCommsTask.h:93-98 | in every run the comms task takes up each command that a read completes, once and in order |
| Delivery.AnswersAreTruthful | include/sputteros/kernel/tasks/ScheduledCommsTask.h:97-125 | a refusal means that the queue was full when the push looked, an acceptance that it grew by the command |
| Delivery.DrainTerminates | include/sputteros/kernel/tasks/ScheduledCommsTask.h:97-126 | from any reachable state seven more of its own steps finish a comms tick, whatever the other core does in between |
| CommandTasks.ControlTask.EvaluateSafety | include/sputteros/kernel/tasks/ScheduledControlTask.h:159-174 | safe exactly if no non-null monitor objects |
| CommandTasks.ControlTask.ProcessCommands | include/sputteros/kernel/tasks/ScheduledControlTask.h:138-153 | exactly the oldest commands are handled, up to the limit |
| CommandTasks.ControlTask.RunTick | include/sputteros/kernel/tasks/ScheduledControlTask.h:79-92 | an unsafe tick raises the abort and leaves the queue alone; a safe one handles the oldest commands up to the limit |
| Cli.HandshakeOpens | include/sputteros/comms/CLI.h:382-478 | in text mode with a handler and no probe, a zero and a handshake request, cut into reads in any way, end in framed mode with one response echoing the number; the line parser is untouched; it is the only output if and only if no command was left over, and one that was is then offered to the queue and answered |
| Cli.OpensExactly | include/sputteros/comms/CLI.h:382-478 | from power-on, or whenever the mode is text and no probe is in progress, framed mode is reached if and only if somewhere in the received stream the bytes between two zeros are a handshake request with the right magic, however the stream was cut |
| Cli.SyncExactly | include/sputteros/comms/CLI.h:386-426 | the probe holds exactly the bytes since the last zero, unless they were more than 64 |
| Cli.ProbedExactly | include/sputteros/comms/CLI.h:447-467 | what the probe's own decoder accepts as a request is exactly the encoding of one, after what an overflow of a small decoder drops |
| Cli.RequestOpens | include/sputteros/comms/protocol/ProtocolRouter.h:129-148 | a probed request with the right magic is dispatched and enters framed mode |
| Cli.FrameReplies | include/sputteros/comms/protocol/ProtocolRouter.h:64-93 | one frame in framed mode, over the wire: what is sent for each type, under the frame's own number, and what changes: an exit the mode, a command the slot, nothing else |
| Cli.ParserReadsLines | include/sputteros/logic/CommandParser.h:51-73 | the line parser on a whole stream: the commands that its non-empty lines spell, in order, each overlong line cut as the buffer overflows, and the rest of the last line in the buffer |
| Cli.LinesAsWritten | include/sputteros/logic/CommandParser.h:53-66 | the lines of a stream are those that were written, whichever terminator ended each |
| Cli.ZeroFreeIsBareParser | include/sputteros/comms/CLI.h:382-434 | a zero-free stream changes nothing but the line parser and the answers, and leaves the parser where the bare parser would be on the whole stream |
| Cli.PlainTextAnsweredExactly | include/sputteros/comms/CLI.h:428-432 | on a stream without a zero, so without a mode change, every completed command is answered, once and in order, if and only if no single read completed two |
| Cli.SplitExactly | include/sputteros/comms/CLI.h:494-505 | a read may be split before its last byte if and only if no exit request was read before that byte |
| Cli.HandshakeAfterExitIsLost | include/sputteros/comms/CLI.h:494-536 | a handshake request behind an exit request in one read is answered although the mode stays text |
| Cli.CommandAfterExitIsLeft | include/sputteros/comms/CLI.h:494-536 | a command behind an exit request in one read stays in its slot although the mode is text |
| Cli.LeftOverIsAnsweredLater | include/sputteros/kernel/tasks/ScheduledCommsTask.h:97-126 | and is answered and queued, or refused, after the handshake that opens the next session |
| Cli.OutOfStepExactly | include/sputteros/comms/CLI.h:494-505 | the framed loop outlives framed mode in a read exactly if it read an exit request with a handler set |
| Cli.CommandSessionAnsweredExactly | include/sputteros/comms/CLI.h:516-529 | in a framed session of command frames only, so without a mode change, every command is answered, once and in order, if and only if no single read completed two |
| Answers.AnswersExactly | include/sputteros/kernel/tasks/ScheduledCommsTask.h:79-127 | from any state, over any reads, across all mode changes and with the undrained read of `init` first: exactly which completed commands the drains take, each once and in order within its mode, namely those after which a tick ends in their own mode before another of their kind is completed and before an exit request |
| Answers.EveryCommandAnsweredExactly | include/sputteros/kernel/tasks/ScheduledCommsTask.h:79-127 | so every completed command is answered if and only if that holds of each |
| Answers.TickReplies | include/sputteros/kernel/tasks/ScheduledCommsTask.h:93-127 | a tick sends what its read sends and then one answer, to what the drain takes, and queues that if it is accepted |
| Answers.LineAnswersSent | include/sputteros/kernel/tasks/ScheduledCommsTask.h:97-126 | over a run the text answers on the stream are those to the lines taken, in order |
| Answers.DrainTakesExactly | include/sputteros/kernel/tasks/ScheduledCommsTask.h:97-126 | from any state, what one drain takes: nothing if the read held an exit request, otherwise the last command of the kind of the loop the read ended in, or the one left in that slot |
| Answers.ReadAnsweredExactly | include/sputteros/kernel/tasks/ScheduledCommsTask.h:93-127 | with nothing left over, every command of a read is answered in its tick if and only if there is at most one, a line not in a read that reaches the framed loop, a frame not in a read with an exit request |
| Answers.AnsweredInTimeExactly | include/sputteros/kernel/tasks/ScheduledCommsTask.h:93-127 | over a run of ticks with nothing left over before it, every tick answers just its own commands if and only if every read is of that kind |
| Answers.ExitDrainsNothing | include/sputteros/comms/CLI.h:331-337 | a read with an exit request is followed by no answer and queues nothing |
| Answers.CommandsBeforeExitAreLost | include/sputteros/comms/CLI.h:331-337 | inputs: any number of commands and an exit request in one read, of which only the exit is acknowledged and nothing is kept |
| Answers.LinesBeforeHandshakeAreLost | include/sputteros/comms/CLI.h:382-434 | inputs: lines and a handshake in one read, which sends the handshake response alone; the next exit erases the command |
| Answers.InitCommandIsOverwritten | include/sputteros/kernel/tasks/ScheduledCommsTask.h:79-83 | inputs: a line in the read of `init` and one in the first tick's, of which only the second is answered |
| Cli.DrainOnce | include/sputteros/kernel/tasks/ScheduledCommsTask.h:98-126 | one round of the drain loop empties the slot it looked into |
| Cli.TickKeeps | include/sputteros/kernel/tasks/ScheduledCommsTask.h:93-127 | every comms tick leaves the pending flag in step with the parser's, the probe in bounds and idle in framed mode, and no command waiting |
| CommandLine.CommandParser.FeedByte | include/sputteros/logic/CommandParser.h:51-73 | the line buffer is filled, cut and parsed in place as specified, never out of bounds |
| CommandLine.CLI.Receive | include/sputteros/comms/CLI.h:114-130 | one read of the object is the specified pass over the buffer |
| CommandLine.CLI.ProcessTextBytes | include/sputteros/comms/CLI.h:382-434 | the text loop, with its change into the framed loop in the middle of a buffer |
| CommandLine.CLI.TryHandshakeProbe | include/sputteros/comms/CLI.h:440-478 | a fresh decoder over the probe buffer, the type test and the router, in that order |
| CommandLine.CLI.ProcessFramedBytesFrom | include/sputteros/comms/CLI.h:494-505 | every byte goes to the frame decoder and every frame to its handler, whatever the mode becomes |
| CommandLine.CLI.HandleDecodedFrame | include/sputteros/comms/CLI.h:510-536 | a command of six bytes replaces the waiting one; other types go to the router |
| CommandLine.CLI.Route | include/sputteros/comms/protocol/ProtocolRouter.h:63-148 | the router's cases with the comms task's handlers, rejections included |
| CommandLine.CLI.Next | include/sputteros/comms/CLI.h:151-174 | taking a command clears the slot of the present mode |
| CommandLine.CommsTask.Init | include/sputteros/kernel/tasks/ScheduledCommsTask.h:79-83 | initialisation is one read without a drain |
| CommandLine.CommsTask.RunTick | include/sputteros/kernel/tasks/ScheduledCommsTask.h:93-127 | the tick over the real queue ends, leaves no command waiting, and acknowledges a command exactly when it went onto the queue |
| BackgroundRing.TimeBoundExactly | include/sputteros/kernel/System.h:351-381 | Phase 2 stays within the remaining gap or the head's budget, for all running times within the declared budgets, if and only if no 64-bit budget check of the tick can wrap |
| BackgroundRing.SmallBudgets | include/sputteros/kernel/System.h:366-370 | budgets that leave room for the larger of gap and head budget cannot wrap |
| BackgroundRing.TickFits | include/sputteros/kernel/System.h:349-381 | both phases fit the control budget whenever the head fits what Phase 1 left |
| BackgroundRing.RunsWhatFits | include/sputteros/kernel/System.h:349-378 | the head always runs; behind it a task runs exactly as long as its budget fits the rest of the gap, and the first that does not fit ends the tick |
| BackgroundRing.RanInOrder | include/sputteros/kernel/System.h:358-378 | each task runs at most once a tick, in ring order from the head, none being passed over before the one refused |
| BackgroundRing.NoGapTicks | include/sputteros/kernel/System.h:358-378 | with no gap and positive budgets, t ticks move the head by 2t around the ring |
| BackgroundRing.NoGapLog | include/sputteros/kernel/System.h:358-378 | and each of these ticks runs its head and nothing else |
| BackgroundRing.ServedOnce | include/sputteros/kernel/System.h:358-378 | for an odd number n of tasks, each runs in exactly one of any n such ticks |
| BackgroundRing.EvenStarves | include/sputteros/kernel/System.h:358-378 | for an even number, one of them runs in no tick of the run, however long |
| BackgroundRing.FairExactlyWhenOdd | include/sputteros/kernel/System.h:358-378 | so every task runs within n such ticks, whatever the running times within the budgets, if and only if n is odd |
| BackgroundRing.Background.RunPhase | include/sputteros/kernel/System.h:349-381 | the loop over the slot array and its round-robin index runs the specified tasks and stops where specified |
| PeriodGate.GatePaces | include/sputteros/kernel/System.h:300-317 | over any run of a clock that never reads 0 or runs back, a slot is dispatched at a tick exactly when a period has passed since every earlier dispatch, dispatches are a period apart, and ticks spanning L hold at most L / period + 1 |
| PeriodGate.SpacedExactly | include/sputteros/kernel/System.h:312-315 | from a fresh slot and any starting time, dispatches are a period apart if and only if the first tick is not at time 0 or the second is a period later |
| PeriodGate.RollsOver | include/sputteros/kernel/System.h:312-315 | exactly when a clock that runs back dispatches |
| PeriodGate.SlotsIndependent | include/sputteros/kernel/System.h:294-318 | in a run over the whole task list each slot is dispatched as if it were the only one |
| PeriodGate.UngatedRunsAlways | include/sputteros/kernel/System.h:294-321 | in a run over the whole list, whatever the clock and the stamps, a task that keeps its own period or has none is dispatched at every tick, and an empty slot at none |
| PeriodGate.Scheduler.RunPhase | include/sputteros/kernel/System.h:294-323 | one pass dispatches in list order the ungated tasks, and the gated ones that are due, stamping exactly those |
| BuildOrder.SortSorts | include/sputteros/builder/SystemBuilder.h:883-902 | the sort orders by effective priority and keeps the order of equals |
| BuildOrder.SortIsUnique | include/sputteros/builder/SystemBuilder.h:877-902 | an ordered stable rearrangement is unique, so those two properties say all |
| BuildOrder.RateMonotonicExactly | include/sputteros/builder/SystemBuilder.h:846-875 | among automatic priorities the shorter period comes first if and only if a power of ten from 10^2 to 10^6 lies between the two; all lie between the kernel's and the lowest |
| BuildOrder.AutomaticIsBand | include/sputteros/builder/SystemBuilder.h:861-874 | an automatic priority is the one of the period's order of magnitude: 2, 10, 20, 40, 80 or 160 |
| BuildOrder.OtherPriorities | include/sputteros/builder/SystemBuilder.h:846-859 | an explicit priority is kept; an unscheduled task, or one with neither priority nor period, comes last |
| BuildOrder.FasterComesFirst | include/sputteros/builder/SystemBuilder.h:883-902 | in every built list the task of the shorter such period precedes, however they were registered |
| BuildOrder.BuildsExactly | include/sputteros/builder/SystemBuilder.h:528-568 | a build succeeds if and only if some core has a task, every period keeps to the minimum, no task has two slots, every crunch core is well formed and every dependency is met |
| BuildOrder.CommsComesNext | include/sputteros/builder/SystemBuilder.h:469-490 | with room for it the comms task is on core 1, or on core 0 if there is no other or core 1 crunches, before every task whose priority is not 0 |
| BuildOrder.BuildOrders | include/sputteros/builder/SystemBuilder.h:451-568 | after build every core's list is an ordered stable rearrangement of kernel and registered tasks, and after a successful one no task has two slots |
| BuildOrder.ControlFirstExactly | include/sputteros/builder/SystemBuilder.h:469-490 | ControlTask is slot 0 of core 0 in all three layouts, even against user tasks of priority 0, if and only if the list had room; otherwise it is in no slot |
| BuildOrder.RetryExactly | include/sputteros/builder/SystemBuilder.h:459-490 | a build over lists that are valid as they stand, whatever an earlier build left in them, succeeds if and only if no kernel task that finds room is in a list already; otherwise it reports a duplicate |
| BuildOrder.RetryOfBuildExactly | include/sputteros/builder/SystemBuilder.h:459-490 | so the retry of a build, whichever kernel tasks that build placed and however its fault was repaired, succeeds if and only if neither kernel task finds room any more |
| BuildOrder.RetryOverFullList | include/sputteros/kernel/System.h:189-200 | such a retry: 254 user tasks and the kernel's fill the list, the first build fails on an unmet dependency, and the second succeeds once it is met |
| BuildOrder.DroppedControl | include/sputteros/kernel/System.h:189-200 | without room for ControlTask the build, its verdict included, is that of a system that has none |
| BuildOrder.BuildsWithoutControl | include/sputteros/kernel/System.h:189-200 | an input: one core with 255 or 256 valid user tasks builds, and no slot holds ControlTask |
| BuildOrder.RegistrationDrops | include/sputteros/kernel/System.h:175-181 | registrations beyond 256 on one core are dropped without a word |
| BuildOrder.CoreData.AddTask | include/sputteros/kernel/System.h:175-181 | appends, or does nothing on a full list |
| BuildOrder.CoreData.PrependTask | include/sputteros/kernel/System.h:189-200 | shifts the list right and inserts in front, or does nothing on a full list |
| BuildOrder.CoreData.SortByPriority | include/sputteros/builder/SystemBuilder.h:883-902 | the insertion sort in place computes the stable sort |
| BuildOrder.SystemBuilder.PlaceKernel | include/sputteros/builder/SystemBuilder.h:474-490 | kernel tasks go to the cores and places of the layout |
| BuildOrder.SystemBuilder.Check | include/sputteros/builder/SystemBuilder.h:528-568 | the validation passes report the first failure, in the code's order |
| BuildOrder.SystemBuilder.CheckUnique | include/sputteros/builder/SystemBuilder.h:696-716 | the four nested loops succeed exactly if no task has two slots |
| BuildOrder.SystemBuilder.Build | include/sputteros/builder/SystemBuilder.h:451-658 | the whole call: placement, sort and verdict, and refusal after success |
| Barrier.BarriersHold | include/sputteros/osal/sync/MultiCoreSync.h:183-235 | in every interleaving of N cores' single loads and stores: true from the startup barrier only after every core entered it, each having been READY during the call; false only with the own state at ERROR; true from the shutdown barrier only with each core in SHUTDOWN or ERROR at some moment of the call |
| Barrier.StepKeeps | include/sputteros/osal/sync/MultiCoreSync.h:183-336 | every single step keeps the invariant behind that |
| Barrier.GivesUpExactly | include/sputteros/osal/sync/MultiCoreSync.h:187-201 | an unanswered barrier gives up after exactly ceil(timeout / poll) polls if and only if the 32-bit counter does not wrap by then |
| Barrier.GivesUpAtAllExactly | include/sputteros/osal/sync/MultiCoreSync.h:187-201 | it gives up at all if and only if the timeout leaves room below 2^32 for the largest power of two dividing the interval |
| Barrier.NeverElapses | include/sputteros/osal/sync/MultiCoreSync.h:187-201 | an input on which it never gives up |
| Barrier.PollsBounded | include/sputteros/osal/sync/MultiCoreSync.h:183-235 | in every run from a fresh object no core starts more than ceil(timeout / poll) polls of one barrier, as long as the counter does not wrap by then |
| Barrier.BarrierReturns | include/sputteros/osal/sync/MultiCoreSync.h:183-235 | and every barrier entered in such a run returns within 2n + 1 of its core's own steps to a poll |
| Barrier.MachineVerdict | include/sputteros/osal/sync/MultiCoreSync.h:183-235 | in every interleaving the loads of one barrier call are those of some load function, and its result is the verdict on them |
| Barrier.VerdictUnique | include/sputteros/osal/sync/MultiCoreSync.h:183-235 | what the core reads determines that verdict and its poll |
| Barrier.MultiCoreSync.RunStartup | include/sputteros/osal/sync/MultiCoreSync.h:183-205 | the call as one core runs it, for any timeout and interval: the first poll that sees an error or everyone READY decides, unless the timeout elapses first |
| Barrier.MultiCoreSync.RunShutdown | include/sputteros/osal/sync/MultiCoreSync.h:220-235 | the same for shutdown, which succeeds on the first poll that sees everyone down |
| Lifecycle.LifecycleHolds | include/sputteros/kernel/System.h:215-257 | in every interleaving of N cores and any external requests: each change is an edge of the table, a core past init never sees a state from before RUNNING, and SHUTDOWN is absorbing |
| Lifecycle.TableExactly | include/sputteros/kernel/System.h:914-959 | the table has these thirteen edges |
| Lifecycle.NoDeadEnd | include/sputteros/kernel/System.h:914-959 | from every state SHUTDOWN can be requested to, and from all but the last two RUNNING first |
| Lifecycle.LoopsExactly | include/sputteros/kernel/System.h:450-454 | in every interleaving a core is still in its loop if and only if, whenever it looked, the kernel was running or being suspended and no stop condition held; it never returns to the loop |
| Lifecycle.StopEnds | include/sputteros/kernel/System.h:450-465 | a core told to stop is done within four more of its own steps |
| Lifecycle.InitEnds | include/sputteros/kernel/System.h:215-257 | a core that starts is through its init within five of its own steps, and the kernel then past it |
| Lifecycle.ShutdownReached | include/sputteros/kernel/System.h:457-465 | with no request but the cores' own, once any core has finished its shutdown phase the state is SHUTDOWN, whichever core got there first |
| Lifecycle.FinishExactly | include/sputteros/kernel/System.h:457-465 | undisturbed, the shutdown phase ends in SHUTDOWN exactly from RUNNING, SHUTTING_DOWN and SHUTDOWN, and otherwise leaves the state alone |
| Lifecycle.Kernel.TransitionTo | include/sputteros/kernel/System.h:914-959 | applies exactly the table's transitions and logs every other request |
| Lifecycle.Kernel.Finish | include/sputteros/kernel/System.h:457-465 | the last phase of run in place, which never asks for an invalid transition |
| Crunch.CrunchDispatcher.RunLoop | include/sputteros/kernel/CrunchDispatcher.h:102-159 | the loop ends as specified; its counters are the trailing overrun streak and the overrun total modulo 2^32; abort is called once, last, and exactly on the safety and overrun exits |
| Crunch.VerdictUnique | include/sputteros/kernel/CrunchDispatcher.h:102-159 | the exit conditions determine how and after how many iterations a run ends |
| Crunch.OverrunExitMeans | include/sputteros/kernel/CrunchDispatcher.h:140-153 | the overrun exit is taken exactly when the last K > 0 iterations all overran; until then the streak is below K, so its counter does not wrap |
| Crunch.ExitMeans | include/sputteros/kernel/CrunchDispatcher.h:111-126 | every round crunched in was active, not told to stop and not aborted; a stop exit saw the first two fail, an abort exit the third |
| Crunch.NoCrunchAfterAbort | include/sputteros/kernel/CrunchDispatcher.h:111-126 | once the safety flag stays up, no round from then on calls crunch |
| Crunch.StreakMeans | include/sputteros/kernel/CrunchDispatcher.h:140-157 | a streak of k means that the last k iterations all overran |
| TaskTimers.TaskTimer.Stop | include/sputteros/kernel/metrics/TaskTimer.h:91-121 | every sample enters the window in progress once, and the window is closed exactly when it has lasted long enough; no sample is lost or counted twice |
| TaskTimers.TaskTimer.RotateWindow | include/sputteros/kernel/metrics/TaskTimer.h:327-348 | the completed window with its average, overruns and deadline misses becomes the reported one; all accumulators start afresh |
| TaskTimers.ReportsExactly | include/sputteros/kernel/metrics/TaskTimer.h:327-348 | what a window reports, unless its counters wrapped: its smallest and largest sample, and between them an average that times their number is their sum |
| TaskTimers.BucketsExactly | include/sputteros/kernel/metrics/TaskTimer.h:106-114 | eight buckets of 512 microseconds, the last one open |
| TaskTimers.PercentileLimits | include/sputteros/kernel/metrics/TaskTimer.h:252-265 | 0 at or below p = 0 and without samples, the maximum from p = 1 on |
| TaskTimers.WindowTotals | include/sputteros/kernel/metrics/TaskTimer.h:95-114 | n * min <= sum <= n * max, and every sample is in exactly one bucket |
| TaskTimers.PercentileAccurate | include/sputteros/kernel/metrics/TaskTimer.h:252-291 | for 0 < p < 1 the percentile lies in the closed bucket of the nearest-rank sample, and within 512 microseconds of it below the last bucket |
| TaskTimers.NearestSample | include/sputteros/kernel/metrics/TaskTimer.h:267-274 | there is a sample of the nearest rank, for every 0 < p < 1 |
| TaskTimers.PercentileMonotone | include/sputteros/kernel/metrics/TaskTimer.h:252-291 | the percentile never falls as p grows below 1 |
| TaskTimers.WithinMaxExactly | include/sputteros/kernel/metrics/TaskTimer.h:277-287 | no percentile exceeds the window's maximum if and only if the maximum is in the last bucket or is the last value of its own |
| TaskTimers.MonotoneToOneExactly | include/sputteros/kernel/metrics/TaskTimer.h:262-287 | the percentile is monotone up to and including p = 1 under the same condition |
| TaskTimers.MedianAboveMax | include/sputteros/kernel/metrics/TaskTimer.h:277-287 | an input: one sample of 0 has a median of 256 |
| TaskTimers.TaskTimer.PercentileUs | include/sputteros/kernel/metrics/TaskTimer.h:252-291 | the walk over the counters computes that percentile of the shown window |
| Metrics.RoundTrip | tools/cli/sputterctl/protocol.py:266-317 | for every snapshot the host recovers each field reduced to its wire width and the tasks in order, as many as the eight-bit count says |
| Metrics.HeaderLayout | include/sputteros/comms/protocol/ResponseSerializer.h:215-238 | the header's nineteen fields, by width, order and place |
| Metrics.TaskLayout | include/sputteros/comms/protocol/ResponseSerializer.h:239-249 | and the nine of each task's entry |
| Metrics.AllTasksExactly | include/sputteros/comms/protocol/ResponseSerializer.h:286 | no task is lost if and only if there are at most 255 |
| Metrics.ReplyExactly | include/sputteros/kernel/tasks/ScheduledCommsTask.h:210-221 | with the default 256-byte payload a metrics request is answered if and only if there are at most seven tasks |
| Metrics.SerializeMetrics | include/sputteros/comms/protocol/ResponseSerializer.h:256-304 | writes exactly 66 + 26n bytes in bounds, or nothing when they do not fit |
| Metrics.DecodeMetrics | tools/cli/sputterctl/protocol.py:266-317 | the host's decoder computes the decoding function, short payloads included |
| Metrics.ValueOfLe | include/sputteros/comms/protocol/ResponseSerializer.h:187-212 | a field written in w bytes reads back modulo 256^w |
| RingLogs.OneLog | src/utils/logging/ErrorLogger.cpp:22-62 | under any run of log, take and clear, the spare-slot ring and the counted ring hold and hand out the same entries, those of the last-32 log |
| RingLogs.SpareRefines | src/utils/logging/ErrorLogger.cpp:22-62 | each operation of the spare-slot ring is that of the last-32 log |
| RingLogs.CountedRefines | src/utils/logging/TelemetryLogger.cpp:31-148 | each operation of the counted ring is that of the last-32 log |
| RingLogs.LatestSurvive | src/utils/logging/ErrorLogger.cpp:22-39 | logging onto unread entries pushes out the oldest beyond 32, and only those |
| RingLogs.CutExactly | src/utils/logging/TelemetryLogger.cpp:31-59 | a text survives whole up to 63 characters, and is cut to its first 63 otherwise |
| RingLogs.ErrorLogger.Record | src/utils/logging/ErrorLogger.cpp:22-39 | the oldest entry gives way on a full ring |
| RingLogs.ErrorLogger.Read | src/utils/logging/ErrorLogger.cpp:41-53 | takes the oldest unread entry, or reports none |
| RingLogs.ErrorLogger.Count | src/utils/logging/ErrorLogger.cpp:55-60 | the number of unread entries |
| RingLogs.TelemetryLogger.Record | src/utils/logging/TelemetryLogger.cpp:31-59 | the same on the counted ring, with the text cut to 63 characters |
| RingLogs.TelemetryLogger.Drain | src/utils/logging/TelemetryLogger.cpp:65-106 | hands the writer exactly the entries at or below the threshold, in order, and leaves the log empty; without a writer it does nothing |
| RingLogs.VisibleExactly | src/utils/logging/TelemetryLogger.cpp:77-102 | an entry is emitted if and only if it is in the log and not above the threshold |

## Left out

- Weak memory: acquire and release orderings are not distinguished; all steps are sequentially consistent.
- Queue `clear` while the other side runs, and `reset` of the whole system: the code asks for quiescence.
- Concurrent use of the two logs, and the telemetry mutex, whose lock result the code ignores: sequential claims only.
- Text formatting (acknowledgement lines, drained telemetry, the performance report), serial and socket transport, the host's command line and display.
- `strtol` and `strtof`: the line grammar is an arbitrary partial function from lines to commands.
- IEEE rounding in percentile, average and utilisation: exact arithmetic instead.
- Utilisation warnings, clock and window propagation, and the monitored-task list at build: they do not affect the order or the verdict. Build capacity of the background ring is not modelled.
- Rollover and deadline-miss logging, utilisation, queue and health sampling in `tick`.
- AtomicDoubleBuffer, WatchdogSync, InterlockManager, MemoryProfiler, DeadlineTracker, PID control and the HAL: easy claims, or not part of the four cores.
- `waitForCore` of MultiCoreSync, READY set directly instead of by the startup barrier, and the core error handler callback.
- CommandLine.CLI.SendFrame: the sent log holds the frame's fields; that its bytes are the encoder's is FrameEncoding.FrameEncoder.EncodeFrame's contract.
- Metrics.Writer.Put: multi-byte fields are copied in little-endian order, as on the machines the kernel targets.
- Barrier.MultiCoreSync.RunStartup: the loads of other cores' states are a parameter, since no other core runs inside the call, and it stops after a given number of delays, since it may otherwise not end; that the interleaved machine gives the same verdict is Barrier.MachineVerdict.
