# Bus test platform: a verified model

A Dafny model of the data path of the bus test platform, with proofs of what
that path promises. Check it with `dafny verify dfyconfig.toml`.

| part | files |
|---|---|
| capture path: lock-free ring, worker, consumer, traffic generator | `SpscRing`, `SpscQueue`, `RingWrap`, `Pipeline`, `Capture`, `CaptureLife`, `CaptureStream`, `CaptureService`, `SimDevice` |
| DBC text to signal values | `DbcModel`, `DbcText`, `DbcParser`, `DbcRoundTrip`, `DbcLaws`, `DbcDecimal`, `Bits`, `CanDecoder` |
| periodic schedulers and the error injector | `RbsScheduler`, `TxScheduler`, `TxLatency`, `TxResponse`, `TxWrap`, `ErrorInjector` |
| USB link codec, host and device | `UsbWire`, `UsbHost`, `UsbFirmware`, `UsbAgreement` |
| shared vocabulary | `BusTypes`, `Arith` |

## How it is built

**Ring.** `SpscRing` has one action per load, test, slot access and publication
of `push` and `pop`; a run is any sequence of actions, so every interleaving of
the two threads is covered. A load of the other thread's counter returns any
value between the newest one this thread has seen and the current one. The same
step function has unbounded counters (`m == 0`) or counters modulo `m`.
`Pipeline` is the object itself, with 64-bit counters; each of its methods is
proved equal to its own actions run one after the other.

**Capture.** `Capture` adds `start`, `stop` and the worker to the ring as one
step system: every atomic operation is a step of its own, a device read returns
any batch, and the worker may read a stale `running_`. `CaptureStream` puts the
simulated device behind it: a read returns what the device's clock and counter
say, and opening a closed device restarts its frame numbers. `CaptureLife` shows
that `stop` and `start` get where they are meant to.

**DBC.** The parser methods consume a token stream and grow the message list in
place, each proved against a function on the text. The number type is a
parameter `N` with a reader and a writer; `DbcDecimal` supplies decimal
literals. `DbcLaws` states what lines, blanks, tokens and numbers mean in the
characters themselves. The bit loops of the decoder are proved equal to arithmetic on the
payload read as one integer.

**Hardware.** A step is one rising clock edge, all registers taking their new
values together; each always-block is a method. `TxLatency` and `TxResponse` let
the tick advance by one each edge, up to its wrap; `TxWrap` lets it wrap.

**USB.** `UsbWire` says once what a packet is as bytes. The host methods write
into and read from possibly null arrays with `memcpy`-like copies, the device
methods with byte loops, and both are proved against `UsbWire`. `UsbAgreement`
runs operations of both sides together. A frame is `size` bytes copied
verbatim, 16 frames fitting the 16-bit length field.

## Assumptions

- A slot copy completes before the counter that publishes it is stored, and
  loads of one atomic variable by one thread never go backwards (read-read
  coherence). `pop` relies on the second point, because it tests `h == t`:
  `SpscQueue.EmptyPopNeedsCoherence`.
- One thread calls `start` and `stop`, one thread calls `pop`, and the pipeline
  is neither reset nor the device reopened while frames are in flight.
- In the timing theorems of the TX scheduler the tick advances by one each cycle
  (the timestamp counter runs on the same clock; PPS corrections are left out).
- Clock readings are parameters. `unsigned long` has 64 bits.
- The channel mask of the generator has a bit in 0..7 (with none, the source
  divides by zero).
- The deadlines a restbus tick stores fit 64 bits (the catch-up loop need not
  end otherwise).
- A configuration write of the TX scheduler never meets the acknowledge of the
  same slot: both always-blocks drive its `next`, in no defined order.

## Where the code and its documentation differ

The model follows the code.

- `size_t` counters index slots by `t % capacity`. First-in first-out survives
  a counter wrap exactly when the capacity divides 2^64
  (`RingWrap.FifoForEverIffCapacityDivides`).
- can_decoder.h says bits beyond the frame read as 0. A Motorola signal that
  runs past the frame yields its in-frame bits unshifted. The promise holds for
  every payload exactly of Intel signals and of Motorola signals within the
  frame or wholly beyond it (`CanDecoder.ReadsAsPaddedIff`); 8 bits from bit 4 of
  the frame FF read as 0F (`CanDecoder.ShortMotorolaFrame`).
- rbs_scheduler.h says "no burst after stalls". The catch-up loop emits every
  missed frame in one tick: a tick sends at most one frame of each task exactly
  when the clock is less than a period past each deadline
  (`RbsScheduler.TickBurstFreeIff`), and a 1 kHz task ticked at 0 and 5 ms sends
  five at once (`RbsScheduler.StallBursts`).
- usb_device_sim.h calls runs deterministic per seed. Reopening restarts the
  frame numbers but not the payload generator. A session repeats the one before
  if the generator is back where it was, so if no payload byte was drawn
  (`SimDevice.UnusedGeneratorRepeats`); with the default seed and one frame of
  one byte it does not (`SimDevice.ReopenDiffers`).
- The codec header says both sides agree byte for byte. The device refuses
  events of 65 to 256 payload bytes that the host encodes
  (`UsbAgreement.SameEvents`).
- tx_scheduler.v says all slots are scanned. Slot 0 is never examined, and the
  scan restarts after every dispatch. It gets past slot k exactly when what slots
  1 to k have asked for has been worked off (`TxResponse.ScanGetsPastIff`): once
  they are due and ask for all cycles, j + 1 per period of slot j, no slot above
  is dispatched until the tick counter wraps (`TxResponse.OverloadStarves`); two
  slots of period 4 are enough (`TxResponse.TwoSlotsOverload`), and so is one slot
  k of period k + 1 (`TxLatency.HighSlotsStarve`).
- Comparing ticks with `>=` fails at the wrap of the 32-bit tick in two ways.
  A stored deadline that wraps makes its slot due at once
  (`TxScheduler.EarlyIffFirstDeadlineWraps`,
  `TxScheduler.DueAgainIffDeadlineWrapsOrCame`); an edge keeps the dispatch
  accounting exactly when it stores none (`TxScheduler.AdvanceInvIff`). And a
  deadline that does not wrap can be missed: a lone slot is dispatched before the
  wrap exactly when the scan comes by between its deadline and the last tick, and
  where the scan's turn divides the tick range, as on the board, it is otherwise
  never dispatched again (`TxWrap.DispatchedBeforeTheWrapIff`,
  `TxWrap.EverDispatchedIff`). Slot 1 written at tick 0 with the longest period is
  lost that way (`TxWrap.LongestPeriodIsLost`).
- tx_scheduler.v claims bounded jitter. Before the tick wraps, a lone slot k
  stays within one turn of its deadlines exactly when its period is at least
  k + 1 cycles (`TxLatency.LatenessBoundedIff`).
- The DBC grammar comment lists range and unit as if independent. The token
  after the factor is consumed whether or not it is a range: a unit is kept
  exactly when one word stands before it, apart by blanks only, or it is empty
  (`DbcRoundTrip.UnitKeptIff`). Without a word, behind two, or grown together
  with one it is lost (`DbcRoundTrip.UnitLosers`, `DbcRoundTrip.UnitExamples`).

## Model

| member | source | states |
|---|---|---|
| SpscRing.NextInv | software/src/data/pipeline.cpp:9-33 | every atomic step of either thread, with any stale load, keeps: 0 <= tail - head <= capacity, live slots hold the accepted frames, popped frames are the accepted ones in order |
| SpscRing.RunInv | software/src/data/pipeline.cpp:9-33 | the same for every interleaving of any length |
| SpscQueue.NextRefines | software/src/data/pipeline.cpp:9-33 | each step is a step of a bounded queue that accepts when a place is known to be free and refuses, counting, when none is |
| SpscQueue.RunRefinesQueue | software/src/data/pipeline.cpp:9-33 | every run of the two threads is a run of that queue |
| SpscQueue.RingSafety | software/src/data/pipeline.cpp:9-33 | in every reachable state consumed frames followed by the contents are the accepted frames, the bounds hold, and the slot being written is not the slot being copied out |
| SpscQueue.DropExactlyWhenFull | software/src/data/pipeline.cpp:10-15 | with a fresh load of head a frame is dropped if and only if the ring is full; a full ring never accepts one |
| RingWrap.NextWraps | software/src/data/pipeline.cpp:12-17 | one step of the ring with counters modulo m is the wrap of one step of the unbounded ring, if capacity divides m or tail has not wrapped |
| RingWrap.RunWraps | software/src/data/pipeline.cpp:12-17 | so for whole runs |
| RingWrap.WrapLosesAFrame | software/src/data/pipeline.cpp:12-17 | for every capacity that does not divide m, a run that overwrites a frame not yet consumed |
| RingWrap.FifoForEverIffCapacityDivides | software/src/data/pipeline.cpp:12-30 | all runs of the wrapping ring are first-in first-out if and only if capacity divides the counter modulus |
| RingWrap.PushCallEffect | software/src/data/pipeline.cpp:9-19 | the atomic steps of an undisturbed push, run in order, have the effect of the whole call |
| RingWrap.PopCallEffect | software/src/data/pipeline.cpp:25-32 | likewise for pop |
| Pipelines.Pipeline.constructor | software/src/data/pipeline.cpp:6-7 | a fresh pipeline is the initial ring; capacity 0 becomes 1 |
| Pipelines.Pipeline.Push | software/src/data/pipeline.cpp:9-19 | accepts iff not full, else counts one drop; appends exactly the frame while no two live counters share a slot; equals its atomic steps |
| Pipelines.Pipeline.Pop | software/src/data/pipeline.cpp:21-33 | a null target or an empty ring changes nothing observable; otherwise delivers the oldest frame and leaves the rest in order; equals its atomic steps |
| Pipelines.Pipeline.Size | software/src/data/pipeline.cpp:35-39 | the number of frames held, across a counter wrap |
| Pipelines.Pipeline.Empty | software/src/data/pipeline.cpp:41 | true iff nothing is held |
| Pipelines.Pipeline.Reset | software/src/data/pipeline.cpp:43-47 | empties the queue, clears the drop count, leaves the slots |
| Pipelines.SlotsStayApart | software/src/data/pipeline.cpp:12-16 | the slot about to be written is none of the occupied ones |
| Capture.RunInv | software/src/data/capture_service.cpp:12-50 | in every run: at most one worker, counters agree with the ring at each point of the batch loop, accepted frames sit at increasing stream positions |
| Capture.RunWraps | software/src/data/capture_service.cpp:33-50 | the whole system over a wrapping ring is the wrap of the system over the unbounded one |
| Capture.NoDropMeansPrefix | software/src/data/capture_service.cpp:38-43 | with no drop the consumed frames are a prefix of the device stream |
| Capture.CaptureSafety | software/src/data/capture_service.cpp:12-50 | for every run, any device and any counter width: one worker; once stopped, handed over = offered = pushed + dropped and pushed = popped + held; the consumer sees an in-order subsequence of what was handed over, a prefix if nothing was dropped |
| CaptureLife.StopCompletes | software/src/data/capture_service.cpp:24-31 | in every reachable state with a running service and an idle controller: stop clears the flag and waits, and from there worker steps, at most those of the batch in hand and never more than 1796, and the join reach a stop with that batch offered to the last frame and its poll counted |
| CaptureLife.WorkerWindsDown | software/src/data/capture_service.cpp:33-50 | every worker step but a stale test of the flag brings it closer to leaving its loop, whatever device and consumer do |
| CaptureLife.WindDownEnabled | software/src/data/capture_service.cpp:33-50 | and with the flag cleared such a step is always possible |
| CaptureLife.StartCompletes | software/src/data/capture_service.cpp:12-22 | from every reachable stopped state start opens the device, raises the flag and sets a worker going, and changes nothing else |
| CaptureLife.RefusedCalls | software/src/data/capture_service.cpp:13-18 | a device that does not open, start while running and stop while stopped leave everything as it was |
| CaptureStream.LiveRunIsARun | software/src/data/capture_service.cpp:12-50 | every run with the simulated device behind the worker is a run of the capture system |
| CaptureStream.RunHanded | software/src/data/capture_service.cpp:36-37 | in every run the frames handed over are the device's stream from where it stood, as many as its own counter says |
| CaptureStream.GeneratorToConsumer | software/src/data/capture_service.cpp:12-50 | over every run: once stopped, generated = offered = pushed + dropped and pushed = popped + held; popped frames are generator frames of strictly increasing numbers, and exactly the first ones if nothing was dropped |
| CaptureWorker.CaptureService.Offer | software/src/data/capture_service.cpp:39-42 | offered rises by one; pushed or dropped rises by one according to room |
| CaptureWorker.CaptureService.OfferAll | software/src/data/capture_service.cpp:38-43 | undisturbed, the loop accepts exactly the frames of the batch that fit, in order, and drops the rest; the counters follow |
| CaptureWorker.CaptureService.PollCycle | software/src/data/capture_service.cpp:36-44 | one cycle reads the frames due at the device, at most 256, and offers them: queue, device counter and statistics after it |
| SimDevice.SimUsbDevice.constructor | software/src/hal/usb/usb_device_sim.cpp:8-19 | a valid configuration is kept, a zero rate or mask becomes 1 and a dlc over 64 becomes 64; the generator starts from the seed, or from 1 |
| SimDevice.DueIsExactIffItFits | software/src/hal/usb/usb_device_sim.cpp:63-66 | the split 64-bit product is elapsed * rate / 10^9 modulo 2^64, so exact if and only if the true count fits 64 bits |
| SimDevice.PrngNeverZero | software/src/hal/usb/usb_device_sim.cpp:97-99 | from a non-zero seed the xorshift state is never 0 |
| SimDevice.SimUsbDevice.Open | software/src/hal/usb/usb_device_sim.cpp:27-33 | frame numbers restart; the payload generator continues after all bytes drawn in the session before |
| SimDevice.SimUsbDevice.EnabledChannels | software/src/hal/usb/usb_device_sim.cpp:76-83 | the loop lists the enabled channels |
| SimDevice.ChannelsAreTheSetBits | software/src/hal/usb/usb_device_sim.cpp:76-83 | those are exactly the channels whose binary digit in the mask is 1, each once, ascending |
| SimDevice.ChannelsMakeUpTheMask | software/src/hal/usb/usb_device_sim.cpp:78-82 | the sum of 2^c over the first n channels' list is the mask modulo 2^n |
| SimDevice.MaskFive | software/src/hal/usb/usb_device_sim.cpp:78-82 | mask 5 enables channels 0 and 2 |
| SimDevice.FrameContents | software/src/hal/usb/usb_device_sim.cpp:87-103 | frame k of a session: a channel below 8 whose mask digit is 1, identifier (base + k) mod 2^32, time stamp in 100 ns, received, good, the configured kind and length |
| SimDevice.FramePayload | software/src/hal/usb/usb_device_sim.cpp:96-101 | its payload: a byte of each next generator state, stepped on from the frames before, then zeros |
| SimDevice.NextIdFollows | software/src/hal/usb/usb_device_sim.cpp:92-104 | consecutive identifiers differ by 1 modulo 2^32 |
| SimDevice.ChannelsTakeTurns | software/src/hal/usb/usb_device_sim.cpp:90 | among as many consecutive frames as channels are enabled, every enabled channel occurs exactly once |
| SimDevice.SimUsbDevice.DrawPayload | software/src/hal/usb/usb_device_sim.cpp:96-101 | dlc bytes, each the top byte of the next generator state, zero filled |
| SimDevice.SimUsbDevice.ReadFrames | software/src/hal/usb/usb_device_sim.cpp:54-108 | returns min(due - generated, limit) frames when any are due; each is the stream frame of its own number (id, channel rotation, payload block); the rest of the array is untouched |
| SimDevice.SimUsbDevice.Produce | software/src/hal/usb/usb_device_sim.cpp:85-106 | the loop writes the stream frames from number `generated` on |
| SimDevice.SessionIsTheStream | software/src/hal/usb/usb_device_sim.cpp:54-108 | any sequence of reads with any limits returns the stream, time stamps apart |
| SimDevice.ChunkingIndependent | software/src/hal/usb/usb_device_sim.cpp:54-108 | two ways of cutting the reads agree on every frame both return |
| SimDevice.SessionNeverOverruns | software/src/hal/usb/usb_device_sim.cpp:67-75 | the total never passes what was due, and a last read with room catches up exactly |
| SimDevice.UnusedGeneratorRepeats | software/src/hal/usb/usb_device_sim.cpp:27-33 | a reopened device repeats its stream if no payload byte was drawn before |
| SimDevice.RestoredGeneratorRepeats | software/src/hal/usb/usb_device_sim.cpp:27-33 | and whenever the generator is back in the state of the last open |
| SimDevice.ReopenDiffers | software/src/hal/usb/usb_device_sim.h:30-31 | with the default seed and one one-byte frame it does not: payload byte DC becomes 64 |
| DbcText.LinesOfUnlines | software/src/protocol/dbc/dbc_parser.cpp:73-75 | splitting joined lines gives the lines back |
| DbcLaws.LinesMakeUpTheText | software/src/protocol/dbc/dbc_parser.cpp:75 | the lines of a text, each with its line break, give the text back, a last line without one included |
| DbcLaws.UnterminatedParses | software/src/protocol/dbc/dbc_parser.cpp:75 | a text without a final line break parses like the text with it |
| DbcLaws.TrimLaw | software/src/protocol/dbc/dbc_parser.cpp:24-31 | spaces, tabs, carriage returns and line feeds around a text are cut off, and nothing else |
| DbcLaws.BlanksDoNotMatter | software/src/protocol/dbc/dbc_parser.cpp:76-80 | so indentation and carriage returns never change what a line does |
| DbcLaws.OtherKeywordsAreSkipped | software/src/protocol/dbc/dbc_parser.cpp:76-93 | a line that does not begin with exactly a keyword and its blank changes nothing |
| DbcLaws.TokenLaw | software/src/protocol/dbc/dbc_parser.cpp:100-104 | reading a word skips whitespace of the C locale and takes all up to the next one; on whitespace alone it fails |
| DbcLaws.HexReads | software/src/protocol/dbc/dbc_parser.cpp:39 | hexadecimal with 0x or 0X in either case is read, cut to 32 bits, and refused past 64 |
| DbcLaws.OctalReads | software/src/protocol/dbc/dbc_parser.cpp:39 | likewise octal with a leading zero |
| DbcLaws.DecimalReads | software/src/protocol/dbc/dbc_parser.cpp:39-44 | likewise decimal of any length |
| DbcLaws.SignedReads | software/src/protocol/dbc/dbc_parser.cpp:39-44 | a plus sign is skipped, a minus sign negates modulo 2^64 |
| DbcLaws.StrayCharacterRefused | software/src/protocol/dbc/dbc_parser.cpp:34-42 | nothing, or a stray character behind sign and prefix, is refused |
| DbcText.ParseU32Show | software/src/protocol/dbc/dbc_parser.cpp:33-48 | a printed 32-bit number is read back, base prefix rules included |
| DbcText.TokenRead | software/src/protocol/dbc/dbc_parser.cpp:100-104 | a printed word is read back as one token, the rest of the stream untouched |
| DbcParsing.DbcParser.ParseBo | software/src/protocol/dbc/dbc_parser.cpp:98-139 | the token-consuming method stores a message or reports an error exactly as the line says, and stores nothing on error |
| DbcParsing.DbcParser.ReadSgName | software/src/protocol/dbc/dbc_parser.cpp:155-175 | name with or without glued colon and multiplexer marker, with each error case |
| DbcParsing.NameForms | software/src/protocol/dbc/dbc_parser.cpp:155-175 | a separate colon, a glued colon and a multiplexer marker before the colon leave the same name and the same remainder |
| DbcLaws.BoNameForms | software/src/protocol/dbc/dbc_parser.cpp:108-116 | a message's colon may be glued on or stand apart, and must be there |
| DbcLaws.NameRefused | software/src/protocol/dbc/dbc_parser.cpp:158-174 | any other word behind a signal's name, a marker without colon, or nothing is refused, each with its own error |
| DbcLaws.GeometryLaw | software/src/protocol/dbc/dbc_parser.cpp:185-207 | for all 32-bit numbers: the start bit is cut to a byte, the length clamped to 64, `@0` is Intel order and `-` signed |
| DbcLaws.GeometryOutOfOrder | software/src/protocol/dbc/dbc_parser.cpp:185-190 | a geometry whose at sign comes before its bar is refused |
| DbcLaws.GeometryBadNumber | software/src/protocol/dbc/dbc_parser.cpp:193-197 | so is one with an unreadable number |
| DbcLaws.GeometryTooShort | software/src/protocol/dbc/dbc_parser.cpp:200-203 | and one without order and sign |
| DbcLaws.FactorOutOfOrder | software/src/protocol/dbc/dbc_parser.cpp:214-219 | a factor token whose brackets are the wrong way round is refused |
| DbcLaws.FactorWithoutComma | software/src/protocol/dbc/dbc_parser.cpp:220-227 | so is one without a comma |
| DbcLaws.BoRefused | software/src/protocol/dbc/dbc_parser.cpp:104-132 | BO_ lines with too few words, a bad identifier or a bad length |
| DbcLaws.SgCutShort | software/src/protocol/dbc/dbc_parser.cpp:150-213 | SG_ lines that end too early |
| DbcLaws.RefusedLines | software/src/protocol/dbc/dbc_parser.cpp:85-132 | a signal before any message, and a message of more than 64 bytes, are refused |
| DbcLaws.BareSignal | software/src/protocol/dbc/dbc_parser.cpp:229-257 | without range and unit a signal has range 0 to 0 and no unit |
| DbcParsing.DbcParser.ParseSg | software/src/protocol/dbc/dbc_parser.cpp:141-261 | likewise for signal lines; on success exactly the last message grows, by one signal |
| DbcParsing.DbcParser.ParseOne | software/src/protocol/dbc/dbc_parser.cpp:76-93 | blank, comment and unknown lines are skipped, BO_ and SG_ lines dispatched, SG_ before any BO_ refused |
| DbcParsing.DbcParser.Parse | software/src/protocol/dbc/dbc_parser.cpp:71-96 | the in-place line loop computes the fold of the line step over the lines of the text |
| DbcParsing.DbcParser.FindById | software/src/protocol/dbc/dbc_parser.cpp:263-270 | the first message with the identifier, or none exists |
| DbcParsing.ParseKeepsBounds | software/src/protocol/dbc/dbc_parser.cpp:129-199 | whatever the text, stored dlc <= 64, signal length <= 64, start < 256, id < 2^32 |
| DbcParsing.SkippableLinesDoNotMatter | software/src/protocol/dbc/dbc_parser.cpp:75-93 | inserting or deleting blank, comment and unknown-keyword lines anywhere changes neither messages nor outcome |
| DbcParsing.FailureKeepsThePrefix | software/src/protocol/dbc/dbc_parser.cpp:80-92 | on failure the stored messages are exactly the parse of the lines before the failing one |
| DbcRoundTrip.ParsePrint | software/src/protocol/dbc/dbc_parser.cpp:71-261 | for every printable message list, parsing its canonical text succeeds and returns exactly that list |
| DbcRoundTrip.PrintInjective | software/src/protocol/dbc/dbc_parser.cpp:71-261 | the canonical text determines the list |
| DbcLaws.ParsePrintUnterminated | software/src/protocol/dbc/dbc_parser.cpp:71-96 | the round trip also holds for the canonical text without its last line break |
| DbcRoundTrip.LeadingUnitIsLost | software/src/protocol/dbc/dbc_parser.cpp:229-257 | a unit with nothing before it is lost, whatever it contains and whatever quote-free text follows |
| DbcRoundTrip.UnitBehindAWordIsKept | software/src/protocol/dbc/dbc_parser.cpp:229-257 | one separate word before the unit, a range or not, keeps it, spaces in the unit included |
| DbcRoundTrip.UnitKeptIff | software/src/protocol/dbc/dbc_parser.cpp:229-257 | for any quote-free text between factor and unit: the unit is read if its first word stands apart from the unit by blanks only, and is lost altogether otherwise; so it is kept if and only if that holds or it is empty |
| DbcRoundTrip.UnitLosers | software/src/protocol/dbc/dbc_parser.cpp:229-257 | a second word before the unit loses it, and so does a word grown together with it |
| DbcRoundTrip.UnitExamples | software/src/protocol/dbc/dbc_parser.cpp:248-257 | `"km h"` behind the factor is lost, behind one word it is kept, behind two it is lost |
| DbcDecimal.DecimalsReadBack | software/src/protocol/dbc/dbc_parser.cpp:50-61 | decimal literals are a number format whose reader undoes its writer |
| DbcDecimal.ValueLaw | software/src/protocol/dbc/dbc_parser.cpp:50-61 | a literal is the number its digits make, the point moved left by as many places as digits follow it, with its sign |
| DbcDecimal.FracTextReads | software/src/protocol/dbc/dbc_parser.cpp:50-61 | those digits, as written, read as that number |
| DbcDecimal.TextToPhysical | software/src/protocol/dbc/dbc_parser.cpp:71-261 | print, parse, decode: every signal within the frame has its field times the factor plus the offset written for it |
| CanDecoder.ExtractIntel | software/src/protocol/can/can_decoder.cpp:17-29 | the loop equals (payload as little-endian integer / 2^start) mod 2^len for any dlc, bits beyond it 0 |
| CanDecoder.ExtractMotorola | software/src/protocol/can/can_decoder.cpp:30-43 | the loop equals the in-frame field of the payload as a big-endian integer |
| CanDecoder.ExtractRaw | software/src/protocol/can/can_decoder.cpp:6-45 | null data and length 0 give 0, lengths clamp to 64, the result fits the field width |
| CanDecoder.FittingMotorola | software/src/protocol/can/can_decoder.cpp:33-42 | for a signal within the frame that field is (big-endian payload / 2^(8 dlc - start - len)) mod 2^len |
| CanDecoder.ReadsAsPaddedIff | software/src/protocol/can/can_decoder.h:33 | for all payloads of dlc bytes extraction equals extraction from the zero-padded frame, if and only if the signal is Intel, within the frame, wholly beyond it, or empty |
| CanDecoder.BeyondFrameReadsZeroIff | software/src/protocol/can/can_decoder.cpp:30-43 | payload by payload: a Motorola signal across the frame end agrees with the padded frame only when its in-frame bits are all 0 |
| CanDecoder.ShortMotorolaFrame | software/src/protocol/can/can_decoder.cpp:34-42 | an input that breaks the promise: 8 bits from bit 4 of the frame FF |
| CanDecoder.OnlyItsOwnBits | software/src/protocol/can/can_decoder.cpp:17-43 | payloads that agree on the signal's in-frame bits give the same value |
| CanDecoder.SignExtendIsSigned | software/src/protocol/can/can_decoder.cpp:47-56 | the extended 64-bit word reread as signed is the two's complement value of the field |
| CanDecoder.DecodeFrame | software/src/protocol/can/can_decoder.cpp:58-77 | fails iff the target is null; otherwise one value per signal, in order, replacing what was there |
| CanDecoder.DecodedValue | software/src/core/signal.h:26-32 | a fitting signal's physical value is v * factor + offset, v its signed or unsigned field |
| CanDecoder.DecodedRaw | software/src/protocol/can/can_decoder.cpp:65-72 | its raw value is v modulo 2^64 |
| CanDecoder.ScalingLaw | software/src/core/signal.h:26-32 | field 0 gives the offset and one step of the field adds the factor |
| CanDecoder.EngineTemperature | software/src/core/signal.h:26-32 | factor 1, offset -40, raw 96 hexadecimal give 110 |
| Bits.LittleEndianBit | software/src/protocol/can/can_decoder.cpp:20-26 | bit j of the little-endian payload integer is bit j mod 8 of byte j / 8 |
| Bits.BigEndianBit | software/src/protocol/can/can_decoder.cpp:35-40 | the same for the big-endian integer, bytes counted from the end |
| RbsScheduler.RbsScheduler.Reset | software/src/engine/rbs/rbs_scheduler.cpp:6-10 | every task loses its anchor and nothing else |
| RbsScheduler.RbsScheduler.RemoveTask | software/src/engine/rbs/rbs_scheduler.cpp:16-24 | removes the first task with this identifier and channel and only it; false iff there is none |
| RbsScheduler.RbsScheduler.Tick | software/src/engine/rbs/rbs_scheduler.cpp:28-58 | as long as the deadlines stored fit 64 bits: new table and appended frames in closed form, task by task; a null target changes nothing |
| RbsScheduler.CatchUp | software/src/engine/rbs/rbs_scheduler.cpp:43-55 | the catch-up loop ends at the first deadline after now, having emitted one frame per deadline passed |
| RbsScheduler.EmittedClosedForm | software/src/engine/rbs/rbs_scheduler.cpp:34-55 | over any, even non-monotone, ticks an active task anchored at a has emitted floor((M - a) / p) frames, M the latest time, and its next deadline is a + (emitted + 1) p > M |
| RbsScheduler.InactiveEmitsNothing | software/src/engine/rbs/rbs_scheduler.cpp:34-36 | disabled and zero-period tasks emit nothing and stay as they are |
| RbsScheduler.OnlyTemplates | software/src/engine/rbs/rbs_scheduler.cpp:45-53 | over any run a task's frames, time stamps apart, are copies of its template, as many as counted |
| RbsScheduler.FrameCarriesTheTask | software/src/engine/rbs/rbs_scheduler.cpp:45-51 | an emitted frame has the task's identifier, channel and bus, is sent with a standard identifier, FD on CAN FD and CAN XL, carries at most 64 bytes with zeros behind, stamped in 100 ns |
| RbsScheduler.TickOutput | software/src/engine/rbs/rbs_scheduler.cpp:33-56 | in a tick's output the frames of task i follow those of the tasks before it, one per deadline passed, each such a frame |
| RbsScheduler.SplitIffAnchored | software/src/engine/rbs/rbs_scheduler.cpp:37-55 | tick(t1) then tick(t2) equals tick(t2) alone if and only if the task is anchored or inactive, or t1 = t2 |
| RbsScheduler.ScheduleIrrelevant | software/src/engine/rbs/rbs_scheduler.cpp:28-58 | once all are anchored, any schedule of ticks leaves the table, and emits per task as many frames, as one tick at its latest time |
| RbsScheduler.NoBurstIff | software/src/engine/rbs/rbs_scheduler.cpp:43-55 | a tick emits at most one frame of a task if and only if it is inactive, unanchored, or less than a period past its deadline |
| RbsScheduler.TickBurstFreeIff | software/src/engine/rbs/rbs_scheduler.h:5 | a whole tick sends no two frames of one task if and only if every task keeps up |
| RbsScheduler.StallBursts | software/src/engine/rbs/rbs_scheduler.h:5 | an input that bursts: a 1 kHz task ticked at 0 and 5 ms sends five frames at once |
| TxScheduler.TxScheduler.constructor | hardware/fpga/src/tx_scheduler.v:36-52 | reset state |
| TxScheduler.TxScheduler.ScanBlock | hardware/fpga/src/tx_scheduler.v:48-72 | one edge of the scan machine |
| TxScheduler.TxScheduler.ConfigBlock | hardware/fpga/src/tx_scheduler.v:35-45 | one edge of the configuration block |
| TxScheduler.TxScheduler.Posedge | hardware/fpga/src/tx_scheduler.v:35-72 | both blocks at one edge, a write and an acknowledge of different slots included, are the step function the run theorems are about |
| TxScheduler.AdvanceInvIff | hardware/fpga/src/tx_scheduler.v:41-71 | an edge of the closed loop, with any slot written or rewritten, keeps per slot: next deadline = configured tick + (dispatches + 1) periods, one more if the write met a dispatch of the slot; if and only if the edge stores no deadline that wraps |
| TxScheduler.NeverEarlyNeverTwice | hardware/fpga/src/tx_scheduler.v:48-72 | in every state reached without a wrapping deadline a slot configured at b0 has at most floor((max tick - b0) / period) dispatches, and a pulse is always followed by an edge that examines no slot |
| TxScheduler.EarlyIffFirstDeadlineWraps | hardware/fpga/src/tx_scheduler.v:43-61 | a slot is due at the tick it is written if and only if its first deadline wraps |
| TxScheduler.DueAgainIffDeadlineWrapsOrCame | hardware/fpga/src/tx_scheduler.v:55-61 | an acknowledged slot is due again at once if and only if its following deadline wraps or has already come |
| TxScheduler.EarlyDispatchIffWraps | hardware/fpga/src/tx_scheduler.v:41-64 | a run from reset that dispatches before a period has passed, if and only if the first deadline wraps |
| TxLatency.WorkConserving | hardware/fpga/src/tx_scheduler.v:54-71 | while some slot other than 0 stays due for one turn of the scan, a dispatch happens within that turn, also right after another dispatch |
| TxLatency.ReachableWorkConserving | hardware/fpga/src/tx_scheduler.v:54-71 | so in every reachable state |
| TxLatency.LatenessBounded | hardware/fpga/src/tx_scheduler.v:54-71 | a slot k alone with period >= k + 1, its deadlines within the tick range, is never left waiting a turn past its deadline |
| TxLatency.FirstDispatch | hardware/fpga/src/tx_scheduler.v:58-67 | a lone slot that is not late, its deadline a turn short of the tick range's end, is dispatched less than one turn after it, whatever its period |
| TxLatency.LatenessGrows | hardware/fpga/src/tx_scheduler.v:54-71 | with a shorter period it falls behind by k + 1 - period at every dispatch from there on |
| TxLatency.LatenessBoundedIff | hardware/fpga/src/tx_scheduler.v:7 | starting on time, every dispatch before the tick wraps is less than a turn late if and only if the period is at least k + 1 |
| TxLatency.HighSlotsStarve | hardware/fpga/src/tx_scheduler.v:58-64 | with any other slots enabled, once slot k with a period of at most k + 1 is due when the scan reaches it, no slot above k is dispatched as long as the tick counter does not wrap |
| TxLatency.DispatchMakesDue | hardware/fpga/src/tx_scheduler.v:58-64 | any dispatch of such a slot starts that |
| TxResponse.ClaimsCount | hardware/fpga/src/tx_scheduler.v:61 | the c-th deadline of a slot has come by a tick if and only if c is less than the count of its deadlines up to then |
| TxResponse.ScanGetsPastIff | hardware/fpga/src/tx_scheduler.v:54-71 | with any slots enabled, the scan gets past slot k in a turn starting within w cycles if and only if, for some t <= w, all dispatches slots 1 to k have asked for by a turn starting at t fit into t cycles |
| TxResponse.ResponseTimeIff | hardware/fpga/src/tx_scheduler.v:54-71 | a slot k due at a turn's start is dispatched within w cycles if and only if the demand of the slots below it is met by w - k - 1 |
| TxResponse.UnmetDemandStarves | hardware/fpga/src/tx_scheduler.v:58-64 | while the demand of slots 1 to k is not met no slot above k is dispatched |
| TxResponse.OverloadStarves | hardware/fpga/src/tx_scheduler.v:58-64 | which is so for good, up to the tick wrap, once they are due and the sum of (j + 1) / period over them is at least 1 |
| TxResponse.TwoSlotsOverload | hardware/fpga/src/tx_scheduler.v:58-64 | slots 1 and 2 with period 4 have load 1.25 |
| TxResponse.UnderloadServes | hardware/fpga/src/tx_scheduler.v:54-71 | below load 1 a due slot is dispatched as soon as the spare share of the cycles has covered the backlog of the slots below it |
| TxWrap.SameBeforeTheWrap | hardware/fpga/src/top.v:137 | with the tick register wrapping, runs up to the wrap are the runs of the other timing theorems |
| TxWrap.DispatchedWithinIff | hardware/fpga/src/tx_scheduler.v:58-67 | over any number of wraps, a lone slot is dispatched within w edges if and only if at one of them the scan is at it and the register at or past its deadline |
| TxWrap.DispatchedBeforeTheWrapIff | hardware/fpga/src/tx_scheduler.v:58-67 | it is dispatched before the tick wraps if and only if the scan comes by between its deadline and the last tick |
| TxWrap.SeenWithATurnToSpare | hardware/fpga/src/tx_scheduler.v:58-67 | which a deadline at least a turn before the end guarantees |
| TxWrap.EverDispatchedIff | hardware/fpga/src/tx_scheduler.v:58-67 | where the turn divides the tick range, it is ever dispatched if and only if the scan comes by there |
| TxWrap.LongestPeriodIsLost | hardware/fpga/src/top.v:132-141 | an input, with the board's parameters: slot 1 written once at tick 0 with period 2^32 - 1 is on time, its deadline does not wrap, and it is never dispatched |
| ErrorInjector.ErrorInjector.Posedge | hardware/fpga/src/error_injector.v:36-85 | one edge of both blocks |
| ErrorInjector.SingleBitWaveform | hardware/fpga/src/error_injector.v:59-71 | for the non-glitch types the line is up after exactly the cycles that start bit `bit_pos` modulo 2^16 |
| ErrorInjector.SingleBitCount | hardware/fpga/src/error_injector.v:59-71 | frames of any length: one injection per matching bit; at most 65536 bits: one iff the frame has more than `bit_pos` bits |
| ErrorInjector.GlitchWaveform | hardware/fpga/src/error_injector.v:62-78 | one contiguous pulse of g + 1 cycles, cut short only by the frame end |
| ErrorInjector.GlitchSilentIfShort | hardware/fpga/src/error_injector.v:59-71 | no pulse in a frame that never reaches its bit |
| ErrorInjector.BitStartsIffLongEnough | hardware/fpga/src/error_injector.v:59-61 | the bit starts within a frame of at most 65536 bits iff the frame has more than `bit_pos` bits |
| ErrorInjector.FrameAfterIdle | hardware/fpga/src/error_injector.v:48-85 | a whole frame of at most 65536 bits after an idle cycle, from any state with a type set: exactly one injected cycle, or one glitch pulse, if it has more than `bit_pos` bits, and nothing otherwise |
| ErrorInjector.OffIsSilent | hardware/fpga/src/error_injector.v:54-57 | with type 0, from any state and through any active or idle cycles, the line is low after every one, a glitch under way is called off and the counters stay |
| ErrorInjector.SwitchedOffMidGlitch | hardware/fpga/src/error_injector.v:41-57 | switched off in the middle of a glitch the line may be up for the cycle of the write and for none after it |
| ErrorInjector.EnabledAgain | hardware/fpga/src/error_injector.v:41-83 | enabled again between frames it starts the next one afresh |
| ErrorInjector.OffKeepsTheBitCounter | hardware/fpga/src/error_injector.v:56-61 | enabled again within a frame it goes on counting bits from where it was switched off |
| UsbWire.ShortSpelledOut | software/src/protocol/usb/usb_frame_codec.cpp:21-65 | a command or event packet byte by byte: 42 54 01, kind, length, sequence number, four zeros, code, channel, parameter, each low byte first, and the payload |
| UsbWire.DataSpelledOut | software/src/protocol/usb/usb_frame_codec.cpp:21-32 | a data packet byte by byte |
| UsbWire.HeaderRoundTrip | software/src/protocol/usb/usb_frame_codec.cpp:16-34 | a written header is parsed back, whatever follows, if the announced bytes are there |
| UsbWire.ShortRoundTrip | software/src/protocol/usb/usb_frame_codec.cpp:36-66 | command and event packets come back field by field and byte by byte, regardless of trailing bytes |
| UsbWire.DataRoundTrip | software/src/protocol/usb/usb_frame_codec.cpp:90-168 | so do 1..16 frames of any size that fits |
| UsbWire.HeaderIsItsBytes | software/src/protocol/usb/usb_frame_codec.cpp:111-141 | an accepted header's bytes are those of its fields, up to the reserved ones |
| UsbWire.DataReencodesIffReservedZero | software/src/protocol/usb/usb_frame_codec.cpp:143-168 | re-encoding an accepted data packet reproduces its bytes iff its reserved bytes are 0 |
| UsbHost.HeaderFill | software/src/protocol/usb/usb_frame_codec.cpp:16-34 | writes the header bytes and nothing else; refuses null and short buffers untouched |
| UsbHost.EncodeCmd | software/src/protocol/usb/usb_frame_codec.cpp:70-78 | accepts iff the buffer is there, payload <= 256 and all fits; the buffer then holds the packet, the rest unchanged; null payload leaves those bytes alone |
| UsbHost.EncodeEvt | software/src/protocol/usb/usb_frame_codec.cpp:80-88 | likewise |
| UsbHost.EncodeData | software/src/protocol/usb/usb_frame_codec.cpp:90-109 | accepts iff 1..16 frames fit; the buffer then holds the packet, the rest unchanged |
| UsbHost.ParseHeader | software/src/protocol/usb/usb_frame_codec.cpp:111-141 | accepts exactly the byte sequences with right magic, version and length |
| UsbHost.DecodeCmd | software/src/protocol/usb/usb_frame_codec.cpp:170-199 | accepts exactly well-formed commands and returns their fields |
| UsbHost.DecodeEvt | software/src/protocol/usb/usb_frame_codec.cpp:201-230 | likewise for events |
| UsbHost.DecodeData | software/src/protocol/usb/usb_frame_codec.cpp:143-168 | accepts exactly whole frames, at least one and at most the limit; copies them to the start of the target and touches nothing else |
| UsbFirmware.HeaderFill | firmware/src/protocol/usb_protocol_handler.c:35-44 | the same twelve bytes as the host's |
| UsbFirmware.CopyBytes | firmware/src/protocol/usb_protocol_handler.c:64-72 | the byte loop copies the source and nothing else |
| UsbFirmware.BuildData | firmware/src/protocol/usb_protocol_handler.c:46-74 | same acceptance and bytes as the host encoder, -1 for refusal |
| UsbFirmware.BuildCmd | firmware/src/protocol/usb_protocol_handler.c:76-105 | likewise |
| UsbFirmware.BuildEvt | firmware/src/protocol/usb_protocol_handler.c:107-136 | likewise, with a payload limit of 64 |
| UsbFirmware.Parse | firmware/src/protocol/usb_protocol_handler.c:138-166 | same verdict as the host parser; the header struct is filled even when magic, version or length is then refused, and left alone only when the input is too short to hold one |
| UsbFirmware.HandleCmd | firmware/src/protocol/usb_protocol_handler.c:168-185 | handles exactly the packets the host would decode as commands |
| UsbAgreement.SameCommands | software/src/protocol/usb/usb_frame_codec.h:3-6 | run on equal buffers both sides accept alike and leave equal buffers |
| UsbAgreement.SameEvents | software/src/protocol/usb/usb_frame_codec.h:3-6 | so for events, if and only if the payload is not between 65 and 256 bytes that fit |
| UsbAgreement.SameData | software/src/protocol/usb/usb_frame_codec.h:3-6 | so for data packets |
| UsbAgreement.SameVerdicts | software/src/protocol/usb/usb_frame_codec.h:3-6 | on every byte sequence equal header verdicts and fields; the device handles exactly what the host decodes |
| UsbAgreement.HeaderReachesDevice | firmware/src/protocol/usb_protocol_handler.c:145-158 | the header the host writes fills the device's struct with 5442, version 1, kind, length, sequence number and a zero reserved word, and is accepted iff the announced bytes are there |
| UsbAgreement.CommandReachesDevice | firmware/src/protocol/usb_protocol_handler.c:138-185 | what the host encodes the device accepts and reads back in full, trailing bytes or not |
| UsbAgreement.EventReachesHost | software/src/protocol/usb/usb_frame_codec.cpp:201-230 | what the device builds the host decodes to the same fields |
| UsbAgreement.FramesReachHost | software/src/protocol/usb/usb_frame_codec.cpp:143-168 | frames packed by the device are unpacked by the host byte for byte |

## Left out

- Qt user interface, command line, bench timing, build files, scripts: no logic to speak of.
- FDCAN, LIN, DFU and USB firmware drivers: unfinished in the source.
- hw_filter, phys_sampler, Workspace, Channel, Node, null device: single-step lookups and counters.
- PPS loop: its correction feeds back through an uncorrected timestamp and does not contract, so the accuracy claim does not follow from the code.
- Floating point: factors, offsets and ranges are decimal literals and reals; rounding of IEEE doubles is not modelled.
- DbcDecimal.TextToPhysical: numbers are plain decimal literals; exponents, leading plus signs and the other spellings `std::stod` accepts are not, though the parser theorems hold for any reader.
- DbcRoundTrip.ParsePrint: the canonical text always prints the range and uses decimal integers; multiplexer markers, hexadecimal numbers and glued signal names are covered by the parser itself, not by the printer.
- SimDevice.SessionIsTheStream: reads since one `open`; time stamps are left free, because each read stamps all its frames alike.
- RbsScheduler.RbsScheduler.Tick: the deadlines it stores fit 64 bits; a deadline that wraps may keep the loop going for ever.
- TxScheduler.TxScheduler.Posedge: a write and an acknowledge of the same slot at one edge, whose order the hardware leaves open.
- TxScheduler.NeverEarlyNeverTwice: runs without a wrapping deadline, which is exactly as far as the accounting holds, and without a write meeting its own slot's acknowledge.
- TxLatency.LatenessBoundedIff: dispatches before the tick wraps, with room for a turn's worth of rounds; at the wrap a dispatch can be lost, which TxWrap describes for a lone slot.
- TxResponse.ScanGetsPastIff: runs before the tick wraps, without configuration writes.
- SimDevice.UnusedGeneratorRepeats: one direction; whether a stream repeats after bytes were drawn turns on the period of the generator.
- Pipelines.Pipeline.Size: exact when called by a thread that sees both counters; a third thread's two relaxed loads may disagree.
- Capture.CaptureSafety: the statistics counters are unbounded, where the source wraps at 2^64; concurrent controllers, and reset or reopen during capture, are not modelled.
- The full C++ memory model: only stale but coherent loads of the two counters and of the running flag.
- Error message texts: errors carry the kind and the offending token or line.
- `physical_to_raw` and `find_message` by name: easy members.
- Null out-parameters of the header and field decoders: results are returned instead.
