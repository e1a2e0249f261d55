# Capture pipeline and device bookkeeping: a verified model

This project models the parts of the vendor drivers that move data or keep books, and proves that they do.

The centre is gator's capture pipeline. Profiling messages are packed as signed LEB128, put into frames whose
length is filled in late, buffered in a ring with three cursors, and sent by a reader that runs beside the
writer. `CaptureSpec` is that protocol without the ring: committed frames, one open frame, and a reader that
snapshots, sends and releases. `CaptureBuffer` is the ring, and each of its methods is proved to perform the
protocol's step on the real bytes. `MessageStream` closes the loop: for every interleaving of the two sides,
decoding what was sent gives exactly the messages that were accepted. Around it stand the second ring (`Fifo`),
the perf frames (`PerfFrames`), the kernel's annotation packets (`Annotate`), and the daemon's independent
decoder of packed integers (`ExternalDecoder`).

The other modules are smaller machines with an invariant each: the cookie cache and its checksum (`Cookies`,
`Crc`), blocks shared through files and references (`Ashmem`), the depth-limited sensor evaluator and chip names
(`Sensors`, `ChipNames`), GPU job traces (`MaliActivity`), perf group leaders (`PerfGroups`), symbol-table chunks
(`Kallsyms`) and wake-up interrupts (`WakeIrqs`).

How things are modelled:

- Steps are atomic, in any interleaving of one writer and one reader. The reader's snapshot, send and release
  are three steps. The writer's step is one message: space check, packed fields, and the commit with the next
  frame's header where it commits. For the writing of the fields this loses nothing: with the reader moving
  between them the result is the same (`CaptureSpec.MessageIsAtomic`). That the commit takes effect at its cursor
  update, and that `setDone` sets its flag together with its commit, is part of the model. A writer that waits is
  a step that is tried again. Regions under a lock are atomic; the GPU driver marshals after its lock, which
  `MaliActivity.LateTraceAlternates` takes apart.
- Ring positions are masked with a bitwise `and` that is proved to be `Wrap`; the proofs follow unbounded stream
  positions.
- `CaptureSpec.ConfigOk` holds what the source takes for granted of a buffer: a power-of-two size of at least 256
  and at most 2^30 bytes, and a frame header of at most `FRAME_HEADER_SIZE` (3) bytes. The writer does nothing
  after `setDone`.
- The driver's per-CPU ring (gator_buffer.c, gator_buffer_write.c) is the same ring as the daemon's, with frame
  type 6, no live rate and the response type the daemon sets, so `Annotate` uses `CaptureBuffer.Buffer`.
- Environment answers (what Nexus allocates, what `perf_event_open` returns, sysfs readings, how much a read
  returns, clocks) are parameters. Sensor values are reals; `exp` and `log` are arbitrary functions.
- C behaviour that is undefined is an outcome of its own (`ExternalDecoder.Undefined`).

What the source says and what it does differ in these places; the model follows the code:

- The CPU hot-plug messages ask for 15 bytes and write 16 exactly when both the time and the CPU have the longest
  encoding; the 200-byte margin absorbs it. The core-name message covers names of up to 258 bytes, longer ones
  with small numbers (`Messages.MessageFits`, `Messages.CoreNameFits`). How far the margin absorbs an overrun is
  `CaptureSpec.CoveredExactly`.
- A forced commit of an empty frame adds a header without a space check: `CaptureSpec.CommitInv` says when it fits,
  `CaptureSpec.ForcedCommitsSpill` that it need not.
- A writer can wait for ever: `perfCounter` does not commit, and once a counter list fills the ring no reader can
  make room (`CaptureSpec.CounterListCrowds`, `CaptureSpec.CrowdedForEver`).
- `readLEInt` shifts plain `char`s; where `char` is signed most lengths with a byte above 127 are misread
  (`ExternalDecoder.ReadLEInt`).
- `readPackedInt` is defined for exactly part of the 64-bit range (`ExternalDecoder.ReadPackedExactly`).
- `willFill` is neither an upper nor a lower estimate (`FifoModel.WillFillExact`).
- A GPU unit with three or more jobs outstanding starts the newest one at the next stop, so an older one can be
  lost. The trace is right exactly when every such stop finds the newest job looking like the one whose turn it is
  (`MaliActivity.JobsInTurn`): always for one process (`MaliActivity.SameProcessInTurn`), and for jobs that can be
  told apart exactly when three were never outstanding (`MaliActivity.JobsLostExactly`).
- `readKallsyms` raises its overlap error for a chunk that is a single empty line (`Kallsyms.SendLines`).
- `annotate_write` with a count whose low 31 bits are zero waits for ever, so a message of 2^31 bytes or more never
  gets through (`Annotate.FinishesExactly`).
- A user-space annotation whose copy faults leaves a header without its payload, which then swallows what comes
  next (`Annotate.FaultSwallows`).
- `droid_pm_wakeup_set_enabled` tests `bitmask && present` where a bitwise test is meant; bits that the module
  does not own are still left alone, because no interrupt has them.

Check the project with `dafny verify dfyconfig.toml`.

## Model

| member | source | states |
|---|---|---|
| RingIndex.MaskIsWrap | gator/daemon/Buffer.cpp:15 | for every power-of-two size the mask `pos & (size - 1)`, taken bit by bit, is the stream position folded into the ring |
| RingIndex.WrapDistance | gator/daemon/Buffer.cpp:105-111 | the cursor difference, plus one ring when negative, is the distance in the stream for positions less than one ring apart |
| RingIndex.StoreByte | gator/daemon/Buffer.cpp:213 | a byte stored through the mask extends the data held at a stream position and touches no other slot |
| Leb128.DecodeEncode | gator/daemon/Buffer.cpp:199-218 | signed LEB128 round trip: reading a packed integer in front of anything gives it back and uses exactly its bytes |
| Leb128.ProperPrefixTruncated | gator/daemon/Buffer.cpp:199-218 | no encoding is a prefix of another: every proper prefix reads as truncated |
| Leb128.EncodeLength | gator/daemon/Buffer.cpp:199-247 | `n` bytes suffice exactly for the integers from -2^(7n-1) to 2^(7n-1)-1 |
| Leb128.Pack32Length | gator/daemon/Buffer.h:29 | a 32-bit integer takes at most 5 bytes |
| Leb128.Pack64Length | gator/daemon/Buffer.h:30 | a 64-bit integer takes at most 10 bytes |
| Leb128.EncodeMinimal | gator/daemon/Buffer.cpp:199-247 | every byte string that means the same integer is at least as long, and one of equal length is identical |
| Leb128.Pack | gator/daemon/Buffer.cpp:199-247 | the packing loop leaves exactly the encoding in the ring, round its end if need be, moves the cursor by its length, and changes no other slot |
| Leb128.DecodeAllEncodeAll | gator/daemon/Buffer.cpp:224-243 | a run of packed integers reads back as the same list |
| ExternalDecoder.ReadPackedInt | gator/daemon/ExternalDriver.cpp:42-63 | the loop of `readPackedInt`, with truncation and the undefined shifts of C as outcomes |
| ExternalDecoder.ReadPackedExactly | gator/daemon/ExternalDriver.cpp:42-63 | for every int64 the daemon's independent decoder returns the packed value and consumes exactly its bytes if and only if the value is at least -2^27 or below -2^62; otherwise its shift `1 << shift` is undefined |
| ExternalDecoder.ReadCutShort | gator/daemon/ExternalDriver.cpp:48-51 | a packed value cut short at any byte is reported as an error |
| ExternalDecoder.ReadLEInt | gator/daemon/ExternalDriver.cpp:30-40 | the loop reads four bytes as the little-endian number they are if and only if no byte that counts as negative is followed by one other than 255; always where `char` is unsigned |
| ExternalDecoder.LengthBack | gator/daemon/ExternalDriver.cpp:30-40 | a length written by `writeLEInt` is read back under exactly that condition |
| ExternalDecoder.LengthMisread | gator/daemon/ExternalDriver.cpp:30-40 | a length of 200 read with a signed `char` comes back as 2^32 - 56 |
| ExternalDecoder.ReadLESmeared | gator/daemon/ExternalDriver.cpp:35-37 | what the loop computes for either `char`: a negative byte sets every bit above it |
| ExternalDecoder.OrDisjoint | gator/daemon/ExternalDriver.cpp:54 | or-ing bits above the accumulator adds them |
| Framing.LittleEndianRoundTrip | gator/daemon/Buffer.h:80-85 | four little-endian bytes give back every 32-bit length |
| Framing.ParseFrame | gator/daemon/Buffer.cpp:156-170 | a frame in front of anything is cut off exactly |
| Framing.ParseWire | gator/daemon/Buffer.cpp:156-187 | the committed stream is self-delimiting: parsing [type unless local], length, payload recovers exactly the list of payloads |
| Messages.MessageFits | gator/daemon/Buffer.cpp:292-464 | a message writes at most the bytes it asked `checkSpace` for if and only if it is neither a hot-plug message with a time outside 62 bits and a CPU outside 27 bits nor a core name too long for its numbers |
| Messages.HotplugExact | gator/daemon/Buffer.cpp:411-429 | a hot-plug message writes 16 bytes against the 15 it asked for if and only if time and CPU both have the longest encoding, and never more |
| Messages.CoreNameExact | gator/daemon/Buffer.cpp:292-300 | the exact size of a core-name message |
| Messages.OnlineCpuOverruns | gator/daemon/Buffer.cpp:411-419 | the extra byte of the hot-plug message does occur |
| Messages.CoreNameFits | gator/daemon/Buffer.cpp:292-300 | the fixed reserve of the core-name message covers it for all core numbers if and only if the name has at most 258 bytes |
| Messages.ReserveExact | gator/daemon/Buffer.cpp:292-464 | a message asks for the most its fields can take, except that a hot-plug message leaves out its code, a symbol chunk asks for two integers more, and a core name for three integers and 256 bytes |
| MessageStream.MessageBack | gator/daemon/Buffer.cpp:340-464 | each perf-attribute message, in front of anything, decodes back to itself and nothing beyond it is consumed |
| MessageStream.StreamBack | gator/daemon/Buffer.cpp:340-464 | a list of messages decodes back to exactly that list, counter lists included |
| MessageStream.EventsBack | gator/daemon/Buffer.cpp:302-338 | a stream of block-counter events decodes to its keys and values, time as key 0 and thread as key 1 |
| MessageStream.RunLogs | gator/daemon/Buffer.cpp:292-464 | what a run puts into frames is the bytes of the messages it accepted, in order |
| MessageStream.RunDeliversMessages | gator/daemon/Buffer.cpp:64-473 | end to end: for every interleaving, once `isDone`, framing and decoding the sent bytes gives exactly the accepted messages in order |
| MessageStream.RunDeliversEvents | gator/daemon/Buffer.cpp:64-473 | the same for block-counter events: once `isDone`, the sent bytes decode to exactly the accepted keys and values in order |
| MessageStream.CoreNameBack | gator/daemon/Buffer.cpp:292-300 | a core name in front of anything decodes back to its core, CPU id and name, and nothing beyond it is consumed |
| MessageStream.CoreNamesBack | gator/daemon/Buffer.cpp:292-300 | a list of core names decodes back to exactly that list |
| MessageStream.RunDeliversCoreNames | gator/daemon/Buffer.cpp:64-473 | end to end for a summary buffer: once `isDone`, the sent bytes decode to exactly the accepted core names in order |
| CaptureSpec.AdvanceExact | gator/daemon/Buffer.cpp:175-179 | the commit deadline moves by whole periods to the first one not before the given time |
| CaptureSpec.CommitInv | gator/daemon/Buffer.cpp:156-187 | a commit keeps the protocol invariant, except a forced one if and only if the prefix and header it adds do not fit the ring; a frame with a message always leaves that room |
| CaptureSpec.ForcedCommitsSpill | gator/daemon/Buffer.cpp:156-187 | forced commits of empty frames with no reader come to a state where one more runs over the ring |
| CaptureSpec.PutInv | gator/daemon/Buffer.cpp:292-464 | a message that passed its space check and overruns its reserve by no more than the margin covers, and the commit it may cause, keep the invariant |
| CaptureSpec.CoveredExactly | gator/daemon/Buffer.cpp:105-134 | a message that a fresh buffer accepts is written without harm in every state that accepts it if and only if its overrun is within the 200-byte margin less the next header |
| CaptureSpec.StepInv | gator/daemon/Buffer.cpp:64-197 | every step of writer or reader keeps the invariant |
| CaptureSpec.RunInv | gator/daemon/Buffer.cpp:64-197 | so does every interleaving of steps |
| CaptureSpec.RunDelivers | gator/daemon/Buffer.cpp:64-134 | for every interleaving the sent bytes are a prefix of the committed frames, which parse back and all start with the header, the frames carry exactly the accepted bytes, and the ring is never full |
| CaptureSpec.RunComplete | gator/daemon/Buffer.cpp:466-473 | `isDone` implies that everything written was sent: the sent bytes parse into frames carrying every accepted byte |
| CaptureSpec.CheckBelowMark | gator/daemon/Buffer.cpp:189-197 | after `check` the uncommitted part is below three quarters of the ring |
| CaptureSpec.CheckTimely | gator/daemon/Buffer.cpp:189-197 | at or past its deadline a live capture commits what it holds and moves the deadline to the first one not before the time; at the mark it commits; below the mark and before the deadline it commits nothing |
| CaptureSpec.RunTimely | gator/daemon/Buffer.cpp:189-197 | over every run of messages that end in `check`, what is not committed was not overdue at the last check |
| CaptureSpec.LiveRun | gator/daemon/Buffer.cpp:50-197 | from the start of a live capture deadlines are positive multiples of the live rate, and nothing overdue stays open |
| CaptureSpec.RunFramesFull | gator/daemon/Buffer.cpp:164-167 | without forced commits every committed frame holds more than a header, but for the last one of a done buffer |
| CaptureSpec.UncheckedKeeps | gator/daemon/Buffer.cpp:302-338 | events and counters never commit |
| CaptureSpec.RejectedLeaves | gator/daemon/Buffer.cpp:292-439 | a message that finds no space changes nothing but the flag, except that a core name still checks |
| CaptureSpec.RunBelowMark | gator/daemon/Buffer.cpp:189-197 | and stays there over any run of messages that end in it |
| CaptureSpec.DrainedAccepts | gator/daemon/Buffer.cpp:105-134 | with the committed data drained, a message is accepted if and only if it, the open frame and the margin in force fit the ring |
| CaptureSpec.NoLostWakeup | gator/daemon/Buffer.cpp:340-439 | a blocked message of at most size/4 - 2000 bytes is accepted as soon as the reader has drained the committed data, after any such run |
| CaptureSpec.CrowdedForEver | gator/daemon/Buffer.cpp:124-134 | once the open frame leaves no room beside the 2000-byte margin, no sequence of retries and reader steps lets a blocking message in |
| CaptureSpec.CounterListCrowds | gator/daemon/Buffer.cpp:449-456 | in every drained buffer a long enough list of `perfCounter` messages, which never commit, gets there |
| CaptureSpec.MessageIsAtomic | gator/daemon/Buffer.cpp:199-256 | a message written piece by piece, with the reader moving between the pieces in any way, leaves the state of the reader's steps followed by the message as one step |
| CaptureSpec.MicrosCommute | gator/daemon/Buffer.cpp:64-99 | the reader's steps commute with writes to the open frame |
| CaptureSpec.ReaderForced | gator/daemon/Buffer.cpp:64-99 | the reader has one possible step at any time, so a schedule need only say when it moves |
| CaptureBuffer.Buffer.constructor | gator/daemon/Buffer.cpp:50-57 | a new buffer represents the initial protocol state with its first frame open |
| CaptureBuffer.Buffer.Frame | gator/daemon/Buffer.cpp:264-274 | response type and header are in the ring around an untouched length hole, and nothing else changed |
| CaptureBuffer.HeadingBack | gator/daemon/Buffer.cpp:264-274 | a frame's header reads back as its type, and its core for block counters, perf attributes and perf data |
| CaptureBuffer.Buffer.BytesAvailable | gator/daemon/Buffer.cpp:105-122 | the ring computation is the space of the protocol state, with the 200 or 2000 byte margin |
| CaptureBuffer.Buffer.CheckSpace | gator/daemon/Buffer.cpp:124-134 | succeeds exactly when the space suffices and records the outcome |
| CaptureBuffer.Buffer.PackInt | gator/daemon/Buffer.cpp:220-222 | appends exactly the encoding to the open frame |
| CaptureBuffer.Buffer.WriteBytes | gator/daemon/Buffer.cpp:249-256 | appends exactly the bytes, round the ring's end if need be |
| CaptureBuffer.Buffer.Commit | gator/daemon/Buffer.cpp:156-187 | refines the protocol's commit: length filled in, frame published, next one started, or nothing for an empty frame |
| CaptureBuffer.Buffer.PatchLength | gator/daemon/Buffer.cpp:168-170 | the four length bytes are right even when they wrap round the ring, and nothing else is touched |
| CaptureBuffer.Buffer.AdvanceCommitTime | gator/daemon/Buffer.cpp:175-179 | the loop computes the protocol's next deadline |
| CaptureBuffer.Buffer.Check | gator/daemon/Buffer.cpp:189-197 | refines the protocol's check |
| CaptureBuffer.Buffer.Marshal | gator/daemon/Buffer.cpp:292-464 | one attempt at any message refines the protocol step, and says whether it was accepted |
| CaptureBuffer.Buffer.SetDone | gator/daemon/Buffer.cpp:466-469 | the last commit, after which no frame is open |
| CaptureBuffer.Buffer.QueryDone | gator/daemon/Buffer.cpp:471-473 | cursor equality means done, sent and committed in the stream |
| CaptureBuffer.Buffer.TakeSnapshot | gator/daemon/Buffer.cpp:64-71 | the reader's snapshot, and whether there is anything |
| CaptureBuffer.Buffer.SendSnapshot | gator/daemon/Buffer.cpp:73-93 | the two halves handed to the sender are exactly the next committed bytes, whatever the writer did since the snapshot |
| CaptureBuffer.Buffer.ReleaseSnapshot | gator/daemon/Buffer.cpp:95-98 | moving the read cursor releases exactly the sent bytes |
| CaptureBuffer.Buffer.Perform | gator/daemon/Buffer.cpp:64-473 | every step of the program on the ring is the step of the protocol |
| CaptureBuffer.Buffer.PerformAll | gator/daemon/Buffer.cpp:64-473 | for any interleaving run on the ring itself the sender's bytes are a prefix of the committed frames, and once done they parse into frames carrying every accepted byte |
| CaptureBuffer.SnapshotBytes | gator/daemon/Buffer.cpp:73-93 | at most two contiguous pieces from the read cursor to the snapshot are the next committed bytes |
| CaptureBuffer.PatchRing | gator/daemon/Buffer.cpp:168-173 | filling in the length turns the open frame in the ring into the next committed one |
| FifoModel.StepInv | gator/daemon/Fifo.cpp:42-127 | every fill, write, grant, read and release keeps written == consumed + unread |
| FifoModel.TakeExact | gator/daemon/Fifo.cpp:114-127 | a read hands out the next unread bytes, and is empty if and only if the stream has ended and all was released |
| FifoModel.EndExact | gator/daemon/Fifo.cpp:74-90 | a write of nothing, and only that, lets the reader read when nothing is left |
| FifoModel.CountersExact | gator/daemon/Fifo.cpp:42-52 | `numBytesFilled` and `isEmpty` count the unread bytes |
| FifoModel.GrantedIsSafe | gator/daemon/Fifo.cpp:92-97 | the bytes a released writer may fill lie in the allocation and hold no unread byte |
| FifoModel.FullExact | gator/daemon/Fifo.cpp:54-71 | full means that the ragged end is in use and too little room is left before the reader |
| FifoModel.FullDrains | gator/daemon/Fifo.cpp:100-111 | a full FIFO is not full after a read and a release, or after one more release if an older read was pending |
| FifoModel.OneReleaseMayNotDo | gator/daemon/Fifo.cpp:100-111 | the second release can be needed |
| FifoModel.WillFillExact | gator/daemon/Fifo.cpp:58-71 | `willFill(n)` agrees with being full after writing `n` bytes if and only if the write is in neither of two cases, given by the cursors, both with the ragged end unused |
| FifoModel.WillFillUnderestimates | gator/daemon/Fifo.cpp:58-71 | a write it lets through that then blocks |
| FifoModel.WillFillOverestimates | gator/daemon/Fifo.cpp:58-71 | a write it reports as filling that leaves the FIFO open |
| FifoModel.RunIsQueue | gator/daemon/Fifo.cpp:42-127 | for every interleaving the consumed bytes are a prefix of the published ones, the counter is their difference, and a full FIFO opens within two releases |
| FifoModel.Fifo.FillBuffer | gator/daemon/Fifo.cpp:73-98 | filling the granted space leaves the unread bytes alone |
| FifoModel.Fifo.PublishWrite | gator/daemon/Fifo.cpp:74-90 | publishes exactly the filled bytes, over the wrap threshold into the ragged end |
| FifoModel.Fifo.PollSpace | gator/daemon/Fifo.cpp:92-97 | the wait ends exactly when not full, with an index that has room for one more write |
| FifoModel.Fifo.ReadData | gator/daemon/Fifo.cpp:114-127 | returns the place and length of the next unread bytes |
| FifoModel.Fifo.ReleaseData | gator/daemon/Fifo.cpp:100-111 | consumes exactly what was read, and resets at the ragged end |
| PerfFrames.ParseSectionsBytes | gator/daemon/PerfBuffer.cpp:110-188 | the sections of a payload parse back to exactly their CPUs and words |
| PerfFrames.FrameParses | gator/daemon/PerfBuffer.cpp:132-177 | every sent frame is one frame of the wire format, of type perf, and its payload parses into its sections |
| PerfFrames.SealSection | gator/daemon/PerfBuffer.cpp:161-165 | filling in the section size completes the section |
| PerfFrames.SealFrame | gator/daemon/PerfBuffer.cpp:142-146 | with both sizes filled in the buffer is a frame of the wire format |
| PerfFrames.PackIsSplice | gator/daemon/PerfBuffer.cpp:126 | below the end of the buffer the ring packer writes straight |
| PerfFrames.PerfFrame.Send | gator/daemon/PerfBuffer.cpp:132-139 | sends the frame with all its sections, and loses none |
| PerfFrames.PerfFrame.CpuHeader | gator/daemon/PerfBuffer.cpp:167-177 | starts an empty section for the CPU, in a new frame if this one is full |
| PerfFrames.PerfFrame.PackEvent | gator/daemon/PerfBuffer.cpp:124-128 | appends exactly the ring's words to the section, without wrapping the buffer, whenever their packed bytes end before it does |
| PerfFrames.PerfFrame.AddEvent | gator/daemon/PerfBuffer.cpp:117-129 | one whole event goes to the end of one section, in a new frame exactly if ten bytes a word would not fit this one |
| PerfFrames.PerfFrame.Add | gator/daemon/PerfBuffer.cpp:114-130 | the frames carry exactly the ring's words from tail to head more, for that CPU, in order, and every section is whole events |
| PerfFrames.SendRings | gator/daemon/PerfBuffer.cpp:190-223 | for every CPU the words decoded from all sent frames are its ring from tail to head; sections are whole events; every frame parses |
| PerfFrames.EventWordsExact | gator/daemon/PerfBuffer.cpp:118 | the size read from an event's first word is the size field of its `perf_event_header` in words |
| PerfFrames.SendEvents | gator/daemon/PerfBuffer.cpp:190-223 | on rings of kernel events, given by type, misc and body, every event of every CPU arrives whole in one section of one frame, and the words of each CPU are its events in order |
| PerfFrames.EventsInSections | gator/daemon/PerfBuffer.cpp:119-123 | sections of whole events that carry the words of some events hold each of them in one piece |
| PerfFrames.FitsExactly | gator/daemon/PerfBuffer.cpp:119-123 | the events that are handled are exactly those that any frame shorter than the buffer can carry whole in one section of their CPU |
| PerfFrames.PackUnchecked | gator/daemon/PerfBuffer.cpp:124-128 | the packing loop without a check goes straight on if and only if the packed words end before the buffer does, and wraps otherwise |
| Annotate.ParseRecordsBytes | gator/driver/gator_annotate.c:98-129 | the annotate stream decodes back to exactly its records |
| Annotate.FlatHolds | gator/driver/gator_annotate.c:21-37 | a straight copy at the write cursor stores what byte-by-byte ring writing would |
| Annotate.AnnotateCopy | gator/driver/gator_annotate.c:21-37 | a copy appends exactly its bytes; a user-space copy that faults moves nothing, whatever it left behind the cursor |
| Annotate.ContiguousSpace | gator/driver/gator_buffer.c:106-114 | the smaller of the space and the distance to the ring's end |
| Annotate.CopyPayload | gator/driver/gator_annotate.c:107-125 | the one or two pieces together append exactly the payload, or up to the piece that faults |
| Annotate.WriteHeader | gator/driver/gator_annotate.c:102-105 | appends the four packed header fields |
| Annotate.AnnotateWrite | gator/driver/gator_annotate.c:39-136 | takes exactly the longest prefix that fits as one record, which reads back as the CPU, process and time of the pass and that prefix; changes nothing when full; and after a fault leaves the header with the part copied |
| Annotate.AcceptsLongest | gator/driver/gator_annotate.c:76-79 | a call takes the longest prefix of the masked count that fits behind a header of 25 bytes |
| Annotate.FaultCommitsNothing | gator/driver/gator_annotate.c:116-129 | a pass that faults commits nothing |
| Annotate.FaultSwallows | gator/driver/gator_annotate.c:116-125 | after a fault the record reads back as meant if and only if what is written next begins with the missing bytes; otherwise its payload is filled up from it |
| Annotate.DrainedTakes | gator/driver/gator_annotate.c:76-96 | with the ring drained a call makes progress if and only if the masked count is not zero |
| Annotate.ReaderTurn | gator/daemon/Buffer.cpp:64-99 | the reader's next step on the ring is its step in the protocol |
| Annotate.FiveStepsDrain | gator/daemon/Buffer.cpp:64-99 | wherever the reader is, five of its steps release everything committed |
| Annotate.EventSound | gator/driver/gator_annotate_kernel.c:17-31 | a step of the reader, another thread's annotation, faulting or not, a switch of collecting, a signal and a pass of ours all keep the books: the log is exactly the records, cut short where a copy faulted, and ours carry exactly what was taken |
| Annotate.ScheduleSound | gator/driver/gator_annotate_kernel.c:17-31 | so does every schedule of them, at every point |
| Annotate.ScheduleNotes | gator/driver/gator_annotate.c:98-105 | the records are, in order, those of the passes that took something: CPU, process and time of the pass, and the part of its message that fitted |
| Annotate.SignalEnds | gator/driver/gator_annotate.c:91-93 | a signal ends a thread that waits, and no other |
| Annotate.FinishesExactly | gator/driver/gator_annotate_kernel.c:17-31 | under every fair, undisturbed schedule, where each full ring is followed by a turn at which the reader has caught up, the whole message gets through if and only if it has fewer than 2^31 bytes |
| Annotate.EndsFrom | gator/driver/gator_annotate_kernel.c:22-30 | for a message of fewer than 2^31 bytes the loop ends under every fair schedule without faults, signals and switches included |
| Annotate.SteadyFair | gator/driver/gator_annotate.c:87-95 | a reader that makes five steps between our passes is fair |
| Annotate.KAnnotateWrite | gator/driver/gator_annotate_kernel.c:17-31 | the loop on the ring, for any schedule with the CPU, process and clock of each pass: the log grows by exactly the records, cut short where another thread's copy faulted; if none did, it reads back as CPU, process, time and text of the passes that took something, in order; and our records concatenate to the part of the message taken, all of it when finished |
| Crc.TableStep | gator/driver/gator_cookies.c:82-83 | one table step is eight bit steps, for every register and byte |
| Crc.BitStepsLinear | gator/driver/gator_cookies.c:505-514 | the bit steps are linear over exclusive or |
| Crc.BuildTable | gator/driver/gator_cookies.c:498-514 | each table entry is eight bit steps of its index |
| Crc.KnownEntries | gator/driver/gator_cookies.c:498-514 | the table entries for single bits, which by linearity determine the table |
| Crc.Checksum | gator/driver/gator_cookies.c:75-86 | the table-driven checksum of every string is the bit-at-a-time one |
| Cookies.Code | gator/driver/gator_cookies.c:63-73 | buckets start at multiples of the associativity inside the table, so they are equal or disjoint |
| Cookies.CodeExact | gator/driver/gator_cookies.c:63-73 | the bucket is the base-31 number of the bytes of the folded key, most significant first, modulo 1024 |
| Cookies.HitTable | gator/driver/gator_cookies.c:102-116 | moving a hit to the front keeps every bucket the most recently touched keys with their cookies |
| Cookies.MissTable | gator/driver/gator_cookies.c:135-140 | pushing a new key in keeps it too, for its bucket and all others |
| Cookies.CookieMap.Exists | gator/driver/gator_cookies.c:93-120 | hits exactly the most recently touched keys of the bucket, returns the cookie last added, and counts as a touch |
| Cookies.CookieMap.Add | gator/driver/gator_cookies.c:127-141 | adds the key as most recently touched, with its cookie |
| Cookies.StaysCached | gator/driver/gator_cookies.c:93-141 | least-recently-used replacement: after touches of other keys a key is still held if and only if fewer than two different ones were of its bucket |
| Cookies.GetCookie | gator/driver/gator_cookies.c:299-330 | one request answers and books as the table-free `get_cookie` does: the key's last cookie while fewer than two other keys of its bucket were used since, else a new one if it can be announced |
| Cookies.GetCookies | gator/driver/gator_cookies.c:299-330 | any list of requests on an empty cache gets exactly those answers |
| Cookies.NoRoomNoCookie | gator/driver/gator_cookies.c:320-321 | where no cookie can be announced, none is made and all answers are unresolved |
| Cookies.CookiesAreUnique | gator/driver/gator_cookies.c:320-325 | over every run a cookie never stands for two keys, whatever the cache forgets |
| Ashmem.FreedExactly | nx_ashmem/nx_ashmem.c:322-374 | a block is freed by exactly the step after which its file is closed and its external count is zero |
| Ashmem.RunCounts | nx_ashmem/nx_ashmem.c:471-509 | for every run the count of a held block is that of the requests for it since its allocation: one more for each addition, one less for each removal but not below zero |
| Ashmem.FreedByHistory | nx_ashmem/nx_ashmem.c:338-528 | in terms of the requests alone: a block is freed by the release of its file with no references left, or by the removal of the last reference after it, and by nothing else |
| Ashmem.SizeThenMemory | nx_ashmem/nx_ashmem.c:376-454 | after a size was set memory is allocated if the size is not zero, and locked unless the area is movable or blocks are not pinned |
| Ashmem.StepInv | nx_ashmem/nx_ashmem.c:297-528 | every request keeps blocks unshared, held while allocated, and locked exactly while they have an address |
| Ashmem.RunIsSound | nx_ashmem/nx_ashmem.c:322-587 | for every run Nexus sees no double free, no free of a locked block and no stray unlock; the allocated blocks are the held ones; closed areas remain only for outstanding references |
| Ashmem.DropInv | nx_ashmem/nx_ashmem.c:322-336 | freeing an area's block unlocks it exactly if it was locked, and frees only it |
| Ashmem.Device.OpenFile | nx_ashmem/nx_ashmem.c:297-320 | refines the opening step |
| Ashmem.Device.SetAreaSize | nx_ashmem/nx_ashmem.c:568-588 | refused exactly once the area has an address |
| Ashmem.Device.MapArea | nx_ashmem/nx_ashmem.c:376-454 | allocates once, and locks unless movable or unpinned |
| Ashmem.Device.FreeBlock | nx_ashmem/nx_ashmem.c:322-336 | the calls made are unlock, if locked, and free |
| Ashmem.Device.ReleaseFile | nx_ashmem/nx_ashmem.c:338-374 | frees the block, or defers it while references remain |
| Ashmem.Device.ProcessExtRefcnt | nx_ashmem/nx_ashmem.c:471-528 | the list scan recounts the one area holding the block and frees it when its deferred free is due |
| Sensors.ForAllConfigChips | gator/daemon/libsensors/access.c:74-91 | the last matching section before the given one |
| Sensors.SearchCompute | gator/daemon/libsensors/access.c:256-265 | finds the compute statement of the last matching section that has one |
| Sensors.FindComputeExact | gator/daemon/libsensors/access.c:256-265 | the statement in force is the first for the feature in the last matching section that has one |
| Sensors.FindExact | gator/daemon/libsensors/access.c:236-255 | the error for each way a lookup can fail, and otherwise the subfeature with the statement in force only if it is marked for computation |
| Sensors.LookupChipExact | gator/daemon/libsensors/access.c:96-110 | the first detected chip that matches |
| Sensors.LookupNameExact | gator/daemon/libsensors/access.c:136-149 | the first subfeature of that name |
| Sensors.GetExactly | gator/daemon/libsensors/access.c:227-277 | the evaluator gives a result other than the recursion error, value or error, if and only if it has a derivation with references nested less deep than the limit |
| Sensors.ReadsExactly | gator/daemon/libsensors/access.c:31-33 | at the library's own limit references may nest seven deep |
| Sensors.GetComplete | gator/daemon/libsensors/access.c:227-277 | every derivable result of small enough nesting is returned |
| Sensors.EvalComplete | gator/daemon/libsensors/access.c:438-497 | the same for expressions |
| Sensors.GetSound | gator/daemon/libsensors/access.c:227-277 | every returned value or error other than recursion has a derivation |
| Sensors.EvalSound | gator/daemon/libsensors/access.c:438-497 | the same for expressions |
| Sensors.BinaryExact | gator/daemon/libsensors/access.c:469-483 | the operators give the sum, difference, product and quotient, and an error for a zero divisor |
| Sensors.UnaryExact | gator/daemon/libsensors/access.c:484-494 | the operators give the opposite, the exponential and the logarithm, and an error for the logarithm of a negative number |
| Sensors.GetStable | gator/daemon/libsensors/access.c:236-237 | raising the limit never changes a result other than the recursion error |
| Sensors.EvalStable | gator/daemon/libsensors/access.c:438-497 | the same for expressions |
| Sensors.AcyclicNotCutOff | gator/daemon/libsensors/access.c:31-33 | an acyclic configuration with references at most seven deep is never cut off |
| Sensors.CycleCutOff | gator/daemon/libsensors/access.c:31-33 | every subfeature on a cycle of references of any length is cut off at every limit |
| Sensors.CutOffExactly | gator/daemon/libsensors/access.c:227-277 | a subfeature is cut off at every limit if and only if its references never end: it belongs to subfeatures each of which leads to another of them |
| ChipNames.RoundTrip | gator/daemon/libsensors/data.c:85-201 | printing and parsing a concrete name gives it back, but for the number of an unnumbered bus, if and only if its prefix has no dash and is not the wildcard; the result matches the original |
| ChipNames.MatchExactly | gator/daemon/libsensors/access.c:41-65 | two patterns match if and only if some name without wildcards is covered by both |
| ChipNames.PatternBack | gator/daemon/libsensors/data.c:85-163 | every pattern, with wildcards for prefix, bus, number or address, is read as what it says |
| ChipNames.ShortBusWords | gator/daemon/libsensors/data.c:114-129 | bus words may be cut short, and what two have in common means the first |
| ChipNames.NoDashRefused | gator/daemon/libsensors/data.c:94-95 | a name without a dash is refused |
| ChipNames.UnknownBusRefused | gator/daemon/libsensors/data.c:128-129 | so is an unknown bus |
| ChipNames.PrintedI2c | gator/daemon/libsensors/data.c:181-183 | how a name on an I2C bus looks |
| ChipNames.BusWords | gator/daemon/libsensors/data.c:174-198 | the words of the other buses, the widths of their addresses, and which show a number |
| ChipNames.BusBack | gator/daemon/libsensors/data.c:112-163 | bus word, number and address are read back |
| ChipNames.ScanAppend | gator/daemon/libsensors/data.c:145 | the digits of a number scan to it |
| MaliActivity.StepInv | gator/driver/gator_trace_gpu.c:87-133 | every event keeps each unit's trace alternating and its counts right |
| MaliActivity.TraceAlternates | gator/driver/gator_trace_gpu.c:87-133 | for every run and unit starts and stops strictly alternate, starts are the enqueues less those waiting, and with at most two jobs outstanding they are the enqueued jobs in order |
| MaliActivity.JobsInTurn | gator/driver/gator_trace_gpu.c:61-133 | for every run the jobs start in the order in which they were queued if and only if at every stop with others waiting the newest job looks like the one whose turn it is; with none waiting at the end they are then exactly the queue |
| MaliActivity.JobsLostExactly | gator/driver/gator_trace_gpu.c:61-133 | for jobs that can be told apart: a queued job is neither started nor waiting if and only if three were outstanding at once, and with none waiting the starts are the queue if and only if that never happened |
| MaliActivity.SameProcessInTurn | gator/driver/gator_trace_gpu.c:87-133 | the trace of a unit that only one process uses is always in order |
| MaliActivity.ThreeNeedNotShow | gator/driver/gator_trace_gpu.c:87-133 | an example: three jobs of one process outstanding at once, and a right trace |
| MaliActivity.LateTraceAlternates | gator/driver/gator_trace_gpu.c:102-133 | with the switches marshalled after the lock in any order in which none of a unit overtakes another of it, what was marshalled is the start of the alternating trace, and all of it once nothing is pending |
| MaliActivity.OvertakenStart | gator/driver/gator_trace_gpu.c:102-133 | a stop can be marshalled before the start it belongs to |
| MaliActivity.CrowdedExactly | gator/driver/gator_trace_gpu.c:96-101 | the slot counts the jobs outstanding, by the events alone |
| MaliActivity.ThirdJobLosesSecond | gator/driver/gator_trace_gpu.c:98-101 | an example: with three jobs outstanding the third is shown twice and the second not at all |
| MaliActivity.Activities.Index | gator/driver/gator_trace_gpu.c:69-85 | the table is a map: the unit's entry is found or a free one claimed, and it fails exactly when full |
| MaliActivity.Activities.ActivityEnqueue | gator/driver/gator_trace_gpu.c:87-106 | refines the enqueue step |
| MaliActivity.Activities.ActivityStop | gator/driver/gator_trace_gpu.c:108-133 | refines the stop step |
| PerfGroups.PerfGroup.DoAdd | gator/daemon/PerfGroup.cpp:72-103 | takes the next slot; used slots stay a prefix |
| PerfGroups.PerfGroup.CreateCpuGroup | gator/daemon/PerfGroup.cpp:120-140 | while no slot belongs to the CPU group: succeeds exactly if the tracepoint id can be read and the slots suffice, and the next slot then leads the group |
| PerfGroups.PerfGroup.Add | gator/daemon/PerfGroup.cpp:142-168 | creates the group of the type, the CPU group included, where it is missing; every slot that is not pinned has a pinned leader before it that is opened wherever it is |
| PerfGroups.PerfGroup.PrepareCpu | gator/daemon/PerfGroup.cpp:170-217 | slots are tried once, in order; whenever one joins a group, the leader made for its type was tried on that CPU before; the pass goes on past events that do not apply, the first other failure decides its status, and a successful pass tries every slot due |
| PerfGroups.NewLeader | gator/daemon/PerfGroup.cpp:130-158 | the slot just taken can become a type's leader with every slot still led if and only if none belongs to that type yet |
| Kallsyms.SendLines | gator/daemon/Proc.cpp:282-301 | sends the bytes up to the newline and leaves the rest in front, by a copy that must not overlap |
| Kallsyms.ReadKallsyms | gator/daemon/Proc.cpp:253-302 | for any split into reads the chunks are whole lines and, with the carried bytes that hold no newline, make up what was read; at the end they are the input; with full reads, no empty line and lines of fewer than 2048 bytes no exception is raised |
| Kallsyms.LastNewline | gator/daemon/Proc.cpp:280-283 | the last newline |
| WakeIrqs.Driver.SetOne | droid_pm/droid_pm.c:161-187 | switches every interrupt of the bit, or none if nothing changes, and keeps all balances |
| WakeIrqs.Driver.SetMask | droid_pm/droid_pm.c:189-201 | the enabled mask changes by exactly the owned requested bits; the loop over the lowest bits ends |
| WakeIrqs.Driver.SetAll | droid_pm/droid_pm.c:189-201 | after any sequence of requests each interrupt is on once if and only if its bit is enabled |
| WakeIrqs.LastRequestDecides | droid_pm/droid_pm.c:189-201 | for every owned bit the last request that names it decides, and no other bit changes |
| WakeIrqs.Driver.Remove | droid_pm/droid_pm.c:1030-1036 | removal brings every balance to zero |
| WakeIrqs.Rebalanced | droid_pm/droid_pm.c:176-186 | switching the interrupts of one bit keeps the balance |
| WakeIrqs.LowestBit | droid_pm/droid_pm.c:194 | the lowest set bit |

## Left out

- Weak-memory effects and races inside a method: the source gives no ordering guarantee at that level.
- Sockets, semaphores, epoll, signals, sysfs and ioctl plumbing, configuration files and XML: foreign input and output.
- `Buffer::summary` and the 1024-byte summary buffer: no space check, and a margin larger than the buffer.
- Two writers on one buffer (`PerfSource` and its thread), and `ExternalSource`'s direct use of the write pointer.
- CaptureSpec.PutInv: core names whose overrun the margin does not cover are excluded; `CaptureSpec.CoveredExactly` shows that they do harm.
- CaptureBuffer.Buffer.Marshal: the same core names are excluded.
- CaptureSpec.NoLostWakeup: only for runs of messages that end in `check`; the counter and event messages do not, and for them the claim fails (`CaptureSpec.CounterListCrowds`).
- Annotate.FinishesExactly: only for schedules without faults; a copy that faults returns without the commit that the next writer may need.
- `userspace_buffer_read` in gator_main.c: the argument of `Buffer::write` again.
- `marshal_backtrace_header`: what it reserves depends on the address width.
- `get_cookie`'s translation of app_process names, and cookies wrapping round 32 bits.
- Cookies.CookieMap.Exists: keys of zero are excluded; zero marks an empty slot.
- File descriptors and the already-online check in `prepareCPU`, and `onlineCPU`, `offlineCPU`.
- Heap choice, heap growth and block moving in nx_ashmem: opaque library behaviour; an allocation is one answer.
- Truncation by `snprintf` into a short buffer when printing a chip name, and `sensors_set_value`.
- `droid_pm`'s suspend acknowledgements, event descriptors, input and device-tree code.
- WakeIrqs.Driver.constructor: interrupts that failed to register are left out; `probe` then clears their bit even if another interrupt shares it, and gives up.
- WakeIrqs.Driver.SetMask: masks are sets of bits below 32, and a zero mask is excluded; the source shifts by -1 for it.
- PerfFrames.PerfFrame.Add: events whose packed bytes do not fit a fresh frame, or that are empty, are excluded; the source would wrap its buffer or not end.
- PerfGroups.PerfGroup.CreateCpuGroup: a call when slots already belong to the CPU group is excluded; `PerfGroups.NewLeader` shows that it leaves them without a leader before them.
- Wrap-around of the 64-bit commit deadline.
- PMU register drivers, Mali kernel glue, gatorfs, the frame buffer driver and the constant tables.
