# Relocade: devices and data structures that skip work

Relocade emulates an x86 PC and compiles its own WebAssembly. Much of its code jumps over work
that a simple model would do step by step: a timer chip skips millions of clocks in one division, a
display clock counts missed frames without a loop, an operand emitter leaves results on the Wasm
stack instead of storing them. The modules here model those parts and prove that each jump is
the step-by-step behaviour it stands for, over every input and every run.

Check everything with `dafny verify dfyconfig.toml`.

| file | models |
|---|---|
| Counter.dfy, Clock.dfy, Timer.dfy | the 8254 counter, its time base, and the PC timer that drives IRQ0 |
| Audio.dfy | speaker samples integrated from counter 2 |
| Raster.dfy | the display clock: dots, retraces, deadlines, reprogramming |
| Pic.dfy, PicDevice.dfy | the 8259A interrupt controller and its lines, ports and waker |
| Operands.dfy, OperandView.dfy, Emit.dfy, EmitSemantics.dfy, Encode.dfy, Edge.dfy | stack coverage, work-stack emission, execution of the emitted code, and leaving a block |
| McbChain.dfy, DosMemory.dfy | the DOS allocator as lists of blocks, and as headers in guest RAM |
| Capture.dfy | display captures with accumulated dirty pages |
| Scroll.dfy, Keyboard.dfy | text scrolling and the keyboard ring, both in place in guest RAM |
| OrderedMap.dfy, Paths.dfy, FileSystem.dfy | the path-keyed file map that stays a tree |
| Mmio.dfy | memory-bus transfers cut at device boundaries |
| Union.dfy | overlapping enum payload layouts |
| Arithmetic.dfy, Time.dfy, Wrappers.dfy | division facts, nanoseconds, options, results, machine words |

A class has the fields of the source's object, and its methods are proved against functions on a
`State` (or on the bytes of guest memory); the lemmas are about those functions. Times are whole
nanoseconds. The timing of the 8254 follows the Intel 8254 data sheet ("Mode 2: Rate Generator",
"Mode 3: Square Wave Mode", "Counter Latch Command"); the controller follows the Intel 8259A data
sheet ("Fully Nested Mode", "End of Interrupt (EOI)", "Automatic Rotation"); emitted code runs as in
section 4.4 of the WebAssembly Core Specification 2.0.

## Where code and expectation differ

- The bus documentation says that transfers split only at device boundaries. The code splits at range
  boundaries, so a device with two adjacent ranges sees two pieces (`MmioBus.AdjacentRangesCut`);
  `MmioBus.CutWithinDevice` says exactly when.
- Service at a raster deadline counts exactly one retrace from every position if and only if a frame lasts
  at least a nanosecond (`Rasters.OneRetraceExactly`). Neither decoder of timing registers reaches the other
  side: their oscillators run at 25.175, 28.322, 40 and 65 MHz (crates/vga/src/registers/mod.rs:102-110,
  crates/vga/src/timing/svga.rs:8-13), and below a gigahertz service is always on time
  (`Rasters.DecodedTimingsServeOne`).
- In-service interrupts are the stack of what was accepted and not yet ended, with rising priority, but not in every
  run. In either mode an event keeps that stack exactly if it is one of `Pics.KeepsNesting` (`Pics.NestingStep`,
  `Pics.RunsNestExactly`): what is accepted outranks the top, a plain end of interrupt in special mask mode finds the
  top unmasked, and a command that names a new lowest priority does not move it to within the stack. The first
  two always hold outside special mask mode (`Pics.AcceptanceOutranks`, `Pics.PlainEndEndsLatest`), and a specific end
  of interrupt takes its interrupt out of the stack wherever it is. `Pics.ExplicitPriorityBreaksNesting` and
  `Pics.SpecialMaskBreaksNesting` are runs from power-on that leave the stack. Whether special mask mode can accept a
  lower priority next is judged before any request by `Pics.SpecialMaskExact`.
- Allocating DOS memory for owner zero succeeds and allocates nothing, and unless the block found has exactly the
  requested size it leaves two free blocks side by side (`McbChains.OwnerZeroAllocatesNothing`,
  `DosMemory.OwnerZeroLeavesNeighbours`) until the next request that succeeds merges them. No caller passes
  zero: a process is loaded with the first segment and the one returned for it as owners
  (crates/dos/src/process/startup.rs:34-36), and DOS services pass the loaded PSP
  (crates/dos/src/services/memory.rs:10-16).
- A count latched between the two bytes of an unlatched read is released after its high byte only
  (last case of `Counters.LatchedCountReadsBack`; `Counters.LatchAmidReadLosesLow` is a run from power-on).

## Model

| member | source | states |
|---|---|---|
| Counters.Counter.Advance | crates/pit/src/lib.rs:118-152 | advancing n clocks at once leaves the state of n single clocks and returns how many of them had OUT high, from every valid state: loads, retriggers, deferred reloads, count 1 |
| Counters.Counter.AdvancePeriodic | crates/pit/src/lib.rs:223-231 | the closed form over whole periods is the clock-by-clock phase and high time while no reload falls due |
| Counters.StepsAdd | crates/pit/src/lib.rs:118-152 | splitting a span of clocks anywhere changes neither the final state nor the total high time |
| Counters.PeriodicSteps | crates/pit/src/lib.rs:223-231 | single clocks of a running counter wrap the phase at the period and accumulate the high part of each |
| Counters.ReloadSteps | crates/pit/src/lib.rs:132-146 | single clocks up to the boundary load the pending divisor there, at a half-period in mode 3 |
| Counters.StepsValid | crates/pit/src/lib.rs:38-232 | any number of clocks keeps the register invariant |
| Counters.HighTimeBound | crates/pit/src/lib.rs:118-152 | high time never exceeds the clocks elapsed, and the first clock counts exactly if OUT is high |
| Counters.DivisorWaits | crates/pit/src/lib.rs:53-73 | a divisor written to a running counter in any access format, with or without another pending, leaves OUT, phase and period alone until the mode's boundary and takes effect on it |
| Counters.FirstCount | crates/pit/src/lib.rs:53-73 | a first divisor in any access format loads on the next clock without decrementing; 0 is 65536 and 1 stops the counter with OUT high |
| Counters.GateRetriggers | crates/pit/src/lib.rs:105-111 | a low gate holds OUT high for any time, and a rising gate starts a fresh high phase with the last divisor one clock later |
| Counters.LatchedCountReadsBack | crates/pit/src/lib.rs:75-103 | in any access format a latched count survives any clocks before and between its reads and is then released, after a latched status if there is one |
| Counters.LatchAmidReadLosesLow | crates/pit/src/lib.rs:75-103 | a run from power-on in which a latch between two reads gives its high byte and is released |
| Counters.StatusReadsFirst | crates/pit/src/lib.rs:75-103 | a latched status shows OUT, null count and programming as of the latch, is read before any count, and leaves a count latch alone |
| Counters.RateGeneratorSequence | crates/pit/src/lib.rs:188-221 | mode 2 counts N, N-1, ..., 1 and is low exactly at 1 |
| Counters.SquareWaveSequence | crates/pit/src/lib.rs:188-221 | mode 3 counts down by two and toggles OUT, with the extra high clock of odd divisors |
| Counters.SteadyUntilTransition | crates/pit/src/lib.rs:154-170 | OUT does not change before the announced transition |
| Counters.AtTransition | crates/pit/src/lib.rs:154-170 | at the announced transition OUT changes, a load completes, or an invalid count stops the counter |
| Counters.EdgeRankFalls | crates/pit/src/lib.rs:172-186 | from any state a bounded number of transitions ends the search for a rising edge |
| Counters.NoRiseThroughTransition | crates/pit/src/lib.rs:172-186 | moving the search past one transition either finds the first rise or rules out every clock so far |
| Counters.Counter.NextRisingEdge | crates/pit/src/lib.rs:172-186 | returns the first clock on which OUT goes from low to high, and nothing exactly when it never does; within 3 * 65536 clocks |
| Counters.Counter.Control | crates/pit/src/lib.rs:39-52 | a control word resets all but the gate, or latches the count when its access bits are zero |
| Counters.Counter.Write | crates/pit/src/lib.rs:53-73 | count bytes follow the programmed access order |
| Counters.Counter.Read | crates/pit/src/lib.rs:75-91 | status first, then latched or live count bytes in order |
| Counters.ControlWordStops | crates/pit/src/lib.rs:39-52 | a control word with access bits, given to any counter in any state, stops it: OUT is high in modes 2 and 3, the count is 0, no latch or half-written count is left, the gate is kept, and clocks change nothing |
| Counters.ControlWordThenCount | crates/pit/src/lib.rs:39-73 | the next complete count is then whole, at the start of a high part, one clock after it is written, under either gate |
| Counters.ControlWordLatches | crates/pit/src/lib.rs:39-42 | a control word without access bits latches the count and does nothing else |
| Counters.SecondLatchIgnored | crates/pit/src/lib.rs:92-103 | a second latch before the first value is read changes nothing, whatever clocks pass in between |
| Counters.UnlatchedReads | crates/pit/src/lib.rs:75-91 | unlatched reads give the bytes of the live counter, each as of its own read, low byte first if both are asked for |
| Counters.FirstByteWaits | crates/pit/src/lib.rs:53-73 | the first byte of a two-byte count only waits; without access bits no byte does anything |
| Counters.GateChanges | crates/pit/src/lib.rs:105-111 | only a rise of the gate starts a load, and only once there is a divisor; a gate set to what it is changes nothing |
| Clocks.FirstNanosecond | crates/pit/src/clock.rs:6-20 | clock c has passed at time t exactly when t is at least the time of c |
| Clocks.ClockRoundTrip | crates/pit/src/clock.rs:6-20 | the clock index at a clock's own time is that clock |
| Clocks.NanosecondsStayBelowSecond | crates/pit/src/clock.rs:13-20 | rounding up never produces a full second of nanoseconds |
| Clocks.SecondHasClocks | crates/pit/src/clock.rs:6-11 | every whole second holds exactly 1193182 clocks, wherever it begins |
| Timers.SyncedInterrupt | crates/pit/src/timer.rs:81-97 | one synchronisation keeps the recorded IRQ0 level equal to OUT0 and requests IRQ0 in edge mode exactly if OUT0 rose, touching nothing else in the controller |
| Timers.SyncedExact | crates/pit/src/timer.rs:81-97 | a synchronisation moves both counters by exactly the clocks between the two times |
| Timers.ScheduleIndependent | crates/pit/src/timer.rs:81-97 | any rising sequence of synchronisations equals one at its last time |
| Timers.PendingIffRose | crates/pit/src/timer.rs:81-97 | after any such sequence IRQ0 is pending in edge mode exactly if it was before or OUT0 rose at least once |
| Timers.PendingExactly | crates/pit/src/timer.rs:81-179 | over whole runs of register accesses and controller activity, IRQ0 is pending in edge mode exactly if OUT0 rose, by clocks or by programming, since it was last taken or cleared |
| Timers.DeadlineIsExact | crates/pit/src/timer.rs:104-120 | the wake-up deadline is the exact nanosecond of the next transition: nothing changes before it, and without one nothing ever does |
| Timers.TrackingStep | crates/pit/src/timer.rs:81-179 | every port access, gate change and synchronisation keeps the recorded IRQ0 level equal to OUT0 |
| Timers.RunsTrack | crates/pit/src/timer.rs:81-179 | so does every run, interleaved with any PIC activity but changes of IRQ0's line from outside |
| Timers.Pit.WithClock | crates/pit/src/timer.rs:37-55 | starts channel 0 in mode 3 with 65536 loaded and connects IRQ0 high without an edge |
| Timers.Pit.SyncToClock | crates/pit/src/timer.rs:81-97 | the pulse, level and counters of the source's sequence are the specified synchronisation |
| Timers.Pit.WritePort | crates/pit/src/timer.rs:136-178 | decodes channel writes, control words, latches and read-back; every write to channel 2 that is not a latch replaces the pending update of the speaker, the first byte of a two-byte count included |
| Timers.Pit.ReadPort | crates/pit/src/timer.rs:127-134 | reads only single bytes of channels 0 and 2 after synchronising |
| Timers.CountPorts | crates/pit/src/timer.rs:136-178 | bytes written to 40h and 42h are counts of channels 0 and 2, and leave the other channel alone |
| Timers.ControlPort | crates/pit/src/timer.rs:136-178 | the top two bits written to 43h name the channel that takes the control word; the other stays as it was |
| Timers.ReadBackPort | crates/pit/src/timer.rs:136-178 | read-back latches count and status of exactly the channels whose bits are set, as the two clear bits ask |
| Timers.OtherAccesses | crates/pit/src/timer.rs:127-178 | every other port and width changes nothing and reads as open bus; reading 40h or 42h reads that channel and leaves the other alone |
| Timers.GateReaches | crates/pit/src/timer.rs:68-73 | the gate of the speaker reaches channel 2 only and hands its phase to playback |
| SpeakerAudio.WindowBounds | crates/pc-speaker/src/audio.rs:63-72 | every sample integral lies in 0..INPUT_HZ, so the subtraction never underflows |
| SpeakerAudio.SamplesTelescope | crates/pc-speaker/src/audio.rs:55-77 | the integrals of any number of samples add up to the exact OUT2 high time in 1/rate clocks |
| SpeakerAudio.BuffersCompose | crates/pc-speaker/src/audio.rs:55-77 | two buffers hold the samples one longer buffer would hold |
| SpeakerAudio.ReachedCompose | crates/pc-speaker/src/audio.rs:55-77 | the counter and fraction carried across buffers do not depend on where they were cut |
| SpeakerAudio.ChannelsTelescope | crates/pc-speaker/src/audio.rs:55-77 | the values of one channel of a buffer add up to a fifth of the exact OUT2 high time, over 1193182 |
| SpeakerAudio.FramesAsked | crates/pc-speaker/src/audio.rs:55-62 | a buffer size is used as asked up to 256 frames |
| SpeakerAudio.Audio.Sample | crates/pc-speaker/src/audio.rs:64-73 | one sample is the high time of its window, and the fraction stays below the rate |
| SpeakerAudio.Audio.Buffer | crates/pc-speaker/src/audio.rs:55-77 | an enabled buffer holds its samples on every channel; a disabled one is silent and moves nothing |
| Rasters.AdvanceTwice | crates/vga/src/raster.rs:31-56 | dot, remainder and retrace count after two updates are those after one |
| Rasters.CompletedTwice | crates/vga/src/raster.rs:31-56 | the retrace reported by one update is the last one reported by two |
| Rasters.ScheduleIndependent | crates/vga/src/raster.rs:31-56 | any rising sequence of updates leaves the position and last reported retrace of one jump |
| Rasters.CrossesAtDelay | crates/vga/src/raster.rs:95-111 | a retrace is crossed exactly from the announced deadline on |
| Rasters.DatedAtDeadline | crates/vga/src/timing.rs:81-95 | servicing late, before the next boundary, reports the deadline's own date |
| Rasters.OneRetraceExactly | crates/vga/src/raster.rs:95-111 | exactly which timings count one retrace at the deadline from every position: those whose frame lasts at least a nanosecond |
| Rasters.OneRetraceAtDeadline | crates/vga/src/raster.rs:95-111 | servicing on time counts one retrace dated at the deadline whenever a frame lasts at least a nanosecond |
| Rasters.DecodedTimingsServeOne | crates/vga/src/timing.rs:13-64 | every timing with an oscillator of at most a gigahertz does |
| Rasters.DateInside | crates/vga/src/raster.rs:51-52 | the reported date is never before the previous update |
| Rasters.SetTimingKeepsBounds | crates/vga/src/raster.rs:58-85 | dot and remainder stay in range under any reprogramming |
| Rasters.SameGridKeepsDot | crates/vga/src/raster.rs:58-85 | reprogramming that keeps the grid keeps the dot, and rescales its fraction rounding down |
| Rasters.Raster.UpdateTo | crates/vga/src/raster.rs:29-56 | the source's update is the specified advance, and reports the latest retrace with the time since it kept in 64 bits of nanoseconds |
| Rasters.DotsPerSecond | crates/vga/src/timing.rs:62-73 | in as many seconds as the dot clock is divided by, exactly the oscillator's count of dots passes from any beam |
| Rasters.UpdatesDotByDot | crates/vga/src/raster.rs:29-56 | an update moves the beam as many single dots over the grid as passed, and counts a retrace each time the beam enters dot 0 of the line where vertical retrace starts |
| Rasters.FrameReturns | crates/vga/src/raster.rs:29-56 | a whole grid of dots, in the timing's own totals, returns the beam to its dot and counts one retrace |
| Rasters.StoppedHolds | crates/vga/src/raster.rs:29-56 | without an oscillator nothing moves and nothing is reported, and a clock behind the last update moves nothing |
| Rasters.ReportedExactly | crates/vga/src/timing.rs:81-87 | the reported date is the date of the retrace exactly while the time since it fits 64 bits of nanoseconds |
| Rasters.ShortFramesExact | crates/vga/src/timing.rs:81-95 | in frames shorter than about 584 years nothing is cut off: reports and deadlines are exact |
| Rasters.Raster.SetTiming | crates/vga/src/raster.rs:58-85 | tells whether the timing changed and repositions the beam |
| Rasters.ResetStartsOver | crates/vga/src/raster.rs:58-85 | entering or leaving reset starts a frame over, and writing the same timing changes nothing |
| Rasters.CountersKept | crates/vga/src/raster.rs:58-85 | when the grid changes the beam keeps its vertical and horizontal counts, wrapped at the new totals, with the line within a count scaled and the dot within a count cut to its width |
| Rasters.FractionKept | crates/vga/src/raster.rs:58-85 | the fraction of a dot already travelled is kept, rounded down to the units of the new clock |
| Rasters.Raster.NextRetraceAt | crates/vga/src/raster.rs:95-111 | announces the specified delay, kept in 64 bits of nanoseconds, or none without a boundary or a representable time |
| Pics.FullyNested | crates/pic/src/controller.rs:78-112 | the IRQ delivered is exactly the unmasked request that outranks all other requests and everything blocking in service |
| Pics.HighestPriority | crates/pic/src/controller.rs:78-82 | the rotating search finds the member of least rank |
| Pics.NestingStep | crates/pic/src/controller.rs:93-126 | from a recorded stack, in special mask mode or not, the in-service set after an event is the recorded stack of rising priority exactly if the event is one of KeepsNesting, judged before it happens |
| Pics.AcceptanceOutranks | crates/pic/src/controller.rs:101-126 | outside special mask mode every acknowledge pushes a strictly higher priority |
| Pics.PlainEndEndsLatest | crates/pic/src/controller.rs:186-206 | outside special mask mode every non-specific EOI, rotating or not, ends the most recent acknowledge |
| Pics.RunsNest | crates/pic/src/controller.rs:78-206 | without special mask mode and commands that name a lowest priority, every run keeps the stack; specific ends of interrupt are allowed |
| Pics.RunsNestExactly | crates/pic/src/controller.rs:78-206 | through any modes, the in-service set is the recorded stack of rising priority all along a run exactly if each of its events is one of KeepsNesting where it happens |
| Pics.RotationExact | crates/pic/src/controller.rs:89-91 | moving the lowest priority keeps a stack in order exactly if it lands above all of it or below all of it |
| Pics.SpecificEndExact | crates/pic/src/controller.rs:186-200 | a specific end of interrupt removes its interrupt from the stack; with rotation the rest stays in order exactly under the condition on rotation |
| Pics.PowerUpNests | crates/pic/src/controller.rs:59-76 | the law holds at power-on |
| Pics.ExplicitPriorityBreaksNesting | crates/pic/src/controller.rs:203-205 | a run from power-on in which a set-priority command makes a plain end of interrupt end the older interrupt |
| Pics.SpecialMaskExact | crates/pic/src/controller.rs:93-112 | in special mask mode, whatever is requested, acceptances outrank the latest one exactly if every unmasked input below it is blocked by an unmasked interrupt in service |
| Pics.SpecialMaskEndExact | crates/pic/src/controller.rs:93-99 | there a plain end of interrupt ends the latest acceptance exactly if it is not masked |
| Pics.SpecialMaskBreaksNesting | crates/pic/src/controller.rs:93-112 | a run from power-on in which a lower priority is accepted last and the plain end of interrupt ends the higher one |
| Pics.WakeupStep | crates/pic/src/lib.rs:77-86 | no event leaves a deliverable interrupt beside a registered, unwoken waker |
| Pics.WakeupExact | crates/pic/src/lib.rs:77-86 | a waiting processor is woken exactly when an interrupt becomes deliverable |
| Pics.IrqsRegisterBack | crates/pic/src/controller.rs:40-56 | reading registers as sets of inputs loses nothing |
| Pics.RegisterShowsIrqs | crates/pic/src/controller.rs:152-160 | a register read shows exactly its inputs |
| Pics.InitializationRun | crates/pic/src/controller.rs:172-184 | from any state exactly the words that ICW1 announces are taken as initialisation, nothing is delivered before the last, and they leave the vector base of ICW2 rounded down to eight, the trigger mode and automatic EOI asked for, no mask and nothing in service |
| Pics.InitializedDelivers | crates/pic/src/controller.rs:218-254 | in edge mode, a rise of any input that was low is then delivered with the upper bits of ICW2 and the number of the input |
| Pics.VectorBaseKept | crates/pic/src/controller.rs:218-254 | nothing but initialisation changes the vector base |
| Pics.SelectionReads | crates/pic/src/controller.rs:152-160 | after OCW3 the next read of the command port is a poll once, with the interrupt taken or 0, or the register selected |
| Pics.SelectsModes | crates/pic/src/controller.rs:208-216 | OCW3 sets special mask mode and the selected register exactly where its enabling bits ask, and nothing else |
| Pics.AcceptanceTakes | crates/pic/src/controller.rs:114-126 | taking an interrupt withdraws its edge, puts it in service unless it ends automatically, and then moves the lowest priority exactly in rotating mode |
| Pics.AcceptanceWaits | crates/pic/src/controller.rs:114-126 | with nothing to take, accepting only registers the waiting processor |
| Pics.RotationSwitch | crates/pic/src/controller.rs:186-206 | what each OCW2 that ends no interrupt does: rotation on automatic ends switches, or the lowest priority moves |
| Pics.MaskReadsBack | crates/pic/src/controller.rs:218-224 | a mask written to a running controller reads back |
| Pics.ConnectionRecords | crates/pic/src/lib.rs:64-75 | connecting a line records its level and invents no edge |
| PicDevices.PulseLatchesEdge | crates/pic/src/lib.rs:103-108 | a pulse leaves exactly one pending edge in edge mode and a low level |
| PicDevices.LineChange | crates/pic/src/lib.rs:98-101 | only a rise latches, and in level mode requests follow levels |
| PicDevices.Pic.UnmaskIrq | crates/pic/src/lib.rs:58-62 | enables an input without dropping its pending request |
| PicDevices.LevelsFollowLines | crates/pic/src/controller.rs:134-150 | recorded levels change only with the lines, also across initialisation |
| PicDevices.VectorBaseAligned | crates/pic/src/controller.rs:218-254 | the vector base stays aligned, so base and IRQ never overlap |
| PicDevices.Pic.PollInterrupt | crates/pic/src/lib.rs:135-142 | supplies the vector of the next IRQ and acknowledges it |
| PicDevices.Pic.WritePort | crates/pic/src/lib.rs:124-133 | decodes command and data writes and wakes if needed |
| PicDevices.Pic.ReadPort | crates/pic/src/lib.rs:112-122 | decodes register reads and polls; the byte read shows exactly the masked, requested or in-service inputs |
| OperandViews.NewView | crates/compiler/src/emit/view.rs:12-92 | every item left on the stack has one result, and the items inlined into each consumer, in the order its operands need them, are exactly the unbroken run of items before it; that run is exactly the one the greedy rule covers, so nothing it could leave on the stack is stored |
| OperandViews.LastOperandStays | crates/compiler/src/emit/view.rs:99-127 | the only use of an item's only result as the last operand of the next item that stays is never stored |
| Emission.AssignLocals | crates/compiler/src/emit.rs:36-51 | entry parameter c has local c, and the other values that are not literals follow the parameters in order of definition |
| Emission.PopTask | crates/compiler/src/emit.rs:115-155 | popping one task splits the code still to come into its own code followed by the code of the rest |
| Emission.Expand | crates/compiler/src/emit.rs:115-155 | the explicit work stack emits the code of recursive post-order, and terminates |
| Emission.BlockItems | crates/compiler/src/emit.rs:156-170 | a block emits its remaining items in order, each followed by its results stored or dropped from the last |
| EmitSemantics.CodeSound | crates/compiler/src/emit.rs:115-155 | executing the code of operands pushes exactly their values and performs their inlined items in program order, for any meaning of the items |
| EmitSemantics.ItemSound | crates/compiler/src/emit.rs:156-170 | executing one item leaves the operand stack as it was and every used result in its local |
| EmitSemantics.BlockSound | crates/compiler/src/emit.rs:156-170 | executing a block leaves the operand stack as it was and every live result in its own local with its evaluated value |
| EmitSemantics.BlockFrame | crates/compiler/src/emit.rs:156-170 | a block changes no local but those of its used results that stay in place |
| EmitSemantics.BlockThenExit | crates/compiler/src/emit/control.rs:180-184 | the exit's operands are then pushed in order and the world is as if all items had run in order |
| Edges.EdgeSound | crates/compiler/src/emit/control.rs:213-223 | leaving for another block, every parameter of the target ends with its argument as the block left it, the operand stack and every other local untouched |
| Edges.EdgeExchanges | crates/compiler/src/emit/control.rs:213-223 | parameters passed to one another exchange their values although each local is overwritten |
| Edges.Edge | crates/compiler/src/emit/control.rs:213-223 | emits the arguments in order and then the stores in reverse |
| Encoding.EncodeBlock | crates/compiler/src/emit.rs:33-71 | from any valid block, locals, view, items and exit operands together run as the block does, started with parameter c in local c and values of other blocks in the locals assigned to them |
| McbChains.AllocateSound | crates/dos/src/memory.rs:31-55 | for every owner: allocation gives the segment at the start of the first free block that is large enough, and adds there one live block of the requested size and owner, none for owner zero, or, exactly when no free block fits, reports the largest; free neighbours remain exactly for owner zero and no exact fit |
| McbChains.FreeSound | crates/dos/src/memory.rs:57-64 | freeing removes exactly the named live block, and fails exactly when there is none |
| McbChains.ResizeSound | crates/dos/src/memory.rs:66-91 | resizing changes only the size of the named block; a refusal grew it as far as its neighbours let it |
| McbChains.AllocateThenFree | crates/dos/src/memory.rs:31-64 | freeing what was just allocated restores the original block list; what owner zero was given cannot be freed |
| McbChains.OwnerZeroAllocatesNothing | crates/dos/src/memory.rs:50-54 | allocating for owner zero leaves every live block and nothing to free, and two free neighbours unless the fit is exact |
| McbChains.CoalesceSound | crates/dos/src/memory.rs:113-123 | merging keeps the tiling and the live blocks and leaves no adjacent free blocks |
| McbChains.CoalesceInPlace | crates/dos/src/memory.rs:113-123 | the in-place loop is that merge |
| McbChains.FirstFit | crates/dos/src/memory.rs:38-41 | finds the first free block that fits, and fails exactly when none does |
| McbChains.LargestFree | crates/dos/src/memory.rs:42-47 | the size of the largest free block |
| DosMemory.ChainIffStored | crates/dos/src/memory.rs:125-153 | reading succeeds exactly on headers that tile the arena, and returns them |
| DosMemory.WriteThenRead | crates/dos/src/memory.rs:125-171 | reading inverts writing on every tiling |
| DosMemory.DataUntouched | crates/dos/src/memory.rs:155-171 | writing headers changes no byte inside any block |
| DosMemory.LiveBytesKept | crates/dos/src/memory.rs:155-171 | so no byte of a block live afterwards changes, the kept prefix of a resized block included |
| DosMemory.ReadChain | crates/dos/src/memory.rs:125-153 | the loop over headers is the specified reading, malformed chains included |
| DosMemory.WriteChain | crates/dos/src/memory.rs:155-171 | the loop over blocks stores all headers and nothing else |
| DosMemory.Reset | crates/dos/src/memory.rs:20-29 | one free block fills the arena |
| DosMemory.Allocate | crates/dos/src/memory.rs:31-55 | the headers in RAM become those of the list operation; a failure changes no byte |
| DosMemory.Free | crates/dos/src/memory.rs:57-64 | likewise for freeing |
| DosMemory.Resize | crates/dos/src/memory.rs:66-91 | likewise for resizing, which writes even when it refuses |
| DosMemory.RunsStayTiled | crates/dos/src/memory.rs:31-123 | after any requests for any owners the headers tile the arena; while no allocation names owner zero no two free blocks are adjacent |
| DosMemory.ServedSound | crates/dos/src/memory.rs:31-123 | every request keeps the tiling, and leaves no adjacent free blocks exactly under a condition judged before it |
| DosMemory.OwnerZeroLeavesNeighbours | crates/dos/src/memory.rs:50-53 | four paragraphs for owner zero after a reset leave two adjacent free blocks |
| DosMemory.HeaderBytes | crates/dos/src/memory.rs:125-171 | the bytes of each header in guest RAM: the letter, the owner and the size, low byte first |
| DosMemory.FirstProcess | crates/dos/src/memory.rs:31-55 | the first allocation after a reset that fits returns the first segment, whatever it asks for |
| Captures.StepKeepsInv | crates/vga/src/lib.rs:146-171 | every interleaving step keeps stored and held captures truthful: they differ from their baseline only inside their pages |
| Captures.CapturesNeverLoseWrites | crates/vga/src/capture.rs:72-128 | in every run, uploading any taken capture by its hints reproduces its whole memory |
| Captures.SingleConsumerSendsPages | crates/vga/src/capture.rs:63-86 | a consumer that uploads each taken capture before the next take never sends whole a block the GPU already has a version of: it skips it or sends its pages |
| Captures.UploadExact | crates/vga/src/renderer/memory.rs:40-66 | the upload is complete whatever was uploaded before |
| Captures.WriteBlocks | crates/vga/src/renderer/memory.rs:40-66 | the loop over blocks is that upload |
| Captures.FrameSource.Publish | crates/vga/src/capture.rs:107-128 | a publication keeps the pending baseline and accumulates pages |
| Captures.FrameSource.TakeCapture | crates/vga/src/capture.rs:72-85 | taking returns the capture with its hints and leaves it readable without them |
| Captures.WriteStep | crates/vga/src/memory/storage.rs:71-80 | a guest write copies a shared block first, so no capture changes |
| Captures.PublishStep | crates/vga/src/capture.rs:107-128 | the merged capture is truthful although the stored one may have been taken since it was drawn |
| Captures.HintsFollow | crates/vga/src/lib.rs:123-171 | what each event does to hints and captures: a write marks its page, a drawn capture holds the blocks asked for, and after any publication the newest memory and inputs are what is stored |
| Captures.LocationExact | crates/vga/src/memory/storage.rs:59-64 | display addresses and places in the blocks are in one-to-one correspondence |
| Captures.SnapshotCovers | crates/vga/src/memory/storage.rs:82-89 | a snapshot's blocks hold every byte asked for, and one group of blocks less would not |
| Scrolling.Text | crates/bios/src/screen/scroll.rs:83-107 | row by row in place equals copying all rows at once: each window row ends as the original row at the distance, or blank, cell by cell, and no other byte changes |
| Scrolling.CellsScrolled | crates/bios/src/screen/scroll.rs:83-107 | at its own address, each cell of a scrolled window is the original character and attribute at the distance, or a space with the requested attribute |
| Scrolling.SourcePending | crates/bios/src/screen/scroll.rs:64-81 | the row order never reads an overwritten row |
| Scrolling.ClipExact | crates/bios/src/screen/scroll.rs:31-81 | clipping selects exactly the window's cells on the grid, and zero lines blank all of it |
| Scrolling.CellAddressExact | crates/bios/src/screen/geometry.rs:33-67 | while a grid stays inside text memory, spilling over its page or not, 16-bit address arithmetic does not wrap and stays there |
| FileSystems.MemoryFileSystem.CreateNew | crates/vfs/src/filesystem.rs:65-78 | adds exactly one file with a fresh identity, or fails changing nothing; the map stays a tree |
| FileSystems.MemoryFileSystem.CreateDir | crates/vfs/src/filesystem.rs:79-91 | likewise for a directory |
| FileSystems.MemoryFileSystem.CreateDirAll | crates/vfs/src/filesystem.rs:92-115 | adds exactly the missing directories, and fails exactly if a file stands in the way, then changing nothing |
| FileSystems.MemoryFileSystem.RemoveFile | crates/vfs/src/filesystem.rs:163-178 | removes exactly the named file |
| FileSystems.MemoryFileSystem.RenameFile | crates/vfs/src/filesystem.rs:180-193 | moves the file's identity, replacing only a file at the destination |
| FileSystems.MemoryFileSystem.RemoveDir | crates/vfs/src/filesystem.rs:195-204 | succeeds exactly on a directory with no descendant at any depth |
| FileSystems.MemoryFileSystem.ReplaceFile | crates/vfs/src/filesystem.rs:206-219 | gives the path a new identity no path had before |
| FileSystems.MemoryFileSystem.Metadata | crates/vfs/src/filesystem.rs:121-128 | looks a path up after checking it and its parents |
| FileSystems.LookupExact | crates/vfs/src/filesystem.rs:221-243 | in a tree, looking up finds what is present and tells apart malformed, blocked by a file, and missing |
| FileSystems.VacantExact | crates/vfs/src/filesystem.rs:65-91 | where a new node may go, and the error everywhere else |
| FileSystems.ReplaceableExact | crates/vfs/src/filesystem.rs:206-219 | where a file may go in place of another, and the error everywhere else |
| FileSystems.PathErrorNone | crates/vfs/src/filesystem.rs:221-231 | the parent check passes exactly if all ancestors are directories |
| FileSystems.ListingExact | crates/vfs/src/filesystem.rs:132-156 | a listing holds exactly the immediate children, each once, in order |
| FileSystems.EmptyListing | crates/vfs/src/filesystem.rs:195-204 | an empty listing means nothing at any depth below |
| Paths.SplitJoin | crates/vfs/src/filesystem.rs:233-243 | splitting distributes over separators |
| Paths.AboveValid | crates/vfs/src/filesystem.rs:233-243 | every ancestor of an accepted path is accepted and not empty |
| Paths.NameValid | crates/vfs/src/filesystem.rs:233-243 | a single name is accepted exactly if it is not empty, one dot or two, and holds no zero character |
| Paths.PathsCompose | crates/vfs/src/filesystem.rs:233-243 | accepted paths are the root, accepted names, and accepted paths joined by one separator |
| OrderedMaps.PrefixConvex | crates/vfs/src/filesystem.rs:142-147 | keys sharing a prefix are consecutive in the map's order |
| KeyboardRing.DataArea.Push | crates/bios/src/keyboard/data.rs:112-130 | appends to a bounded queue of slots - 1 keystrokes; a full push changes no byte |
| KeyboardRing.DataArea.Peek | crates/bios/src/keyboard/data.rs:132-146 | the oldest keystroke |
| KeyboardRing.DataArea.Read | crates/bios/src/keyboard/data.rs:148-157 | takes the oldest keystroke |
| KeyboardRing.DataArea.Discard | crates/bios/src/keyboard/data.rs:159-165 | empties the queue, moving only the head |
| KeyboardRing.DataArea.ControlBreak | crates/bios/src/keyboard/data.rs:167-178 | empties the queue by its tail and raises the break flag |
| KeyboardRing.DataArea.constructor | crates/bios/src/keyboard/data.rs:70-95 | the default ring is empty and holds fifteen keystrokes |
| KeyboardRing.PushedQueues | crates/bios/src/keyboard/data.rs:112-130 | writing the slot and the tail appends to the queue read from memory |
| KeyboardRing.QueueHead | crates/bios/src/keyboard/data.rs:132-146 | the oldest keystroke is where the head points in guest RAM, the character before the scan code |
| KeyboardRing.PushedBytes | crates/bios/src/keyboard/data.rs:97-130 | a push stores the keystroke where the tail points and moves the tail by two, or from the end to the start |
| KeyboardRing.RoomExact | crates/bios/src/keyboard/data.rs:97-118 | the next slot is the head exactly when the queue is at capacity |
| KeyboardRing.VisibleReads | crates/bios/src/keyboard.rs:183-193 | skipping untranslatable entries loses nothing readable |
| KeyboardRing.EnhancedReadsAll | crates/bios/src/keyboard/encoding.rs:26-33 | enhanced reads translate every entry |
| KeyboardRing.LegacyKeys | crates/bios/src/keyboard/encoding.rs:26-50 | what legacy reads make of each kind of key: grey Enter and slash, extended keys, keys of newer keyboards only, and all others |
| KeyboardRing.EnhancedKeys | crates/bios/src/keyboard/encoding.rs:26-33 | enhanced reads change only the marker of the newest keys to a zero character |
| KeyboardRing.Keyboard.PeekKey | crates/bios/src/keyboard.rs:177-193 | drops exactly the untranslatable entries in front and reports the next key |
| KeyboardRing.Keyboard.TryReadKey | crates/bios/src/keyboard.rs:195-200 | successive reads return exactly the translatable keystrokes of the queue in order |
| KeyboardRing.Keyboard.Write | crates/bios/src/keyboard.rs:235-251 | stores as many bytes as there is room for and says how many, or would block |
| MmioBus.AcceptedIffDisjoint | crates/machine/src/io.rs:188-201 | construction accepts exactly nonempty, pairwise disjoint ranges |
| MmioBus.IoBus.MmioSpan | crates/machine/src/io.rs:171-185 | finds the owner and the longest piece that stays in one range or in none |
| MmioBus.IoBus.ReadMmio | crates/machine/src/io.rs:105-124 | for devices of any meaning, a wide read is the longest pieces in ascending order, each one access of its owner, with FF where nothing is connected |
| MmioBus.IoBus.WriteMmio | crates/machine/src/io.rs:126-143 | for devices of any meaning, a wide write is the longest pieces in ascending order, each one access of its owner |
| MmioBus.PiecesReadBytes | crates/machine/src/io.rs:105-124 | for byte-addressed devices that equals reading byte by byte from the owner of each byte, side effects included |
| MmioBus.PiecesWriteBytes | crates/machine/src/io.rs:126-143 | for byte-addressed devices that equals writing byte by byte to the owner of each byte |
| MmioBus.LowByteFirst | crates/machine/src/io.rs:105-143 | a carrier's low byte is the byte at the lowest address |
| MmioBus.ReadOwned | crates/machine/src/io.rs:106-124 | a run of bytes with one owner is one wide transfer of a byte-addressed device |
| MmioBus.CutWithinDevice | crates/machine/src/io.rs:105-113 | a transfer is cut inside a device exactly where two of its ranges meet |
| MmioBus.AdjacentRangesCut | crates/machine/src/io.rs:105-113 | a device that sees two pieces of one transfer |
| UnionLayouts.SharedOrder | crates/wasm-bindings/src/union.rs:24-45 | the shared layout does not depend on the order of the variants |
| UnionLayouts.SharedGroups | crates/wasm-bindings/src/union.rs:24-45 | nor on their grouping |
| UnionLayouts.SharedLeast | crates/wasm-bindings/src/union.rs:24-45 | it is the least layout that holds every variant |
| UnionLayouts.SharedLength | crates/wasm-bindings/src/union.rs:24-45 | it is as long as the longest variant |
| UnionLayouts.VariantReturns | crates/wasm-bindings/src/union.rs:47-158 | any variant's values survive the shared payload bit for bit |
| UnionLayouts.ProjectSlots | crates/wasm-bindings/src/union.rs:47-158 | slot by slot each value is converted on its own, and a slot the variant lacks is zero |
| UnionLayouts.CastBits | crates/wasm-bindings/src/union.rs:47-158 | widening keeps the bits and fills with zeros, narrowing keeps the low 32 bits |
| UnionLayouts.WidenAssociates | crates/wasm-bindings/src/union.rs:71-165 | slot kinds widen to the same kind in any grouping |
| UnionLayouts.WidenTable | crates/wasm-bindings/src/union.rs:71-165 | the shared kind of each pair of slot kinds |
| UnionLayouts.SplitConcat | crates/wasm-bindings/src/slots.rs:73-100 | splitting undoes concatenation |
| UnionLayouts.ConcatSplit | crates/wasm-bindings/src/slots.rs:73-100 | concatenation undoes splitting |

## Left out

- Windows, sound and GPU output, worker transport, futures, listeners and channels: foreign calls; device activities are the atomic steps between waits.
- Wakers beyond the one the interrupt controller holds, which is a flag.
- Allocation failure and borrow checks.
- x86 instructions, decoding, register and scan-code tables, and the keyboard's scan decoder and shift flags.
- Counter: 8254 modes 0, 1, 4, 5 and BCD, which the source defers too; spans of 2^64 clocks or more.
- SpeakerAudio.Audio.Buffer: amplitudes are real numbers; rounding to f32 is not modelled.
- Rasters.Raster.UpdateTo: fewer than 2^64 retraces, where the source panics; dot and nanosecond products within the source's 64 and 128 bits.
- Raster: `input_status_1`, the display-enable bits and the retrace pulse, which only inspect the position.
- How VGA and SVGA registers decode to a timing: every timing with nonzero totals and divisors is covered.
- Encoding.EncodeBlock: one block at a time; other blocks enter as use counts and as locals already set, `resolve` is the identity, every item is enabled, and results are mathematical integers given meaning by an arbitrary function of inputs and world.
- OperandViews.NewView: the same single block, with every item enabled and `resolve` as the identity.
- Edges.EdgeSound: the branch itself, which is left to the block layout.
- The layout of blocks and branches, instruction selection, and reuse of Wasm locals by the function encoder.
- Captures: display registers and palette are one abstract input; page ranges are a set of pages, and atomic swaps are single steps.
- McbChains and DosMemory: guest edits of the headers between requests, except that malformed chains are rejected.
- Scrolling.Text: grids whose cell addresses run past the end of text memory.
- Scrolling: graphics modes and reading the geometry from the BIOS data area.
- FileSystems: file contents, handles and the read-only attribute; a file is its identity, and `open` is not modelled.
- KeyboardRing: rings whose offsets are inconsistent or overlap the fields that describe them.
- MmioBus: port transfers and interrupt polling.
- UnionLayouts: the compiler's own value representation; floats are bit patterns, and what the host does to the bits of a NaN is not modelled.
