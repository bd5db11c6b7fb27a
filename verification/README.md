# Serial path and companions of the 6809 board

A Dafny model of the parts of the firmware that move bytes, with proofs of what their comments and tests rely on.
Run `dafny verify dfyconfig.toml`.

The centre is the virtual MC6850 and everything around it:

- `mc6850.dfy`: the device, as a value (`Mc6850Spec`) and as the class with its fields (`Mc6850Device`), every method
  proved to be its specification; `mc6850_registers.dfy`: what that specification means bit by bit at the registers;
  `reset_runs.dfy`: what a master reset leaves behind. `spsc_queue.dfy`, `ring.dfy`: its queues; `io_driver.dfy`: the
  guest's driver; `write_ring.dfy`, `write_ring_runs.dfy`: the ring between the write interrupt and the main loop;
  `pump_pass.dfy`, `uart_pump.dfy`: the USB pump.
- `serial_path.dfy`: all of them as one state machine with four actors (USB pump on core 0, main loop of core 1, bus
  interrupt handlers, guest), whose steps interleave freely; `serial_safety.dfy`, `serial_transit.dfy`: the invariants
  of every step; `serial_theorems.dfy`: what follows for every run; `serial_witness.dfy`: runs that reach the limits of
  these theorems; `serial_methods.dfy`: the steps it makes of a method of the device are that method.
  `serial_split.dfy` takes the drain loop apart, `serial_pass.dfy` joins the pump's steps to the pump method, and
  `races.dfy` with `race_witness.dfy` shows what three of the atomicity assumptions are for.
- `deferral.dfy`: draining stores later is as good as acting on them at once. `spsc_interleaved.dfy`: the queue with
  every load and store a step of its own.

Beside it stand six more cores: `task_stack.dfy` (task register across nested interrupts), `guest6809.dfy` and
`guest_copy.dfy` (memory transfers by patched 6809 snippets, run by a small interpreter), `packbits.dfy`,
`disk_decoders.dfy`, `disk_protocol.dfy` and `disk_receiver.dfy` (the disk-image receiver in C and in assembly),
`frame_format.dfy`, `stress_frames.dfy` and `echo_faults.dfy` (the stress test's packets on both sides, and where a
fault in one shows), `put_decimal.dfy` (double dabble), `srecords.dfy` and `srecord_digits.dfy` (S-records).
`bytes.dfy` and `serial_line.dfy` are shared.

## Results that are conditions

Some promises hold only under a condition; each is proved exactly.

- The cached interrupt is the recomputed one if and only if CTS has not outlived its reason: taking bytes from the
  transmit queue does not set the dirty flag (`CachedResultIsRecomputed`). The error is on the safe side, and it
  happens (`CtsDoesOutlive`).
- Guest to host nothing is lost if and only if no store met a full write ring with a data store at its end
  (`GuestToHostExactlyOnce`). It can happen (`ByteIsLost`), and then the transmitter is stuck (`LossIsForGood`).
- A port's own interrupt finds nothing to send if and only if nothing was received and its ring is empty
  (`OwnInterruptFindsRingEmptyIff`).
- A drain turn of the write ring is exactly-once if and only if waiting entries and preempting pushes are at most 32:
  one overflow is harmless, a second is not (`TurnIsExactlyOnceIff`, `TurnsAreTakes`,
  `TurnLeavesNewest`, `SecondOverflowTears`).
- An RTI must be followed by fifteen bus cycles before the next acknowledge (`NextAcknowledgeSavesRestoredIff`) or
  task store (`StoreBehindRtiStaysIff`), and a seventeenth level of nesting unbalances the stack (`RestoredIffRoom`).
- The two PackBits decoders agree if and only if no run overflows (`DecodersAgreeIff`, `OverlongBlockParts`,
  `OverlongFrameParts`).
- The C frame sender is right if and only if its length is not 0: its count-down loop sends 65536 bytes for 0
  (`GuestFrameIsFrameIff`). An echo that passes is that frame under the same condition (`PassMeansFrameIff`).
- `sync_status` may not be interrupted by a data read (`InterruptedSyncIsRightIff`), OUTCH not between
  chunk/io.asm:202 and chunk/io.asm:205 (`LateStoreBreaksFlowControlIff`), and its polling loop not by the interrupt of
  the other port (`InterruptedPollingSendsTwiceIff`). Each of the three does happen (`RaceWitness`).

## Where code and documentation differ

- docs/virtual-peripherals.md:202 says that a master reset keeps the queues. The code flushes them
  (src/mc6850.cpp:52-53); the model does as the code (`MasterResetMeans`), and nothing put before is received after it
  (`NothingOldIsStaged`).
- docs/virtual-peripherals.md:59-62 gives register offsets that the programs under chunk/ do not use; no offset occurs
  in the model.
- chunk/io.asm:337 calls an empty ring on entry of TXIRQ something that should not happen. It happens while the
  store that switches the transmit interrupt off waits in the write ring (`RingIsFoundEmpty`), and does no harm beyond
  the error number that it leaves.
- chunk/diskload.c:70 calls 128 a no-op or end marker; both decoders end the block there.

## Model

| member | source | states |
|---|---|---|
| `SerialTheorems.HostToGuestExactlyOnce` | src/mc6809.cpp:341-357 | In every reachable state of every interleaving the bytes read from USB are the bytes INCH returned, the guest ring, the data register, the receive queue and the rest of the pump buffer, in this order, each exactly once |
| `SerialTheorems.GuestToHostExactlyOnce` | src/mc6809.cpp:358-371 | After any run the bytes given to OUTCH are those USB accepted, the pump buffer, the transmit queue, the data stores in the write ring and in the hands of the main loop, and the guest ring, in this order, if and only if no store of the run met a full write ring whose oldest entry was a data store; at most one byte is ever missing, and the host has a prefix in any case |
| `SerialTheorems.RunCarriesIff` | src/pico_thing.cpp:424-435 | From any state of the invariant: the byte in flight is in the write ring or with the main loop at the end of a run if and only if it was at its start and no store overwrote it |
| `SerialTheorems.LossIsForGood` | src/mc6850.cpp:91-97 | Once a byte has been overwritten, every later state shows TDRE clear and the pending flag set: the transmitter is stuck |
| `SerialTransit.StepCarriesIff` | src/pico_thing.cpp:424-435 | The same for one step: a step loses the byte in flight exactly when it stores into a full ring with that byte at its end |
| `SerialWitness.ByteIsLost` | src/pico_thing.cpp:424-435 | Such a state is reachable, for any byte: given to OUTCH, and in none of the places |
| `SerialTheorems.ReceiveNeverOverflows` | chunk/io.asm:365-408 | The byte-losing branch RX@F is unreachable; a clear flag means at most 62 bytes in the guest ring; the flag is RTS; while it is set outside the last-slot read RDRF is 0 and nothing can be staged |
| `SerialTheorems.InchReassertsRts` | chunk/io.asm:251-295 | With the flag set, a call of INCH turns RTS on if and only if it leaves at most 32 bytes in the ring |
| `SerialTheorems.TransmitNeverOverflows` | src/mc6850.cpp:143-166 | The transmit level never exceeds 801; a published TDRE means no outstanding write and a level of at most 800; the byte taken from the write ring is never dropped |
| `SerialTheorems.BurstNeverOverfills` | src/mc6809.cpp:350-354 | Every put of a burst sized from one look at the queue appends, whatever runs concurrently |
| `SerialTheorems.NoLostWakeUp` | src/mc6850.cpp:204-225 | If a byte could be staged, the dirty flag is set, or a recomputation or the flag store of host_transmit is under way |
| `SerialTheorems.CachedResultIsRecomputed` | src/mc6850.cpp:204-232 | With the flag clear and no flag store due, the receive half of the status and of the cached interrupt equals a full recomputation, the transmit half errs only on the safe side, and everything is exact if and only if CTS has not outlived its reason |
| `SerialTheorems.InterruptMeans` | src/mc6850.cpp:226-231 | In every reachable settled state: the cached answer is IRQ if and only if RDRF is set and the receive interrupt on, or TDRE set and the transmit interrupt on; bit 7 of the status says the same |
| `SerialTheorems.StatusByteMeans` | src/mc6850.cpp:63-76 | In every reachable state the published status byte has RDRF in bit 0, TDRE in bit 1, CTS in bit 3, IRQ in bit 7 and zeros elsewhere, each as its variables say |
| `SerialMethods.PollIsHasInterrupt` | src/mc6850.cpp:204-232 | The two steps that the state machine makes of has_interrupt are the method: with the flag set the look and the recomputation together, with the flag clear nothing |
| `SerialMethods.PutIsHostTransmit` | include/mc6850.h:119-119 | So are the put and the flag store host_transmit |
| `SerialMethods.CtsIsSetHostCts` | src/mc6850.cpp:99-106 | So are the two stores set_host_cts, the second exactly on a change |
| `SerialTheorems.OwnInterruptFindsRingEmptyIff` | chunk/io.asm:334-350 | At the end of any run, with this port asserting its interrupt: the routine takes the branch TXEMPTY if and only if RDRF is clear, TDRE set and the guest ring empty; with a settled cache RDRF and the ring decide; and if no store met a full write ring, the cause is a control store that switches the transmit interrupt off and is still undelivered |
| `SerialTheorems.RunKeepsSwitch` | chunk/io.asm:344-350 | Along any run in which no store meets a full write ring the newest control store, delivered or not, selects what the driver wants: the receive interrupt exactly while its flag is clear; the transmit interrupt on while the flag is clear and its transmit ring holds a byte, off while the flag is set or the ring is empty and TX@D has been passed |
| `SerialTheorems.DriverReturnsWhenDone` | chunk/io.asm:318-408 | The driver returns to the program from its receive half only when RDRF is clear or its flag set, from its transmit half only when TDRE is clear or at TX@D, and from the polling loop of OUTCH only when the ring is empty |
| `SerialTheorems.NothingIsStranded` | chunk/io.asm:334-350 | After such a run, with all stores delivered, the cache settled and the guest in the foreground: the device asserts its interrupt if and only if the flag is clear and there is a received byte, or a byte in the transmit ring while TDRE is set; and a byte in the receive queue means that one is shown unless the flag is set |
| `SerialWitness.RingIsFoundEmpty` | chunk/io.asm:334-350 | That happens: a reachable foreground state with a settled cache, its own interrupt asserted, and the branch TXEMPTY taken next |
| `SerialWitness.TransmitLevelIsAttained` | src/mc6850.cpp:143-166 | The bound is sharp: a reachable state has 801 bytes in the transmit queue |
| `SerialWitness.CtsDoesOutlive` | src/mc6850.cpp:204-232 | The inexact case is reachable: a settled state whose cached CTS has outlived its reason, so that a recomputation would change the device |
| `SerialInvariant.StepKeeps` | src/pico_thing.cpp:2155-2391 | Every step of the pump, the main loop (which takes an entry from the write ring in one step), the interrupt handlers and the guest keeps the whole invariant, and the losing step is never enabled |
| `SerialSplit.SplitRunIsRun` | src/pico_thing.cpp:2181-2188 | With that step taken apart, its loads and its tail store interleaved with everything else on the 32 slots: as long as no turn meets a second overflow, every run is a run of the path with the single step, which ends in the state that it stands for |
| `SerialSplit.SplitHostToGuestExactlyOnce` | src/mc6809.cpp:341-357 | So the path taken apart delivers to the guest exactly once and in order |
| `SerialSplit.SplitGuestToHostExactlyOnce` | src/mc6809.cpp:358-371 | And to the host: nothing given to OUTCH is missing if and only if no store found the 32 slots full between two turns with a data store in the slot at the tail; at most one byte is ever missing, the host has a prefix, and the transmit level stays within 801 |
| `SerialPasses.PassIsACall` | src/mc6809.cpp:341-371 | When only the pump steps between the start of a pass and its end, device, buffers and history change as the contract of the pump method promises |
| `SerialTheorems.RunKeeps` | src/pico_thing.cpp:2155-2391 | The invariant holds after every run, of any length, in any interleaving of these steps |
| `SerialTheorems.InitialHolds` | chunk/io.asm:89-112 | It holds for a constructed device and a freshly initialised port |
| `SerialInvariant.StoreControlKeeps` | src/mc6850.cpp:112-119 | A control store of the driver restores the agreement of RTS with the driver flag at once |
| `SerialInvariant.PumpPutKeeps` | include/mc6850.h:119-119 | The put half of host_transmit, before its flag store, keeps the invariant |
| `SerialInvariant.RecomputeKeeps` | src/mc6850.cpp:213-232 | The recomputing half of has_interrupt, after its flag was cleared, keeps the invariant |
| `SerialInvariant.DispatchDataKeeps` | src/mc6850.cpp:143-166 | Delivering a transmit byte moves exactly the byte in flight into the transmit queue |
| `SerialInvariant.ReceiveNextKeeps` | src/mc6850.cpp:181-202 | guest_receive drops no byte, not even on its RTS branch |
| `SerialInvariant.CallInchKeeps` | chunk/io.asm:251-295 | INCH with its early re-assertion of RTS keeps the invariant |
| `SerialInvariant.CheckSlotKeeps` | chunk/io.asm:366-393 | RX@L keeps the invariant on its room and last-slot paths |
| `SerialInvariant.ReadLastKeeps` | chunk/io.asm:383-387 | The data read that follows an RTS-off store takes the byte that was staged before |
| `SerialInvariant.SendByteKeeps` | chunk/io.asm:338-343 | A transmit byte moves from the guest ring into flight, with room waiting for it |
| `Races.InterruptedSyncIsRightIff` | src/mc6850.cpp:63-76 | With the read handler landing anywhere in sync_status (among the loads, behind the comparison, between the two stores): the published byte is right if and only if no variable that the handler clears visibly was loaded before or, once the byte is complete, it was the published one already |
| `RaceWitness.StatusGoesStale` | src/mc6850.cpp:63-76 | That matters: a reachable device has a full data register, and the byte composed from it goes stale |
| `Races.LateStoreBreaksFlowControlIff` | chunk/io.asm:202-205 | A store of IQ_RXTX that OUTCH decided on earlier breaks the flow-control rule if and only if the flag has been set meanwhile |
| `Races.LateStoreLosesByte` | chunk/io.asm:398-408 | After such a store under a full ring the next byte is staged and discarded, error number 0xBE is left, and conservation fails |
| `RaceWitness.ByteIsLostByLateStore` | chunk/io.asm:376-387 | Such a state is reachable: the guest has received 63 bytes of a burst and taken none, its flag is set, and a byte waits in the receive queue; the late store loses it |
| `Races.StaleIndexSendsAgainIff` | chunk/io.asm:207-219 | The store that OUTCH makes in its polling loop with an index loaded earlier sends again exactly the bytes that an interrupt routine has sent since; the order is kept if and only if the read index has not moved |
| `Races.InterruptedPollingSendsTwiceIff` | chunk/io.asm:207-219 | An interrupt of the other port in the polling loop (chunk/io.asm:308-318) makes OUTCH send a byte twice if and only if the routine finds TDRE set, whatever main loop and pump do before OUTCH goes on |
| `RaceWitness.ByteIsSentTwice` | chunk/io.asm:207-219 | Such a state is reachable, for any byte |
| `Mc6850Device.Mc6850.constructor` | src/mc6850.cpp:20-30 | The constructed device (whole new state) |
| `Mc6850Device.Mc6850.Reset` | src/mc6850.cpp:32-56 | A master reset returns the device to the constructed state, queues flushed, keeping only the cached interrupt (whole new state) |
| `Mc6850Device.Mc6850.SyncStatus` | src/mc6850.cpp:63-76 | The published byte becomes the one the state variables define, written only when it differs (whole new state) |
| `Mc6850Device.Mc6850.SyncTransmit` | src/mc6850.cpp:78-84 | The same after refreshing TDRE and CTS from the transmit queue (whole new state) |
| `Mc6850Device.Mc6850.WriteReceived` | src/mc6850.cpp:91-97 | The early part of a data store (whole new state) |
| `Mc6850Device.Mc6850.SetHostCts` | src/mc6850.cpp:99-106 | Host readiness; dirty exactly on a change (whole new state) |
| `Mc6850Device.Mc6850.ControlWrittenIsr` | src/mc6850.cpp:112-119 | The early part of a control store: RTS only, and not on a master reset (whole new state) |
| `Mc6850Device.Mc6850.GuestControl` | src/mc6850.cpp:121-141 | The deferred part of a control store: modes, or a master reset; RTS untouched (whole new state) |
| `Mc6850Device.Mc6850.GuestTransmit` | src/mc6850.cpp:143-166 | The deferred part of a data store on all three routes, full queues included (whole new state) |
| `Mc6850Device.Mc6850.RxReadFastPath` | src/mc6850.cpp:172-179 | The interrupt part of a data read (whole new state) |
| `Mc6850Device.Mc6850.GuestReceive` | src/mc6850.cpp:181-202 | The deferred part of a data read, with its RTS branch (whole new state) |
| `Mc6850Device.Mc6850.HasInterrupt` | src/mc6850.cpp:204-232 | Cached answer, or refresh, staging and recomputation; the result is the cached interrupt (whole new state) |
| `Mc6850Device.Mc6850.HostTransmit` | include/mc6850.h:119-119 | One byte into the receive queue and the dirty flag (whole new state) |
| `Mc6850Device.Mc6850.HostReceive` | include/mc6850.h:118-118 | The oldest transmit byte (whole new state) |
| `Mc6850Spec.SyncPublishes` | src/mc6850.cpp:63-76 | Deriving the status leaves it published: never stale |
| `Mc6850Registers.MasterResetMeans` | src/mc6850.cpp:32-56 | After any control byte with both low bits set: both queues empty, data register 0, status byte 2, no mode on, RTS asserted, nothing received, pending or asserted, everything to be derived again; only the cached answer stays |
| `Mc6850Registers.ResetForgets` | src/mc6850.cpp:32-56 | Any two devices are the same after it, but for the cached answer |
| `ResetRuns.NothingOldIsStaged` | src/mc6850.cpp:32-56 | After any run of stores, polls, reads and host traffic behind a master reset, the bytes staged and those still queued are, as multisets, among the bytes put since; and the run goes the same for any two devices that were reset |
| `ResetRuns.StagedWerePut` | src/mc6850.cpp:181-225 | Along any run from any device: staged and still queued bytes are among those that were queued at its start or put since |
| `Mc6850Registers.HasInterruptMeans` | src/mc6850.cpp:204-232 | With the flag set: which byte moves into the data register; RDRF, TDRE at a level of at most 800 and CTS above it; the answer is IRQ if and only if a byte is received and its interrupt on, or TDRE is set and its interrupt on; bit 7 says so |
| `Mc6850Registers.ControlMeans` | src/mc6850.cpp:121-141 | The delivered control byte by its fields: transmit interrupt for 1, close loopback for 3, queue loopback for divider 2 without it, receive interrupt for bit 7; nothing else changes but what is published |
| `Mc6850Registers.EarlyControlMeans` | src/mc6850.cpp:112-119 | The early part by its fields: RTS off exactly for transmitter field 2 |
| `Mc6850Registers.EarlyResetKeepsRts` | src/mc6850.cpp:112-119 | The early part of a master reset leaves RTS as it is |
| `Mc6850Registers.HostCtsMeans` | src/mc6850.cpp:99-106 | The flag becomes what the host says, everything is derived again after a change, and nothing else moves |
| `Mc6850Registers.EarlyDataMeans` | src/mc6850.cpp:91-97 | A data store clears TDRE at once and changes nothing else but the pending and the dirty flag |
| `Mc6850Registers.ReadMeans` | src/mc6850.cpp:172-179 | A data load clears RDRF at once and takes the receive interrupt back; the IRQ bit is left to the transmitter |
| `Mc6850Registers.ReceiveMeans` | src/mc6850.cpp:181-202 | The deferred load stages the oldest byte unless RTS is off or a byte is there already |
| `Mc6850Registers.TransmitMeans` | src/mc6850.cpp:143-166 | Where a delivered byte goes in normal mode and in either loopback, with the room of 1023 and with RDRF, TDRE and IRQ behind it |
| `Mc6850Registers.QueueLoopbackReturns` | src/mc6850.cpp:143-166 | A burst sent in queue loopback comes back through the receive queue in order |
| `Mc6850Registers.StatusByteBits` | include/mc6850.h:70-81 | Each bit of the composed status byte stands for what the layout of the register says |
| `SpscQueues.SpscQueue.Put` | include/mc6850.h:43-48 | The unread bytes grow by one at the end; a put on a full queue forgets them all |
| `SpscQueues.SpscQueue.Get` | include/mc6850.h:36-42 | The oldest unread byte goes |
| `SpscQueues.SpscQueue.GetLevel` | include/mc6850.h:32-35 | The masked difference of the indices is the number of unread bytes |
| `SpscQueues.SpscQueue.IsFull` | include/mc6850.h:30-30 | Full is 1023 unread bytes |
| `Ring.PutContents` | include/mc6850.h:43-48 | Storing at the head and advancing appends to the contents across any wrap-around, and empties a full ring |
| `SpscInterleaved.Linearizable` | include/mc6850.h:20-54 | For every interleaving of split puts, gets and level checks the consumed bytes are a prefix of the produced ones, what is unread is the rest, and each side errs on the safe side about the level |
| `SpscInterleaved.WritesAreInvisible` | include/mc6850.h:43-48 | The slot being written is unread by nobody: the contents do not change and the consumer is not looking at it |
| `UartPumps.UartPort.Pump` | src/mc6809.cpp:341-371 | Both streams are conserved over any USB reads and short writes; all that fits is moved or, without permission, nothing; the device learns whether USB owes it a buffer |
| `UartPumps.UartPort.Burst` | src/mc6809.cpp:350-354 | The burst puts exactly min(room, rest) bytes and never overfills the queue |
| `UartPumps.UartPort.FillTx` | src/mc6809.cpp:359-363 | An empty buffer takes up to 512 bytes from the device, in order |
| `UartPumps.UartPort.SendTx` | src/mc6809.cpp:364-367 | A short write keeps the rest |
| `IoDriver.InchTakesOldest` | chunk/io.asm:251-295 | INCH returns the oldest byte if there is one; it keeps the flag only above 32 bytes; it stores a control byte exactly when it clears the flag, and that byte is 0xA0 while bytes wait in the transmit ring and 0x80 otherwise |
| `IoDriver.PortDriver.Inch` | chunk/io.asm:251-295 | The routine computes that, and the carry tells whether there was a byte |
| `IoDriver.PortDriver.Outch` | chunk/io.asm:190-207 | OUTCH up to its first device access: spins on a full ring, else appends and chooses interrupt or polling |
| `IoDriver.PortDriver.RxPrepare` | chunk/io.asm:366-400 | RX@L: room, last slot or full, with the flag and the control byte stored |
| `IoDriver.StoreRxAppends` | chunk/io.asm:388-393 | The stored byte is the newest of the ring; the last slot is the one at 62 bytes |
| `IoDriver.PortDriver.RxStore` | chunk/io.asm:388-393 | The byte read from the data register goes into the ring (whole new state) |
| `IoDriver.PortDriver.TxTake` | chunk/io.asm:338-344 | TX@L takes the oldest byte and sees an empty ring |
| `WriteRings.WriteRing.Push` | src/pico_thing.cpp:424-435 | One push; on a full ring the oldest entry goes |
| `WriteRings.WriteRing.Take` | src/pico_thing.cpp:2181-2188 | One undisturbed turn of the drain loop takes the oldest entry |
| `WriteRings.RingHoldsNewest` | src/pico_thing.cpp:359-363 | After any pushes with no take between them the ring holds the newest 31 undelivered stores in order |
| `WriteRingRuns.RingHoldsNewestAlways` | src/pico_thing.cpp:359-363 | With whole pushes and takes in any order: the ring is always a suffix of what was pushed, of at most 31 entries, and everything pushed was taken or is waiting if and only if no push met a full ring |
| `WriteRingRuns.RunIsExactlyOnce` | src/pico_thing.cpp:2181-2188 | With pushes between the two loads and the tail store of every turn, and between turns: after any run in which no push met a full ring, every entry has been delivered once, in order, or is waiting |
| `WriteRingRuns.TurnsAreTakes` | src/pico_thing.cpp:2181-2188 | As long as no turn meets a second overflow, such a run is one of whole pushes and takes: the same queue, the same entries taken in the same order |
| `WriteRingRuns.TurnLeavesNewest` | src/pico_thing.cpp:2181-2188 | After any preempted turn there wait the newest of the n entries that it found or that preempted it, (n - 1) modulo 32 in number: a second overflow makes all 31 waiting entries vanish |
| `WriteRingRuns.SecondOverflowTears` | src/pico_thing.cpp:2181-2188 | A second overflow between the loads also makes the loop act on an entry that nobody stored |
| `WriteRingDrain.TurnIsExactlyOnceIff` | src/pico_thing.cpp:2181-2188 | A drain turn that pushes preempt anywhere between its loads and its tail store delivers exactly once and in order if and only if the waiting entries and those pushes are at most 32 together |
| `Deferral.DeferralRefinesImmediate` | src/pico_thing.cpp:389-435 | With no master reset, overflow or lack of room: however stores and drains interleave, delivering what is left gives the very device that acting on every store at once gives |
| `Deferral.EveryByteGoesToItsPlace` | src/mc6850.cpp:143-166 | The same for where each byte goes (transmit queue, receive queue or receive register), in order, with polls, reads, host traffic and CTS in between |
| `Deferral.PlacementIsReal` | src/mc6850.cpp:143-166 | The recorded place is where the byte is found |
| `Deferral.RtsIsNewest` | src/mc6850.cpp:108-119 | RTS is that of the newest control store at every moment, delivered or not |
| `Deferral.EarlyPartCommutes` | src/mc6850.cpp:91-119 | The early part of a store commutes with delivering earlier ones, but for the pending flag |
| `TaskStack.InterruptRestores` | src/pico_thing.cpp:181-218 | A properly nested interrupt, of any depth up to 16, restores task, register and pins to their values at its acknowledge; each RTI is followed by at least fifteen edges without an acknowledge, the processor running, waiting in SYNC or halted |
| `TaskStack.NestedRunKeepsStack` | src/pico_thing.cpp:181-218 | A properly nested program returns to its nesting and leaves the tasks saved below alone |
| `TaskStack.HeldAcknowledgePushesOnce` | src/pico_thing.cpp:188-206 | However many cycles BS stays high after an acknowledge, stack, pointer and depth stay as the acknowledge left them, even while an RTI is being counted down |
| `TaskStack.RestoreTakesFifteenEdges` | src/mc6809.cpp:314-327 | After an RTI the old task stays for fourteen edges and the saved one is there from the fifteenth, whatever the bus shows that is no acknowledge |
| `TaskStack.NextAcknowledgeSavesRestoredIff` | src/mc6809.cpp:297-327 | The next acknowledge saves the restored task if and only if at least fifteen edges lie between |
| `TaskStack.StoreBehindRtiStaysIff` | src/mc6809.cpp:316-322 | A task store behind an RTI survives the restore if and only if at least fifteen edges lie between |
| `TaskStack.RestoredIffRoom` | src/pico_thing.cpp:196-199 | An interrupt and its RTI leave the stack as deep as before if and only if there was room to save the task |
| `TaskStack.NestingNeverWraps` | src/pico_thing.cpp:196-199 | In every reachable state task_stack_ptr <= nesting_depth <= 16, with equality outside reset: the 8-bit counter never wraps |
| `TaskStack.AcknowledgeSavesIff` | src/pico_thing.cpp:193-199 | An acknowledge saves the task if and only if its address byte is from 0x30 up to, not including, 0x3E and fewer than 16 are saved; otherwise stack and counts stay |
| `TaskStack.EveryInterruptRestores` | src/pico_thing.cpp:181-218 | A properly nested handler of SWI3, SWI2, FIRQ, IRQ, SWI or NMI (0x32, 0x34, 0x36, 0x38, 0x3A, 0x3C) with fifteen edges behind its RTI gives back task, register and pins |
| `TaskStack.RestoreIsAtFifteenthEdge` | src/mc6809.cpp:297-327 | The saved task is back with the fifteenth edge behind an RTI and not before |
| `TaskStack.TaskStoreMeans` | src/pico_thing.cpp:382-386 | A task store takes its five low bits into task, register and pins at once |
| `TaskStack.InterruptShowsInRunState` | src/pico_thing.cpp:174-218 | From the acknowledge to the restore of the outermost task the processor counts as in an interrupt, and from there on as running |
| `TaskStack.BusShowsInRunState` | src/pico_thing.cpp:207-214 | SYNC and HALT show at the edge at which the bus shows them; an interrupt outlives the return to running |
| `TaskStack.ResetShowsInRunState` | src/pico_thing.cpp:181-187 | Reset forgets the saved tasks at its first edge only; the first edge behind it finds the processor running |
| `TaskStack.UnsavedRti` | src/mc6809.cpp:297-312 | An RTI without a saved task is only counted, and one without a counted interrupt is ignored |
| `TaskStack.SetupMeans` | src/mc6809.cpp:96-112 | setup forgets interrupts, saved tasks and a pending restore, and keeps the task |
| `TaskStack.Mc6809.QRise` | src/pico_thing.cpp:174-218 | The rising-edge part of the bus observer (whole new state) |
| `TaskStack.Mc6809.ApplyRti` | src/mc6809.cpp:297-312 | apply_rti (whole new state) |
| `TaskStack.Mc6809.TickRtiCountdown` | src/mc6809.cpp:316-327 | tick_rti_countdown (whole new state) |
| `TaskStack.Mc6809.Setup` | src/mc6809.cpp:96-112 | setup (whole new state) |
| `Guest6809.SnippetCopies` | extra/api.asm:66-86 | From reset, a patched copy snippet reaches SYNC after 4 + 4n instructions with its n bytes moved between the shared buffer and the patched address and nothing else changed |
| `Guest6809.CopyLoop` | extra/api.asm:70-73 | The four-instruction loop, from any pass on |
| `Guest6809.SnippetFills` | extra/api.asm:55-62 | From reset with start < end, the Fill snippet reaches SYNC with its byte in exactly the addresses from start up to, not including, end |
| `Guest6809.BranchReaches` | extra/api.asm:73-73 | BNE on both outcomes, with the signed offset in either direction |
| `Guest6809.StoreReaches` | extra/api.asm:83-83 | STA ,X+ into memory, and into the device registers, which leave memory alone |
| `Guest6809.OthersStop` | extra/api.asm:55-86 | Any opcode that the snippets do not use stops the interpreter |
| `GuestCopy.Guest.CopyOut` | src/pico_thing.cpp:473-511 | copy(OUTWARDS) terminates; on success memory holds the data on exactly its range and is unchanged elsewhere; it succeeds when the guest is stopped and given the time |
| `GuestCopy.Guest.CopyIn` | src/pico_thing.cpp:473-511 | copy(INWARDS) returns that slice and leaves memory unchanged |
| `GuestCopy.Guest.RunChunk` | src/pico_thing.cpp:488-506 | One chunk: patch offsets 4 and 7, run, and the bytes have moved |
| `GuestCopy.Guest.SnippetCopy` | src/pico_thing.cpp:461-466 | A copy snippet is installed with the reset vector on it |
| `GuestCopy.Guest.Step` | extra/api.asm:66-86 | One instruction of the interpreter (whole new state) |
| `PackBits.DecodeInvertsEncode` | chunk/diskload.c:74-97 | Both decoders consume any valid run list that fits exactly through the 128 marker and produce its expansion |
| `PackBits.DecodersAgreeIff` | chunk/dl.asm:154-187 | On any stream at all the two decoders agree if and only if no run overflows the room left for it |
| `PackBits.OverlongBlockParts` | chunk/dl.asm:179-185 | Behind any runs that fit, a repeat run that does not: both have written the same, the C decoder stands behind the marker and the assembly decoder before it; for every capacity, 512 among them |
| `DiskDecoders.PackBitsDecode` | chunk/diskload.c:74-97 | The C decoder on a line: result, count, input consumed, and nothing written from the capacity on, whatever arrives |
| `DiskDecoders.PackBitsAsm` | chunk/dl.asm:154-187 | The same for the assembly decoder with its X, Y and B registers |
| `DiskProtocol.TransferIsExact` | chunk/diskload.c:117-170 | Any frames of exactly one sector, good and bad, then EOT: ACK for each good one, NAK for each bad one, ACK at the end, and the disk is the in-order fold of the good ones; for both receivers |
| `DiskProtocol.LastGoodFrameWins` | chunk/diskload.c:163-169 | A sector holds the payload of the last good frame for its address |
| `DiskProtocol.UntouchedUnlessGood` | chunk/diskload.c:163-169 | A sector without a good frame is untouched |
| `DiskProtocol.DamagedSectorIsRefused` | chunk/diskload.c:156-161 | One damaged byte under the true checksum is answered NAK and stores nothing |
| `DiskProtocol.ReceiversAgree` | chunk/dl.asm:79-136 | On an arbitrary stream the receivers answer alike and leave the same disk as long as no block overflows |
| `DiskProtocol.OverlongFrameParts` | chunk/dl.asm:96-120 | Any good frame with one repeat run too many, and then EOT: the C receiver acknowledges and stores it, and the assembly receiver answers otherwise |
| `DiskProtocol.TurnIsExact` | chunk/diskload.c:117-170 | On any stream, for both decoders: a turn answers 0x06 if and only if its block decodes to exactly 512 bytes and the byte behind it is their exclusive or, and exactly then the sector at the 24-bit address becomes those bytes; every other answered turn, stray bytes included, replies 0x15 and leaves the disk alone |
| `DiskProtocol.BlockDecides` | chunk/dl.asm:96-120 | The checksum is the byte behind a block of a whole sector; behind any other block it is not read and is a stray byte of the next turn |
| `DiskProtocol.SessionIsExact` | chunk/diskload.c:117-170 | On any stream: the disk at the end is what the accepted frames wrote, in order; the acknowledgements are as many as those frames, and one for the end; every other answer is 0x15 |
| `PackBits.KnownRuns` | chunk/diskload.c:70-97 | Runs byte by byte: 0xFE and 0x81 repeat the next byte 3 and 128 times, 0x02 is followed by three bytes, 0x80 ends the block |
| `DiskReceiver.DiskLoadC` | chunk/diskload.c:100-174 | The C receiver answers every stream as specified, from its ready signal 0x52 on |
| `DiskReceiver.DiskLoadAsm` | chunk/dl.asm:58-136 | So does the assembly receiver |
| `DiskReceiver.IdeWriteSector` | chunk/ide_lib.c:110-132 | The C driver commits the buffer at the 28-bit address |
| `DiskReceiver.IdeWriteAsm` | chunk/dl.asm:195-249 | The assembly driver commits it at the 24-bit address |
| `DiskReceiver.ChecksumC` | chunk/diskload.c:145-146 | The C checksum loop folds the whole buffer |
| `DiskReceiver.ChecksumAsm` | chunk/dl.asm:105-110 | So does the assembly loop |
| `FrameFormat.FrameRoundTrip` | extra/stress_acia.py:71-163 | Reading a written frame behind SOF-free junk gives it back and leaves what follows |
| `FrameFormat.ManyFramesRoundTrip` | extra/stress_acia.py:71-163 | The same for any list of frames with junk between them |
| `FrameFormat.DamagedFrameIsRejected` | extra/stress_acia.py:127-134 | A frame with any one SEQ, payload or CHK byte changed is a checksum mismatch, consumed through its CHK |
| `StressFrames.RecvFrame` | extra/stress_acia.py:71-143 | However the port cuts the stream up: the result on the whole stream with unread bytes intact, or the deadline passed before a whole frame had come in |
| `StressFrames.BufferedPort.ReadByte` | extra/stress_acia.py:41-52 | The next pending byte, or a timeout with nothing lost |
| `StressFrames.BufferedPort.ReadN` | extra/stress_acia.py:54-64 | The next n pending bytes, or a timeout with nothing lost |
| `StressFrames.BufferedPort.PushBack` | extra/stress_acia.py:66-68 | The bytes are pending again, first |
| `StressFrames.SendFrame` | extra/stress_acia.py:146-163 | Writes the frame, or nothing when the length has no two-byte form |
| `StressFrames.SendGuestFrame` | chunk/stress_acia.c:97-144 | What the C sender puts on the line, with its count-down loop, and the pattern value it leaves |
| `StressFrames.GuestFrameIsFrameIff` | chunk/stress_acia.c:115-139 | The C sender emits a frame of the format if and only if its length is not 0 |
| `StressFrames.CountingAt` | chunk/stress_acia.c:93-96 | The pattern counts up modulo 256 |
| `StressFrames.RecvEcho` | chunk/stress_acia.c:149-246 | The return code and the 16-bit error count of the C receiver, for every length; its read loop takes 65536 bytes for a length of 0 |
| `EchoFaults.DamagedEcho` | chunk/stress_acia.c:149-246 | The own frame with any one byte changed, whatever follows it: return value and error count by the place of the fault; 2 and 1 for the start marker, 3 and 1 for a length byte, 5 and 1 for the end marker, 4 otherwise, with 2 errors for the sequence number or the last payload byte, 3 for another payload byte, 1 for the checksum |
| `EchoFaults.ForeignFrame` | chunk/stress_acia.c:149-246 | The frame of another sequence number or another start of the pattern passes with 0 and one error for each; one of another length ends with 3 |
| `EchoFaults.CutEcho` | chunk/stress_acia.c:149-246 | A frame that stops early: the receiver waits for good inside the payload, and anywhere else gives up with 1, without an error |
| `EchoFaults.WrongEndIsRejected` | extra/stress_acia.py:136-141 | The host reader consumes a frame with another end marker and refuses it |
| `EchoFaults.CutFrameIsShort` | extra/stress_acia.py:71-143 | A frame that stops anywhere is no frame yet to it |
| `EchoFaults.FrameLayout` | extra/stress_acia.py:9-10 | The frame byte by byte: 0x02, sequence number, length with its high byte first, payload, a byte that brings the exclusive or down to 0, 0x03 |
| `StressFrames.EchoMatchesIff` | chunk/stress_acia.c:146-148 | For every length: the echo passes without an error if and only if header, pattern, checksum and end marker are those of the frame |
| `StressFrames.PassMeansFrameIff` | chunk/stress_acia.c:179-206 | A pass means that the very frame that was sent came back if and only if the length is not 0: of the 65536 bytes read for 0 none is looked at |
| `StressFrames.NoMismatchIff` | chunk/stress_acia.c:208-229 | The resynchronising error count is 0 if and only if the payload is the pattern |
| `PutDecimal.DabbleIsExact` | chunk/putdec.asm:34-48 | For any number of shifts and enough digits: the register stays decimal and denotes the bits that have gone in |
| `PutDecimal.RoundDoubles` | chunk/putdec.asm:61-108 | One round on a register of any width doubles its number and takes in the bit, with the carry accounted for |
| `PutDecimal.Add3IsPerNibble` | chunk/putdec.asm:73-101 | No nibble of the add-3 pass carries into its neighbour |
| `PutDecimal.Convert` | chunk/putdec.asm:52-111 | The sixteen rounds on the five stack bytes leave the decimal digits of D: they are the double dabble of its bits |
| `PutDecimal.DabbledTopBits` | chunk/putdec.asm:44-46 | After k rounds on the bits of D, top first, the register holds the decimal digits of the top k bits of D |
| `PutDecimal.PutDecD` | chunk/putdec.asm:51-160 | PUTDECD prints the numeral of D |
| `PutDecimal.NumeralParses` | chunk/putdec.asm:31-32 | The numeral parses back and has no leading zero but for 0 |
| `PutDecimal.SuppressedIsNumeral` | chunk/putdec.asm:147-160 | Leading-zero suppression on any digit list prints the numeral of its value |
| `SRecords.ProcessSrecord` | src/srec.cpp:37-69 | Accepts exactly when all hex digits are valid and count, address, data and checksum add up to 0xFF modulo 256, for every count; returns the fields |
| `SRecords.Hex` | src/srec.cpp:13-35 | The 32-bit value of the digits or the error value, in both modes, never reading behind the terminator |
| `SRecords.RecordRoundTrip` | src/srec.cpp:37-69 | A formatted record of up to 252 data bytes is accepted and comes back, whatever follows it |
| `SRecords.TextReads` | src/srec.cpp:37-69 | So does any formatted record as far as its fields go |
| `SRecords.TotalBound` | src/srec.cpp:46-63 | For a count of at least 3 the sum is at most 65025 |
| `SRecords.ChangedDataIsRejected` | src/srec.cpp:64-68 | A good record with one data byte changed is rejected |
| `SRecords.ChangedAddressIsRejected` | src/srec.cpp:64-68 | A good record with one address byte changed is rejected |
| `SRecordDigits.DigitMeans` | src/srec.cpp:18-28 | A character is the digit n if and only if it is number n of 0123456789ABCDEF or of 0123456789abcdef |
| `SRecordDigits.CaseIsIgnored` | src/srec.cpp:18-28 | A line in lower case has the same fields, the same acceptance and the same numbers |
| `SRecordDigits.LastEightDigitsCount` | src/srec.cpp:13-35 | Of more than eight digits the last eight count; up to eight are read in full |
| `SRecordDigits.ErrorIsClear` | src/srec.cpp:28-29 | Below eight digits the error value is told from every number; FFFFFFFF is not |
| `SRecordDigits.AcceptedIff` | src/srec.cpp:64-68 | A formatted line is accepted if and only if its checksum is the ones complement of the low byte of the sum of count, address bytes and data |
| `SRecordDigits.DataIsCounted` | src/srec.cpp:44-50 | A count of at least 3 stands for count - 3 data bytes; below 3 the eight-bit count wraps, 253 to 255 are read, and the line must hold them |
| `SRecordDigits.KnownRecords` | src/srec.cpp:37-69 | Two records as text: the usual last line, and one with data |
| `Bytes.XorFoldDetects` | extra/stress_acia.py:118-119 | Changing one byte changes an XOR checksum |

## Left out

- Grain of the serial path: each method of the device, INCH, and OUTCH up to its device access are single steps;
  split are host_transmit, set_host_cts, has_interrupt, the pump, the interrupt routine of the guest between its device
  accesses, and (in modules of their own) the queue and the drain of the write ring. `Races` shows that sync_status and
  OUTCH would not bear a finer grain. Nor is the polling loop of OUTCH ever interrupted in `SerialPath`, though the code
  leaves interrupts enabled there and IRQ_ISR serves both ports: `Races` has what that does. In `SerialPath` taking an
  entry from the write ring is one step, which `SplitRunIsRun` justifies for runs in which no drain turn meets a second
  overflow. Runs with such a turn are outside `SerialPath`: the loop may then act on an entry that nobody stored
  (`SecondOverflowTears`), and nothing is claimed of what follows.
- Runs of `SerialPath` start when the master reset that INITPORT stores (chunk/io.asm:98-99) has been delivered and
  its IQ_RX store has just been made.
- Master resets during a run, and both loopback modes, in `SerialPath` (queue loopback is a second producer of the
  receive queue). The device and `Deferral` have the loopback modes; the device and `ResetRuns` have the reset.
- Sequential consistency is assumed throughout; weak-memory effects are not modelled.
- Liveness of the serial path: OUTCH can spin on a full ring. Only safety is proved.
- Console injection into the write ring (src/pico_thing.cpp:1110-1117) and peripheral_clear: they break the
  single-producer and ownership rules of the rest.
- Time: bus cycles are rising edges of Q; the timeouts of `start_with_timeout` and of the Python and C readers are
  budgets of steps or, for the blocking reads of the C and assembly programs, the end of what arrives.
- USB, serial ports and the drive: reads and writes of any size, a byte stream with arrival times, and a map from
  address to sector behind the task-file registers; status polling and its failures are not modelled.
- extra/api.asm is assembled by hand here, because api.inc, which the build makes from it, is not in the repository.
- Device registers in `Guest6809`: a store to them has no effect and a load gives what the host left there.
- `GuestCopy.Guest.CopyOut`: not for ranges that reach above 0xFFBF into the register block or wrap around address
  0xFFFF, where the guest's memory is not plain memory.
- `GuestCopy.Guest.CopyIn`: the same.
- `StressFrames.RecvEcho`: the payload buffer is as long as the bytes that the read loop takes; behind the end of the
  4096 bytes that the source has, for a length of 0 or above 4096, it would overwrite other data.
- `StressFrames.RecvFrame`: the branch for a length above 65535 (extra/stress_acia.py:111-112) cannot be taken and is
  left out, as is the debug output.
- `SRecords.ProcessSrecord`: a line has its two leading characters, as the command reader ensures.
- PUTDECB, the saved registers of PUTDECD, PUTS, GETS, PUTCHAR: nothing beyond single branches.
- Other parts of the repository: PIO programs, DMA and GPIO set-up, USB and libusb programs, power sequencing, the
  command lexer, tick timer, trace and watchpoint, float and time-of-day requests, the third-party monitor ROM.
