/** What holds at the end of every run of the serial path, however its actors interleave. */
module SerialTheorems {
  import opened Bytes
  import opened Ring
  import opened SpscQueues
  import opened PumpPasses
  import opened Mc6850Spec
  import opened Mc6850Registers
  import opened IoDriver
  import opened WriteRings
  import opened SerialPath
  import opened SerialInvariant
  import opened SerialTransit

  function IdlePump(): Pump
  {
    Pump(PumpIdle, Copies<byte>(0, USB_BUFFER_SIZE), 0, 0, Copies<byte>(0, USB_BUFFER_SIZE), 0, 0)
  }

  /** A constructed device and a port that INITPORT has just initialised: its last act is to store IQ_RX. */
  function Initial(): Sys
  {
    Sys(CONSTRUCTED, [], 0, Looping, IdlePump(), FreshPort(), Foreground, History([], [], [], [], [], []))
    .StoreControl(IQ_RX)
  }

  /** The actions `run`, one after the other, lead from `s` to `t`. */
  ghost predicate Leads(s: Sys, run: seq<Action>, t: Sys)
    decreases |run|
  {
    if run == [] then s == t
    else s.WellFormed() && Enabled(s, run[0]) && Leads(Apply(s, run[0]), run[1..], t)
  }

  ghost predicate Reachable(t: Sys)
  {
    exists run :: Leads(Initial(), run, t)
  }

  lemma InitialHolds()
    ensures Inv(Initial())
  {
  }

  lemma {:induction false} RunKeeps(s: Sys, run: seq<Action>, t: Sys)
    requires Inv(s) && Leads(s, run, t)
    ensures Inv(t)
    decreases |run|
  {
    if run != [] {
      StepKeeps(s, run[0]);
      RunKeeps(Apply(s, run[0]), run[1..], t);
    }
  }

  lemma ReachableHolds(t: Sys)
    requires Reachable(t)
    ensures Inv(t)
  {
    var run :| Leads(Initial(), run, t);
    InitialHolds();
    RunKeeps(Initial(), run, t);
  }

  /** Host to guest, exactly once and in order: the bytes read from USB are those INCH returned, then those
      in the guest's ring, then the one in the data register, then the receive queue, then the rest of the
      pump's buffer. */
  lemma HostToGuestExactlyOnce(t: Sys)
    requires Reachable(t)
    ensures t.WellFormed()
    ensures t.hist.usbIn == t.hist.inched + t.port.RxRing() + InRegister(t) + t.device.rx + t.pump.RxRest()
    ensures t.hist.inched <= t.hist.usbIn
  {
    ReachableHolds(t);
    PrefixOf(t.hist.inched, t.port.RxRing(), InRegister(t), t.device.rx, t.pump.RxRest());
  }

  /** Some store of the run met a full ring whose oldest entry was the byte in flight. */
  ghost predicate Overwritten(s: Sys, run: seq<Action>)
    decreases |run|
  {
    run != [] && s.WellFormed() && Enabled(s, run[0])
    && (Overwrites(s, run[0]) || Overwritten(Apply(s, run[0]), run[1..]))
  }

  lemma {:induction false} RunCarriesIff(s: Sys, run: seq<Action>, t: Sys)
    requires Inv(s) && Leads(s, run, t)
    ensures Inv(t) && (Carried(t) <==> Carried(s) && !Overwritten(s, run))
    decreases |run|
  {
    if run != [] {
      StepKeeps(s, run[0]);
      StepCarriesIff(s, run[0]);
      RunCarriesIff(Apply(s, run[0]), run[1..], t);
    }
  }

  /** What is in the places between OUTCH and USB, from the far end. */
  ghost function OnItsWay(t: Sys): seq<byte>
    requires t.WellFormed()
  {
    t.hist.usbOut + t.pump.TxRest() + t.device.tx + InTransit(t.ring, t.core1) + t.port.TxRing()
  }

  /** Guest to host, exactly once and in order: the bytes given to OUTCH are those USB accepted, then those in
      the pump's buffer, then the transmit queue, then the stores on their way through the write ring, then
      the guest's ring -- if and only if no store of the run met a full write ring with a data entry at its
      end. At most one byte is ever missing, and what USB has is a prefix in any case. */
  lemma GuestToHostExactlyOnce(run: seq<Action>, t: Sys)
    requires Leads(Initial(), run, t)
    ensures t.WellFormed()
    ensures t.hist.outched == OnItsWay(t) <==> !Overwritten(Initial(), run)
    ensures |OnItsWay(t)| <= |t.hist.outched| <= |OnItsWay(t)| + 1
    ensures t.hist.usbOut <= t.hist.txWritten <= t.hist.outched
  {
    InitialHolds();
    RunCarriesIff(Initial(), run, t);
    assert DataIn(Initial().ring) == [] by {
      NoData(Initial().ring);
    }
    TransitIsInFlight(t);
    PrefixOf(t.hist.usbOut, t.pump.TxRest(), t.device.tx, t.hist.inFlight, []);
    var before := t.hist.usbOut + t.pump.TxRest() + t.device.tx;
    assert t.hist.outched == before + t.hist.inFlight + t.port.TxRing();
    assert |t.hist.inFlight| != 0 && InTransit(t.ring, t.core1) == [] ==> |OnItsWay(t)| != |t.hist.outched|;
  }

  /** A byte that was overwritten blocks the transmitter: TDRE is never shown again. */
  lemma LossIsForGood(s: Sys, run: seq<Action>, t: Sys)
    requires Reachable(s) && !Carried(s) && Leads(s, run, t)
    ensures !Carried(t) && t.device.flags.txWritePending && !t.device.Tdre()
  {
    ReachableHolds(s);
    RunCarriesIff(s, run, t);
    TransitIsInFlight(t);
    StatusBits(t.device);
  }

  lemma PrefixOf(a: seq<byte>, b: seq<byte>, c: seq<byte>, d: seq<byte>, e: seq<byte>)
    ensures a <= a + b + c + d + e
    ensures a <= a + b + c + d
  {
  }

  /** The guest never reaches the branch of RXIRQ that loses a byte. Its ring has room while its flag is
      clear, and while the flag is set outside the interrupt routine RTS is off and RDRF is clear. */
  lemma ReceiveNeverOverflows(t: Sys)
    requires Reachable(t)
    ensures t.WellFormed() && !t.cpu.RxLostRead?
    ensures t.cpu.RxCheck? ==> t.port.NextRxSlot() != RingFull
    ensures !t.port.rxFull ==> |t.port.RxRing()| <= 62
    ensures t.port.rxFull <==> t.device.flags.rtsDeasserted
    ensures t.port.rxFull && !t.cpu.RxLastRead? ==> !t.device.Rdrf() && !t.device.CanStage()
  {
    ReachableHolds(t);
    StatusBits(t.device);
  }

  /** INCH asserts RTS again exactly when it leaves at most 32 bytes in a ring whose flag was set. */
  lemma InchReassertsRts(t: Sys)
    requires Reachable(t) && t.WellFormed() && Enabled(t, CallInch) && t.port.rxFull
    ensures var u := Apply(t, CallInch);
      !u.device.flags.rtsDeasserted <==> |u.port.RxRing()| <= 32
  {
    ReachableHolds(t);
    InchTakesOldest(t.port);
  }

  /** TDRE is shown only to a guest whose next byte will find room: nothing is outstanding and the transmit
      queue is at or below the threshold. So the queue never passes 801 and `guest_transmit` never drops. */
  lemma TransmitNeverOverflows(t: Sys)
    requires Reachable(t)
    ensures t.WellFormed() && |t.device.tx| <= 801
    ensures t.device.Tdre() ==> !t.device.flags.txWritePending && |t.device.tx| <= 800
    ensures t.core1.Dispatching? && t.core1.entry.location == DataRegister ==>
      && t.hist.inFlight == [t.core1.entry.value]
      && Apply(t, Dispatch).device.tx == t.device.tx + [t.core1.entry.value]
  {
    ReachableHolds(t);
    StatusBits(t.device);
  }

  /** The burst that the pump sized from one look at the queue never overfills it. */
  lemma BurstNeverOverfills(t: Sys)
    requires Reachable(t) && t.WellFormed() && Enabled(t, PumpPut)
    ensures Apply(t, PumpPut).device.rx
         == t.device.rx + [t.pump.rxBuf[t.pump.rxIndex + t.pump.pc.done]]
  {
    ReachableHolds(t);
  }

  /** No step that will set the dirty flag is half done. */
  predicate Settled(t: Sys)
  {
    Clean(t) && !PutFlagDue(t.pump.pc) && !t.pump.pc.CtsFlagDue?
  }

  /** The cached CTS is one that the transmit queue and the host no longer justify: the only way in which a
      settled cache can be out of date, because taking bytes from the queue does not set the flag. */
  predicate CtsOutlived(d: Device)
  {
    d.lines.ctsDeasserted && !d.TxCongested()
  }

  /** No lost wake-up: when a byte could be staged, the flag is set or about to be. */
  lemma NoLostWakeUp(t: Sys)
    requires Reachable(t) && t.device.CanStage()
    ensures t.device.flags.irqDirty || t.core1.Recomputing? || PutFlagDue(t.pump.pc)
  {
    ReachableHolds(t);
  }

  /** While the flag is clear the cached answer is the recomputed one in its receive half, and its transmit
      half errs only on the safe side; it is exact altogether unless CTS has outlived its reason. */
  lemma CachedResultIsRecomputed(t: Sys)
    requires Reachable(t) && Settled(t)
    ensures var d, r := t.device, t.device.Recompute();
      && r.rx == d.rx && r.reg.rxData == d.reg.rxData && r.Rdrf() == d.Rdrf()
      && r.lines.assertReceiveIrq == d.lines.assertReceiveIrq
      && (d.Tdre() ==> r.Tdre())
      && (d.cachedIrq == Irq ==> r.cachedIrq == Irq)
      && (r == d <==> !CtsOutlived(d))
  {
    ReachableHolds(t);
    var d := t.device;
    assert !d.CanStage() && d.Refreshed().Staged() == d.Refreshed();
    SyncPublishes(d.Refreshed().Staged().Derived());
    StatusBits(d);
    StatusBits(d.Recompute());
  }

  /** The published status byte by its bits, in every reachable state: RDRF is a byte in the data register, TDRE
      an idle transmitter with room, CTS the last answer to the other side's pace, IRQ the asserted interrupt. */
  lemma StatusByteMeans(t: Sys)
    requires Reachable(t)
    ensures var s, d := t.device.reg.status, t.device;
      && (s % 2 == 1 <==> d.lines.receiveBufferFull)
      && (s / 2 % 2 == 1 <==> d.lines.transmitBufferEmpty && !d.lines.ctsDeasserted && !d.flags.txWritePending)
      && s / 4 % 2 == 0 && (s / 8 % 2 == 1 <==> d.lines.ctsDeasserted) && s / 16 % 8 == 0
      && (s / 128 == 1 <==> d.lines.assertReceiveIrq || d.lines.assertTransmitIrq)
  {
    ReachableHolds(t);
    StatusByteBits(t.device);
  }

  /** With a settled cache the device asserts its interrupt exactly for a received byte or a free transmitter
      that the guest asked to hear of, and the IRQ bit shows it. */
  lemma InterruptMeans(t: Sys)
    requires Reachable(t) && Settled(t)
    ensures var d := t.device;
      && (d.cachedIrq == Irq <==> (d.modes.receiveIrq && d.Rdrf()) || (d.modes.transmitIrq && d.Tdre()))
      && (d.reg.status / 128 == 1 <==> d.cachedIrq == Irq)
  {
    ReachableHolds(t);
    StatusBits(t.device);
    StatusByteBits(t.device);
  }

  /** The driver returns to the program only when it has done all it could: from the receive half when no byte is
      shown or its flag is set, from the transmit half when TDRE is clear or the ring was found empty, and from the
      polling loop of OUTCH when the ring is empty. */
  lemma DriverReturnsWhenDone(t: Sys, a: Action)
    requires Inv(t) && Enabled(t, a) && !t.cpu.Foreground? && Apply(t, a).cpu.Foreground?
    ensures var c, u := t.cpu, Apply(t, a);
      && (c.RxMore? ==> !u.device.Rdrf()) && (c.RxLastRead? || c.RxLostRead? ==> u.port.rxFull)
      && (c.TxMore? ==> !u.device.Tdre()) && (c.DrainTest? ==> u.port.txPou == u.port.txPin)
      && (c.RxMore? || c.RxLastRead? || c.RxLostRead? || c.TxMore? || c.TxOff? || c.DrainTest?)
  {
  }

  // ----- the transmit interrupt that finds nothing to send -----

  /** No store of the run meets a full write ring. */
  ghost predicate NeverFull(s: Sys, run: seq<Action>)
    decreases |run|
  {
    run == []
    || (s.WellFormed() && Enabled(s, run[0]) && (Stores(s, run[0]) == [] || |s.ring| < RING_ROOM)
        && NeverFull(Apply(s, run[0]), run[1..]))
  }

  lemma {:induction false} RunKeepsSwitch(s: Sys, run: seq<Action>, t: Sys)
    requires Inv(s) && ModeSwitch(s) && Leads(s, run, t) && NeverFull(s, run)
    ensures Inv(t) && ModeSwitch(t)
    decreases |run|
  {
    if run != [] {
      StepKeeps(s, run[0]);
      StepKeepsSwitch(s, run[0]);
      RunKeepsSwitch(Apply(s, run[0]), run[1..], t);
    }
  }

  lemma InitialSwitch()
    ensures ModeSwitch(Initial())
  {
    var ring := Initial().ring;
    assert ring == [WriteEntry(ControlRegister, IQ_RX)] && ring[1..] == [];
    assert NewestModes(ring, CONSTRUCTED.modes) == NewestModes([], ModesFor(IQ_RX));
  }

  /** The interrupt routine, entered now, takes the branch TXEMPTY, which stores an error number. */
  predicate FindsRingEmpty(s: Sys)
    requires s.WellFormed() && s.cpu.Foreground?
  {
    Apply(s, EnterIsr).cpu.TxOff? && Apply(s, EnterIsr).port.errno == 0xEA
  }

  lemma EmptyBranch(s: Sys)
    requires s.WellFormed() && s.cpu.Foreground?
    ensures FindsRingEmpty(s) <==> !s.device.Rdrf() && s.device.Tdre() && s.port.TxRing() == []
    ensures s.port.TxRing() == [] <==> s.port.txPou == s.port.txPin
  {
  }

  lemma SettledIrqIsReady(s: Sys)
    requires Inv(s) && Settled(s) && s.device.cachedIrq == Irq && !s.device.Rdrf()
    ensures s.device.Tdre() && s.device.modes.transmitIrq
  {
    StatusBits(s.device);
  }

  lemma EmptyRingIsSwitchedOff(run: seq<Action>, s: Sys)
    requires Leads(Initial(), run, s) && NeverFull(Initial(), run)
    requires s.WellFormed() && s.cpu.Foreground? && s.port.txPou == s.port.txPin && s.device.modes.transmitIrq
    ensures UndeliveredOff(s)
  {
    InitialHolds();
    InitialSwitch();
    RunKeepsSwitch(Initial(), run, s);
    if ModesNow(s).transmitIrq {
      var i := SwitchedOffBy(s.ring, ModesNow(s));
    }
  }

  /** When an interrupt that this very port asserts finds nothing to send: with a settled cache, exactly when
      no byte has been received and the guest's ring is empty. TDRE is set then, and the reason is a control
      store that switched the transmit interrupt off and has not reached the device. */
  lemma OwnInterruptFindsRingEmptyIff(run: seq<Action>, s: Sys)
    requires Leads(Initial(), run, s) && s.WellFormed() && s.cpu.Foreground? && s.device.cachedIrq == Irq
    ensures FindsRingEmpty(s) <==> !s.device.Rdrf() && s.device.Tdre() && s.port.TxRing() == []
    ensures Settled(s) ==> (FindsRingEmpty(s) <==> !s.device.Rdrf() && s.port.TxRing() == [])
    ensures Settled(s) && FindsRingEmpty(s) && NeverFull(Initial(), run) ==>
      s.device.modes.transmitIrq && UndeliveredOff(s)
  {
    InitialHolds();
    RunKeeps(Initial(), run, s);
    EmptyBranch(s);
    if Settled(s) && !s.device.Rdrf() {
      SettledIrqIsReady(s);
      if NeverFull(Initial(), run) && s.port.txPou == s.port.txPin {
        EmptyRingIsSwitchedOff(run, s);
      }
    }
  }

  /** Nothing is stranded. When all stores of a run that met no full ring have been delivered and the cache has
      settled, a port in the foreground asserts its interrupt exactly when the interrupt routine has something
      to do: a received byte that the guest's ring can take, or a byte of the transmit ring that the device can
      take. And a byte still in the receive queue means that one is shown, unless the guest's ring is full. */
  lemma NothingIsStranded(run: seq<Action>, t: Sys)
    requires Leads(Initial(), run, t) && NeverFull(Initial(), run) && t.WellFormed()
    requires t.ring == [] && t.core1.Looping? && t.cpu.Foreground? && Settled(t)
    ensures t.device.cachedIrq == Irq <==>
      !t.port.rxFull && (t.device.Rdrf() || (t.port.TxRing() != [] && t.device.Tdre()))
    ensures t.device.rx != [] && !t.port.rxFull ==> t.device.Rdrf()
  {
    InitialHolds();
    InitialSwitch();
    RunKeepsSwitch(Initial(), run, t);
    InterruptMeans(t);
    StatusBits(t.device);
    assert NewestModes(t.ring, ModesNow(t)) == t.device.modes;
    assert t.port.TxRing() == [] <==> t.port.txPou == t.port.txPin;
  }
}
