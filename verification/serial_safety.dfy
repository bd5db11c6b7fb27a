/** What every step of the serial path keeps. */
module SerialInvariant {
  import opened Bytes
  import opened Ring
  import opened SpscQueues
  import opened PumpPasses
  import opened Mc6850Spec
  import opened IoDriver
  import opened WriteRings
  import opened SerialPath

  predicate DriverControl(v: byte) { v == IQ_RX || v == IQ_RXTX || v == IQ_RTSONLY }

  predicate DriverEntry(e: WriteEntry) { e.location == ControlRegister ==> DriverControl(e.value) }

  /** Sizes: nothing overflows, and the burst under way fits into the receive queue. */
  ghost predicate Bounded(s: Sys)
  {
    && s.WellFormed()
    && |s.ring| <= RING_ROOM
    && s.rxReads < 256
    && |s.device.rx| < CAPACITY
    && (s.pump.pc.Bursting? ==> |s.device.rx| + s.pump.pc.amount - s.pump.Sent() < CAPACITY)
  }

  /** Neither loopback mode is selected, now or by an entry still in the write ring. */
  ghost predicate NormalMode(modes: Modes, ring: seq<WriteEntry>, core1: Core1)
  {
    && !modes.loopbackClose && !modes.loopbackQueue
    && (forall i :: 0 <= i < |ring| ==> DriverEntry(ring[i]))
    && (core1.Dispatching? ==> DriverEntry(core1.entry))
  }

  /** Receive flow control: the driver's flag is RTS, and while it is set nothing is staged; the guest's
      receive ring has a free slot whenever the guest goes on to read a byte. */
  ghost predicate FlowControl(rtsDeasserted: bool, receiveBufferFull: bool, port: Port, cpu: Cpu)
    requires port.WellFormed()
  {
    && (rtsDeasserted <==> port.rxFull)
    && (!port.rxFull ==> |port.RxRing()| <= RING_SIZE - 2)
    && (port.rxFull && !cpu.RxLastRead? ==> !receiveBufferFull)
    && (cpu.RxCheck? ==> receiveBufferFull)
    && (cpu.RxLastRead? ==> port.rxFull && |port.RxRing()| == RING_SIZE - 2)
    && !cpu.RxLostRead?
  }

  /** The byte in the data register that the guest has still to read. While the guest is about to read the
      last slot it counts even if `guest_receive` has cleared RDRF meanwhile. */
  function InRegister(s: Sys): seq<byte>
  {
    if s.device.lines.receiveBufferFull || s.cpu.RxLastRead? then [s.device.reg.rxData] else []
  }

  /** Host to guest: every byte read from USB is in exactly one place, in order. */
  ghost predicate RxConserved(s: Sys)
    requires s.WellFormed()
  {
    s.hist.usbIn == s.hist.inched + s.port.RxRing() + InRegister(s) + s.device.rx + s.pump.RxRest()
  }

  /** Guest to host: every byte given to OUTCH is in exactly one place, in order. */
  ghost predicate TxConserved(s: Sys)
    requires s.WellFormed()
  {
    && s.hist.outched == s.hist.txWritten + s.port.TxRing()
    && s.hist.txWritten == s.hist.usbOut + s.pump.TxRest() + s.device.tx + s.hist.inFlight
  }

  predicate MatchesInFlight(e: WriteEntry, pending: bool, inFlight: seq<byte>)
  {
    e.location == DataRegister ==> pending && inFlight == [e.value]
  }

  /** At most one store into the data register is outstanding, and `tx_write_pending` says so. */
  ghost predicate OneInFlight(ring: seq<WriteEntry>, core1: Core1, pending: bool, inFlight: seq<byte>)
  {
    && (|inFlight| == if pending then 1 else 0)
    && (forall i :: 0 <= i < |ring| ==> MatchesInFlight(ring[i], pending, inFlight))
    && (forall i, j :: 0 <= i < j < |ring| ==> ring[i].location != DataRegister || ring[j].location != DataRegister)
    && (core1.Dispatching? ==> MatchesInFlight(core1.entry, pending, inFlight))
    && (core1.Dispatching? && core1.entry.location == DataRegister ==>
          forall i :: 0 <= i < |ring| ==> ring[i].location != DataRegister)
  }

  /** Transmit backpressure: whoever was shown TDRE has room for a byte below the threshold. */
  ghost predicate Backpressure(level: nat, pending: bool, ctsDeasserted: bool, cpu: Cpu, txRingEmpty: bool)
  {
    && level <= CTS_THRESHOLD + 1
    && (pending || !ctsDeasserted ==> level <= CTS_THRESHOLD)
    && (cpu.DrainStore? || cpu.TxSend? ==> !pending && level <= CTS_THRESHOLD)
    && (cpu.DrainWait? || cpu.DrainStore? || cpu.TxSend? || cpu.TxMore? ==> !txRingEmpty)
  }

  /** `irq_dirty` is clear and `has_interrupt` is not between clearing and reading. */
  predicate Clean(s: Sys)
  {
    !s.device.flags.irqDirty && !s.core1.Recomputing?
  }

  predicate PutFlagDue(pc: PumpPc) { pc.Bursting? && pc.flagDue }

  /** What a clean flag promises about the cached state, unless core 0 is about to set the flag. */
  ghost predicate CacheFresh(d: Device, clean: bool, pc: PumpPc)
  {
    && Published(d)
    && d.lines.transmitBufferEmpty
    && (clean ==>
          && (PutFlagDue(pc) || !d.CanStage())
          && d.lines.assertReceiveIrq == d.WantsReceiveIrq()
          && d.lines.assertTransmitIrq == d.WantsTransmitIrq()
          && (d.cachedIrq == Irq <==> d.WantsReceiveIrq() || d.WantsTransmitIrq())
          && (pc.CtsFlagDue? || !d.flags.hostCtsDeasserted || d.lines.ctsDeasserted))
  }

  /** The invariant, where `rts` stands for the device's copy of the driver's flag. */
  ghost predicate InvWith(s: Sys, rts: bool)
  {
    && Bounded(s)
    && NormalMode(s.device.modes, s.ring, s.core1)
    && FlowControl(rts, s.device.lines.receiveBufferFull, s.port, s.cpu)
    && RxConserved(s) && TxConserved(s)
    && OneInFlight(s.ring, s.core1, s.device.flags.txWritePending, s.hist.inFlight)
    && Backpressure(|s.device.tx|, s.device.flags.txWritePending, s.device.lines.ctsDeasserted, s.cpu,
                    s.port.txPou == s.port.txPin)
    && CacheFresh(s.device, Clean(s), s.pump.pc)
  }

  ghost predicate Inv(s: Sys)
  {
    InvWith(s, s.device.flags.rtsDeasserted)
  }

  lemma StatusBits(d: Device)
    requires Published(d)
    ensures d.Rdrf() == d.lines.receiveBufferFull
    ensures d.Tdre() == (d.lines.transmitBufferEmpty && !d.lines.ctsDeasserted && !d.flags.txWritePending)
  {
  }

  /** What a push does to the ring's part of the invariant. */
  lemma PushOther(modes: Modes, ring: seq<WriteEntry>, core1: Core1, pending: bool, inFlight: seq<byte>, e: WriteEntry)
    requires NormalMode(modes, ring, core1) && OneInFlight(ring, core1, pending, inFlight) && |ring| <= RING_ROOM
    requires DriverEntry(e) && e.location != DataRegister
    ensures NormalMode(modes, Pushed(ring, e), core1) && OneInFlight(Pushed(ring, e), core1, pending, inFlight)
    ensures |Pushed(ring, e)| <= RING_ROOM
  {
  }

  lemma PushData(modes: Modes, ring: seq<WriteEntry>, core1: Core1, data: byte)
    requires NormalMode(modes, ring, core1) && OneInFlight(ring, core1, false, []) && |ring| <= RING_ROOM
    ensures var r := Pushed(ring, WriteEntry(DataRegister, data));
      NormalMode(modes, r, core1) && OneInFlight(r, core1, true, [data]) && |r| <= RING_ROOM
  {
  }

  /** A store into the control register brings the device's copy up to date at once. */
  lemma StoreControlKeeps(s: Sys, control: byte)
    requires DriverControl(control) && InvWith(s, control == IQ_RTSONLY)
    ensures Inv(s.StoreControl(control))
  {
    PushOther(s.device.modes, s.ring, s.core1, s.device.flags.txWritePending, s.hist.inFlight,
              WriteEntry(ControlRegister, control));
  }

  predicate OfPump(a: Action)
  {
    a.PumpStart? || a.PumpFill? || a.PumpPut? || a.PumpPutFlag? || a.PumpBurstEnd? || a.PumpCollect?
    || a.PumpCollectEnd? || a.PumpUsbWrite? || a.PumpCts? || a.PumpCtsFlag?
  }

  predicate OfMainLoop(a: Action)
  {
    a.PollInterrupt? || a.Recompute? || a.TakeEntry? || a.Dispatch? || a.ReceiveNext?
  }

  /** The pump touches neither the guest nor the way of its stores. */
  lemma PumpLeavesGuest(s: Sys, a: Action)
    requires s.WellFormed() && Enabled(s, a) && OfPump(a)
    ensures var t := Apply(s, a);
      && t.port == s.port && t.cpu == s.cpu && t.core1 == s.core1 && t.ring == s.ring && t.rxReads == s.rxReads
      && t.device.modes == s.device.modes
      && t.hist == s.hist.(usbIn := t.hist.usbIn, usbOut := t.hist.usbOut)
  {
  }

  /** Of the guest's stores the main loop only takes and delivers them. */
  lemma MainLoopLeavesGuest(s: Sys, a: Action)
    requires s.WellFormed() && Enabled(s, a) && OfMainLoop(a)
    ensures var t := Apply(s, a);
      && t.port == s.port && t.cpu == s.cpu && t.pump == s.pump && t.hist == s.hist.(inFlight := t.hist.inFlight)
      && (!a.TakeEntry? ==> t.ring == s.ring)
      && (!a.TakeEntry? && !a.Dispatch? ==> t.hist == s.hist && t.device.modes == s.device.modes
                                            && !s.core1.Dispatching? && !t.core1.Dispatching?)
  {
  }

  lemma GuestLeavesMainLoop(s: Sys, a: Action)
    requires s.WellFormed() && Enabled(s, a) && !OfPump(a) && !OfMainLoop(a)
    ensures var t := Apply(s, a);
      t.core1 == s.core1 && t.pump == s.pump && t.device.modes == s.device.modes
  {
  }

  lemma RegroupLast(a: seq<byte>, b: seq<byte>, c: seq<byte>, b': seq<byte>, c': seq<byte>)
    requires b + c == b' + c'
    ensures a + b + c == a + b' + c'
  {
    assert a + b + c == a + (b + c);
    assert a + b' + c' == a + (b' + c');
  }

  /** What a step of the pump that leaves the device alone has to respect. */
  ghost predicate PumpMayBecome(s: Sys, p: Pump)
  {
    && p.WellFormed()
    && (p.pc.Bursting? ==> |s.device.rx| + p.pc.amount - p.Sent() < CAPACITY)
    && PutFlagDue(p.pc) == PutFlagDue(s.pump.pc) && p.pc.CtsFlagDue? == s.pump.pc.CtsFlagDue?
  }

  lemma PumpMovesQuietly(s: Sys, p: Pump)
    requires Inv(s) && PumpMayBecome(s, p)
    requires p.RxRest() == s.pump.RxRest() && p.TxRest() == s.pump.TxRest()
    ensures Inv(s.(pump := p))
  {
  }

  /** It has read `more` from USB. */
  lemma PumpReads(s: Sys, p: Pump, more: seq<byte>)
    requires Inv(s) && PumpMayBecome(s, p)
    requires p.RxRest() == s.pump.RxRest() + more && p.TxRest() == s.pump.TxRest()
    ensures Inv(s.(pump := p, hist := s.hist.(usbIn := s.hist.usbIn + more)))
  {
    var before := s.hist.inched + s.port.RxRing() + InRegister(s) + s.device.rx;
    assert before + p.RxRest() == before + s.pump.RxRest() + more;
  }

  /** USB has accepted `out`. */
  lemma PumpSends(s: Sys, p: Pump, out: seq<byte>)
    requires Inv(s) && PumpMayBecome(s, p)
    requires p.RxRest() == s.pump.RxRest() && s.pump.TxRest() == out + p.TxRest()
    ensures Inv(s.(pump := p, hist := s.hist.(usbOut := s.hist.usbOut + out)))
  {
    RegroupLast(s.hist.usbOut, out, p.TxRest(), s.pump.TxRest(), []);
    assert s.hist.usbOut + s.pump.TxRest() + [] == s.hist.usbOut + s.pump.TxRest();
  }

  lemma PumpStartKeeps(s: Sys, a: Action)
    requires Inv(s) && a.PumpStart? && Enabled(s, a)
    ensures Inv(Apply(s, a))
  {
    PumpMovesQuietly(s, Apply(s, a).pump);
  }

  lemma FilledReads(p: Pump, usb: seq<byte>, level: nat)
    requires p.WellFormed() && p.pc.Filling? && |usb| <= USB_BUFFER_SIZE && level < CAPACITY
    ensures var q := Filled(p, usb, level);
      && q.WellFormed() && q.pc.Bursting? && level + q.pc.amount - q.Sent() < CAPACITY && !q.pc.flagDue
      && q.RxRest() == p.RxRest() + (if p.rxCount == 0 then usb else []) && q.TxRest() == p.TxRest()
  {
  }

  lemma PumpFillKeeps(s: Sys, a: Action)
    requires Inv(s) && a.PumpFill? && Enabled(s, a)
    ensures Inv(Apply(s, a))
  {
    FilledReads(s.pump, a.usb, |s.device.rx|);
    PumpReads(s, Filled(s.pump, a.usb, |s.device.rx|), if s.pump.rxCount == 0 then a.usb else []);
  }

  lemma PumpPutKeeps(s: Sys, a: Action)
    requires Inv(s) && a.PumpPut? && Enabled(s, a)
    ensures Inv(Apply(s, a))
  {
    var t := Apply(s, a);
    var b := s.pump.rxBuf[s.pump.rxIndex + s.pump.pc.done];
    assert s.pump.RxRest() == [b] + t.pump.RxRest();
    assert t.device.rx + t.pump.RxRest() == s.device.rx + s.pump.RxRest();
    RegroupLast(s.hist.inched + s.port.RxRing() + InRegister(s), s.device.rx, s.pump.RxRest(),
                t.device.rx, t.pump.RxRest());
  }

  lemma PumpPutFlagKeeps(s: Sys, a: Action)
    requires Inv(s) && a.PumpPutFlag? && Enabled(s, a)
    ensures Inv(Apply(s, a))
  {
  }

  lemma PumpBurstEndKeeps(s: Sys, a: Action)
    requires Inv(s) && a.PumpBurstEnd? && Enabled(s, a)
    ensures Inv(Apply(s, a))
  {
    PumpMovesQuietly(s, Apply(s, a).pump);
  }

  /** One byte from the transmit queue into the buffer. */
  lemma CollectTakes(tx: seq<byte>, p: Pump)
    requires p.WellFormed() && p.pc.Collecting? && tx != [] && p.txCount < USB_BUFFER_SIZE
    ensures var q := p.(txBuf := p.txBuf[p.txCount := tx[0]], txCount := p.txCount + 1);
      q.WellFormed() && q.TxRest() + tx[1..] == p.TxRest() + tx && q.RxRest() == p.RxRest()
  {
    var q := p.(txBuf := p.txBuf[p.txCount := tx[0]], txCount := p.txCount + 1);
    assert q.TxRest() == p.TxRest() + [tx[0]];
    assert [tx[0]] + tx[1..] == tx;
    RegroupLast(p.TxRest(), [tx[0]], tx[1..], tx, []);
    assert p.TxRest() + tx + [] == p.TxRest() + tx;
  }

  lemma Collected(s: Sys, p: Pump)
    requires Inv(s) && s.device.tx != [] && PumpMayBecome(s, p) && p.RxRest() == s.pump.RxRest()
    requires p.TxRest() + s.device.tx[1..] == s.pump.TxRest() + s.device.tx
    ensures Inv(s.(device := s.device.HostReceive(), pump := p))
  {
    RegroupLast(s.hist.usbOut, s.pump.TxRest(), s.device.tx, p.TxRest(), s.device.tx[1..]);
  }

  lemma PumpCollectKeeps(s: Sys, a: Action)
    requires Inv(s) && a.PumpCollect? && Enabled(s, a)
    ensures Inv(Apply(s, a))
  {
    CollectTakes(s.device.tx, s.pump);
    Collected(s, Apply(s, a).pump);
  }

  lemma PumpCollectEndKeeps(s: Sys, a: Action)
    requires Inv(s) && a.PumpCollectEnd? && Enabled(s, a)
    ensures Inv(Apply(s, a))
  {
    PumpMovesQuietly(s, Apply(s, a).pump);
  }

  lemma UsbWriteSplits(p: Pump, written: nat)
    requires p.WellFormed() && p.pc.WritingUsb? && p.txIndex + written <= p.txCount
    ensures var q := WroteUsb(p, written);
      && q.WellFormed() && q.pc.FeedingCts? && q.RxRest() == p.RxRest()
      && p.TxRest() == p.txBuf[p.txIndex..p.txIndex + written] + q.TxRest()
  {
  }

  lemma PumpUsbWriteKeeps(s: Sys, a: Action)
    requires Inv(s) && a.PumpUsbWrite? && Enabled(s, a)
    ensures Inv(Apply(s, a))
  {
    var p, out := WroteUsb(s.pump, a.written), s.pump.txBuf[s.pump.txIndex..s.pump.txIndex + a.written];
    UsbWriteSplits(s.pump, a.written);
    PumpSends(s, p, out);
    assert Apply(s, a) == s.(pump := p, hist := s.hist.(usbOut := s.hist.usbOut + out));
  }

  /** The stores into `host_cts_deasserted` wait for the flag store behind them. */
  lemma CtsStoreKeepsCache(d: Device, clean: bool, pc: PumpPc, cts: bool)
    requires CacheFresh(d, clean, pc) && pc.FeedingCts?
    ensures CacheFresh(d.(flags := d.flags.(hostCtsDeasserted := cts)), clean, CtsFlagDue)
    ensures cts == d.flags.hostCtsDeasserted ==> CacheFresh(d, clean, PumpIdle)
  {
  }

  lemma CtsMoves(s: Sys, cts: bool, pc: PumpPc)
    requires Inv(s) && s.pump.pc.FeedingCts? && (pc.PumpIdle? || pc.CtsFlagDue?)
    requires CacheFresh(s.device.(flags := s.device.flags.(hostCtsDeasserted := cts)), Clean(s), pc)
    ensures Inv(s.(device := s.device.(flags := s.device.flags.(hostCtsDeasserted := cts)),
                   pump := s.pump.(pc := pc)))
  {
    var p := s.pump.(pc := pc);
    assert p.RxRest() == s.pump.RxRest() && p.TxRest() == s.pump.TxRest();
  }

  lemma PumpCtsKeeps(s: Sys, a: Action)
    requires Inv(s) && a.PumpCts? && Enabled(s, a)
    ensures Inv(Apply(s, a))
  {
    var cts := s.pump.txCount > 0 && s.pump.txIndex < s.pump.txCount;
    CtsStoreKeepsCache(s.device, Clean(s), s.pump.pc, cts);
    CtsMoves(s, cts, if cts == s.device.flags.hostCtsDeasserted then PumpIdle else CtsFlagDue);
  }

  lemma PumpCtsFlagKeeps(s: Sys, a: Action)
    requires Inv(s) && a.PumpCtsFlag? && Enabled(s, a)
    ensures Inv(Apply(s, a))
  {
  }

  lemma PollInterruptKeeps(s: Sys, a: Action)
    requires Inv(s) && a.PollInterrupt? && Enabled(s, a)
    ensures Inv(Apply(s, a))
  {
  }

  /** Whatever was cached, a recomputation makes it fresh. */
  lemma RecomputeFreshens(d: Device, clean: bool, pc: PumpPc)
    requires |d.tx| < CAPACITY - 1 && d.reg.status == d.reg.cachedStatus
    ensures CacheFresh(d.Recompute(), clean, pc)
    ensures d.Recompute().flags == d.flags && d.Recompute().modes == d.modes && d.Recompute().tx == d.tx
    ensures !d.Recompute().lines.ctsDeasserted ==> |d.tx| <= CTS_THRESHOLD
  {
    var e := d.Refreshed().Staged();
    SyncPublishes(e.Asserted().(cachedIrq := if e.WantsTransmitIrq() || e.WantsReceiveIrq() then Irq else NoInterrupt));
  }

  lemma RecomputeKeeps(s: Sys, a: Action)
    requires Inv(s) && a.Recompute? && Enabled(s, a)
    ensures Inv(Apply(s, a))
  {
    var t := Apply(s, a);
    RecomputeFreshens(s.device, Clean(t), t.pump.pc);
    assert InRegister(t) + t.device.rx == InRegister(s) + s.device.rx;
    RegroupLast(s.hist.inched + s.port.RxRing(), InRegister(s), s.device.rx, InRegister(t), t.device.rx);
  }

  lemma TakeEntryKeeps(s: Sys, a: Action)
    requires Inv(s) && a.TakeEntry? && Enabled(s, a)
    ensures Inv(Apply(s, a))
  {
  }

  lemma DispatchDataKeeps(s: Sys, a: Action)
    requires Inv(s) && a.Dispatch? && Enabled(s, a) && s.core1.entry.location == DataRegister
    ensures Inv(Apply(s, a))
  {
    var t := Apply(s, a);
    assert t.device.tx == s.device.tx + s.hist.inFlight;
    RegroupLast(s.hist.usbOut + s.pump.TxRest(), s.device.tx, s.hist.inFlight, t.device.tx, []);
  }

  lemma DispatchOtherKeeps(s: Sys, a: Action)
    requires Inv(s) && a.Dispatch? && Enabled(s, a) && s.core1.entry.location != DataRegister
    ensures Inv(Apply(s, a))
  {
    if s.core1.entry.location == ControlRegister {
      assert !IsMasterReset(s.core1.entry.value);
    }
  }

  lemma ReceiveNextKeeps(s: Sys, a: Action)
    requires Inv(s) && a.ReceiveNext? && Enabled(s, a)
    ensures Inv(Apply(s, a))
  {
    var t := Apply(s, a);
    assert InRegister(t) + t.device.rx == InRegister(s) + s.device.rx;
    RegroupLast(s.hist.inched + s.port.RxRing(), InRegister(s), s.device.rx, InRegister(t), t.device.rx);
  }

  lemma StoreElsewhereKeeps(s: Sys, a: Action)
    requires Inv(s) && a.StoreElsewhere? && Enabled(s, a)
    ensures Inv(Apply(s, a))
  {
    PushOther(s.device.modes, s.ring, s.core1, s.device.flags.txWritePending, s.hist.inFlight,
              WriteEntry(Elsewhere, a.value));
  }

  /** INCH up to its store into the control register, if it makes one. */
  lemma InchKeeps(s: Sys)
    requires Inv(s) && s.cpu.Foreground?
    ensures var e := s.port.Inch();
      e.port.WellFormed()
      && InvWith(s.(port := e.port,
                    hist := s.hist.(inched := s.hist.inched + if e.got.Some? then [e.got.value] else [])),
                 e.port.rxFull)
      && (e.control.Some? ==> DriverControl(e.control.value) && e.control.value != IQ_RTSONLY && !e.port.rxFull)
      && (e.control.None? ==> e.port.rxFull == s.port.rxFull)
  {
    var e := s.port.Inch();
    InchTakesOldest(s.port);
    assert s.hist.inched + (if e.got.Some? then [e.got.value] else []) + e.port.RxRing()
        == s.hist.inched + s.port.RxRing();
  }

  lemma CallInchKeeps(s: Sys, a: Action)
    requires Inv(s) && a.CallInch? && Enabled(s, a)
    ensures Inv(Apply(s, a))
  {
    var e := s.port.Inch();
    InchKeeps(s);
    if e.control.Some? {
      StoreControlKeeps(s.(port := e.port,
                           hist := s.hist.(inched := s.hist.inched + if e.got.Some? then [e.got.value] else [])),
                        e.control.value);
    }
  }

  lemma CallOutchKeeps(s: Sys, a: Action)
    requires Inv(s) && a.CallOutch? && Enabled(s, a)
    ensures Inv(Apply(s, a))
  {
    EnqueueAppends(s.port, a.ch);
    var t := s.(port := s.port.Enqueue(a.ch), hist := s.hist.(outched := s.hist.outched + [a.ch]));
    if !s.port.rxFull {
      StoreControlKeeps(t, IQ_RXTX);
    }
  }

  lemma DrainCompareKeeps(s: Sys, a: Action)
    requires Inv(s) && a.DrainCompare? && Enabled(s, a)
    ensures Inv(Apply(s, a))
  {
  }

  lemma DrainPollKeeps(s: Sys, a: Action)
    requires Inv(s) && a.DrainPoll? && Enabled(s, a)
    ensures Inv(Apply(s, a))
  {
    StatusBits(s.device);
  }

  /** The early parts of a data store and of a data read publish what they change and set the flag. */
  lemma EarlyPartsKeepCache(d: Device, clean: bool, pc: PumpPc)
    requires CacheFresh(d, clean, pc)
    ensures CacheFresh(d.WriteReceived(), false, pc) && d.WriteReceived().flags.irqDirty
    ensures CacheFresh(d.RxReadFastPath(), false, pc) && d.RxReadFastPath().flags.irqDirty
  {
    SyncPublishes(d.(flags := d.flags.(txWritePending := true, irqDirty := true)));
    SyncPublishes(d.(lines := d.lines.(receiveBufferFull := false, assertReceiveIrq := false)).Dirtied());
  }

  /** The byte has left the guest's ring, and its store is due. */
  ghost predicate DueToStore(s: Sys, data: byte)
  {
    && Bounded(s)
    && NormalMode(s.device.modes, s.ring, s.core1)
    && FlowControl(s.device.flags.rtsDeasserted, s.device.lines.receiveBufferFull, s.port, s.cpu)
    && RxConserved(s) && s.hist.inFlight == []
    && s.hist.outched == s.hist.txWritten + [data] + s.port.TxRing()
    && s.hist.txWritten == s.hist.usbOut + s.pump.TxRest() + s.device.tx
    && OneInFlight(s.ring, s.core1, false, []) && !s.device.flags.txWritePending
    && Backpressure(|s.device.tx|, true, s.device.lines.ctsDeasserted, s.cpu, s.port.txPou == s.port.txPin)
    && CacheFresh(s.device, Clean(s), s.pump.pc)
  }

  lemma StoreDataKeeps(s: Sys, data: byte)
    requires DueToStore(s, data)
    ensures Inv(s.StoreData(data))
  {
    PushData(s.device.modes, s.ring, s.core1, data);
    EarlyPartsKeepCache(s.device, Clean(s), s.pump.pc);
    var t := s.StoreData(data);
    assert InRegister(t) == InRegister(s);
  }

  /** The guest stores the oldest byte of its ring into the data register and goes on at `next`. */
  lemma SendByteKeeps(s: Sys, next: Cpu)
    requires Inv(s) && (s.cpu.DrainStore? || s.cpu.TxSend?)
    requires next.DrainTest? || next.TxOff? || (next.TxMore? && s.port.DropTx().txPou != s.port.DropTx().txPin)
    ensures Inv(s.(port := s.port.DropTx(), cpu := next).StoreData(s.port.txBuf[s.port.txPou]))
  {
    var data, t := s.port.txBuf[s.port.txPou], s.(port := s.port.DropTx(), cpu := next);
    DropTxTakesOldest(s.port);
    RegroupLast(s.hist.txWritten, [data], s.port.DropTx().TxRing(), s.port.TxRing(), []);
    assert s.hist.txWritten + s.port.TxRing() + [] == s.hist.txWritten + s.port.TxRing();
    assert InRegister(t) == InRegister(s);
    StoreDataKeeps(t, data);
  }

  lemma DrainWriteKeeps(s: Sys, a: Action)
    requires Inv(s) && a.DrainWrite? && Enabled(s, a)
    ensures Inv(Apply(s, a))
  {
    SendByteKeeps(s, DrainTest);
  }

  lemma EnterIsrKeeps(s: Sys, a: Action)
    requires Inv(s) && a.EnterIsr? && Enabled(s, a)
    ensures Inv(Apply(s, a))
  {
    StatusBits(s.device);
  }

  lemma CheckRoomKeeps(s: Sys)
    requires Inv(s) && s.cpu.RxCheck? && s.port.NextRxSlot() == Room
    ensures Inv(Apply(s, CheckSlot))
  {
    StoreRxAppends(s.port, s.device.reg.rxData);
    EarlyPartsKeepCache(s.device, Clean(s), s.pump.pc);
    assert InRegister(s) == [s.device.reg.rxData] && InRegister(Apply(s, CheckSlot)) == [];
  }

  lemma CheckSlotKeeps(s: Sys, a: Action)
    requires Inv(s) && a.CheckSlot? && Enabled(s, a)
    ensures Inv(Apply(s, a))
  {
    if s.port.NextRxSlot() == Room {
      CheckRoomKeeps(s);
    } else {
      StoreRxAppends(s.port, s.device.reg.rxData);
      StoreControlKeeps(s.(port := s.port.(rxFull := true), cpu := RxLastRead), IQ_RTSONLY);
    }
  }

  lemma ReadLastKeeps(s: Sys, a: Action)
    requires Inv(s) && a.ReadLast? && Enabled(s, a)
    ensures Inv(Apply(s, a))
  {
    StoreRxAppends(s.port, s.device.reg.rxData);
  }

  lemma CheckMoreKeeps(s: Sys, a: Action)
    requires Inv(s) && a.CheckMore? && Enabled(s, a)
    ensures Inv(Apply(s, a))
  {
    StatusBits(s.device);
  }

  lemma SendNextKeeps(s: Sys, a: Action)
    requires Inv(s) && a.SendNext? && Enabled(s, a)
    ensures Inv(Apply(s, a))
  {
    var p := s.port.DropTx();
    SendByteKeeps(s, if p.txPou == p.txPin then TxOff else TxMore);
  }

  lemma CheckTdreKeeps(s: Sys, a: Action)
    requires Inv(s) && a.CheckTdre? && Enabled(s, a)
    ensures Inv(Apply(s, a))
  {
    StatusBits(s.device);
  }

  lemma SwitchTxOffKeeps(s: Sys, a: Action)
    requires Inv(s) && a.SwitchTxOff? && Enabled(s, a)
    ensures Inv(Apply(s, a))
  {
    StoreControlKeeps(s.(cpu := Foreground), s.port.TxOffControl());
  }

  lemma PumpStepKeeps(s: Sys, a: Action)
    requires Inv(s) && Enabled(s, a)
    requires OfPump(a)
    ensures Inv(Apply(s, a))
  {
    match a
    case PumpStart(_) => PumpStartKeeps(s, a);
    case PumpFill(_) => PumpFillKeeps(s, a);
    case PumpPut => PumpPutKeeps(s, a);
    case PumpPutFlag => PumpPutFlagKeeps(s, a);
    case PumpBurstEnd => PumpBurstEndKeeps(s, a);
    case PumpCollect => PumpCollectKeeps(s, a);
    case PumpCollectEnd => PumpCollectEndKeeps(s, a);
    case PumpUsbWrite(_) => PumpUsbWriteKeeps(s, a);
    case PumpCts => PumpCtsKeeps(s, a);
    case PumpCtsFlag => PumpCtsFlagKeeps(s, a);
  }

  lemma MainLoopStepKeeps(s: Sys, a: Action)
    requires Inv(s) && Enabled(s, a)
    requires OfMainLoop(a)
    ensures Inv(Apply(s, a))
  {
    match a
    case PollInterrupt => PollInterruptKeeps(s, a);
    case Recompute => RecomputeKeeps(s, a);
    case TakeEntry => TakeEntryKeeps(s, a);
    case ReceiveNext => ReceiveNextKeeps(s, a);
    case Dispatch =>
      if s.core1.entry.location == DataRegister {
        DispatchDataKeeps(s, a);
      } else {
        DispatchOtherKeeps(s, a);
      }
  }

  lemma GuestStepKeeps(s: Sys, a: Action)
    requires Inv(s) && Enabled(s, a) && !OfPump(a) && !OfMainLoop(a) && !a.ReadLost?
    ensures Inv(Apply(s, a))
  {
    match a
    case StoreElsewhere(_) => StoreElsewhereKeeps(s, a);
    case CallInch => CallInchKeeps(s, a);
    case CallOutch(_) => CallOutchKeeps(s, a);
    case DrainCompare => DrainCompareKeeps(s, a);
    case DrainPoll => DrainPollKeeps(s, a);
    case DrainWrite => DrainWriteKeeps(s, a);
    case EnterIsr => EnterIsrKeeps(s, a);
    case CheckSlot => CheckSlotKeeps(s, a);
    case ReadLast => ReadLastKeeps(s, a);
    case CheckMore => CheckMoreKeeps(s, a);
    case SendNext => SendNextKeeps(s, a);
    case CheckTdre => CheckTdreKeeps(s, a);
    case SwitchTxOff => SwitchTxOffKeeps(s, a);
  }

  lemma NeverLosing(s: Sys)
    requires Inv(s)
    ensures !s.cpu.RxLostRead?
  {
  }

  /** Every step of every actor keeps the invariant. `ReadLost`, the step that loses a byte, is never enabled. */
  lemma StepKeeps(s: Sys, a: Action)
    requires Inv(s) && Enabled(s, a)
    ensures Inv(Apply(s, a)) && !a.ReadLost?
  {
    NeverLosing(s);
    assert !a.ReadLost?;
    if OfPump(a) {
      PumpStepKeeps(s, a);
    } else if OfMainLoop(a) {
      MainLoopStepKeeps(s, a);
    } else {
      GuestStepKeeps(s, a);
    }
  }
}
