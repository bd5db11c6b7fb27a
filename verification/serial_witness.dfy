/** Runs of the serial path that do happen, each from the initial state and step by step. */
module SerialWitness {
  import opened Bytes
  import opened Ring
  import opened SpscQueues
  import opened Mc6850Spec
  import opened IoDriver
  import opened WriteRings
  import opened SerialPath
  import opened SerialInvariant
  import opened SerialTransit
  import opened SerialTheorems

  /** Reached by a run in which no store meets a full write ring. */
  ghost predicate Reached(t: Sys)
  {
    exists run :: Leads(Initial(), run, t) && NeverFull(Initial(), run)
  }

  lemma {:induction false} OneMore(s: Sys, run: seq<Action>, t: Sys, a: Action)
    requires Leads(s, run, t) && t.WellFormed() && Enabled(t, a)
    ensures Leads(s, run + [a], Apply(t, a))
    ensures NeverFull(s, run) && (Stores(t, a) == [] || |t.ring| < RING_ROOM) ==> NeverFull(s, run + [a])
    decreases |run|
  {
    if run == [] {
      assert run + [a] == [a] && [a][1..] == [];
    } else {
      assert (run + [a])[1..] == run[1..] + [a];
      OneMore(Apply(s, run[0]), run[1..], t, a);
    }
  }

  lemma Go(s: Sys, a: Action) returns (t: Sys)
    requires Reached(s) && s.WellFormed() && Enabled(s, a) && (Stores(s, a) == [] || |s.ring| < RING_ROOM)
    ensures t == Apply(s, a) && Reached(t) && Inv(t)
  {
    var run :| Leads(Initial(), run, s) && NeverFull(Initial(), run);
    OneMore(Initial(), run, s, a);
    t := Apply(s, a);
    assert Leads(Initial(), run + [a], t);
    ReachableHolds(t);
  }

  /** The pump has not begun, nothing comes from the host, and `n` bytes wait for it. */
  ghost predicate HostIdle(s: Sys, n: nat)
  {
    && Reached(s) && Inv(s) && s.pump.pc.PumpIdle? && s.pump.txCount == 0
    && s.device.rx == [] && !s.device.lines.receiveBufferFull && !s.device.flags.hostCtsDeasserted
    && !s.port.rxFull && |s.device.tx| == n
  }

  /** Nothing is on its way from the guest either. */
  ghost predicate Calm(s: Sys, n: nat)
  {
    && HostIdle(s, n) && s.cpu.Foreground? && s.core1.Looping? && s.ring == []
    && s.port.txPou == s.port.txPin && !s.device.flags.txWritePending
  }

  lemma Take(s: Sys, n: nat) returns (t: Sys)
    requires HostIdle(s, n) && s.core1.Looping? && s.ring != []
    ensures HostIdle(t, n) && t == s.(ring := s.ring[1..], core1 := Dispatching(s.ring[0]))
  {
    t := Go(s, TakeEntry);
  }

  lemma ControlDoes(d: Device, control: byte)
    requires DriverControl(control)
    ensures var e := d.GuestControl(control);
      && e.modes.transmitIrq == SelectsTransmit(control) && e.flags == d.flags.(irqDirty := true)
      && e.rx == d.rx && e.tx == d.tx && e.lines.receiveBufferFull == d.lines.receiveBufferFull
  {
  }

  /** The main loop takes the oldest control store and acts on it. */
  lemma DeliverControl(s: Sys, n: nat) returns (t: Sys)
    requires HostIdle(s, n) && s.core1.Looping? && s.ring != [] && s.ring[0].location == ControlRegister
    ensures HostIdle(t, n) && t.core1.Looping? && t.ring == s.ring[1..] && t.cpu == s.cpu && t.port == s.port
    ensures t.device.modes.transmitIrq == SelectsTransmit(s.ring[0].value) && t.hist == s.hist
    ensures t.device.flags == s.device.flags.(irqDirty := true)
  {
    assert DriverEntry(s.ring[0]);
    var taken := Take(s, n);
    ControlDoes(s.device, s.ring[0].value);
    t := Go(taken, Dispatch);
    assert t == taken.(device := s.device.GuestControl(s.ring[0].value), core1 := Looping);
  }

  lemma DeliverData(s: Sys, n: nat) returns (t: Sys)
    requires HostIdle(s, n) && s.core1.Looping? && s.ring != [] && s.ring[0].location == DataRegister
    ensures HostIdle(t, n + 1) && t.core1.Looping? && t.ring == s.ring[1..] && t.cpu == s.cpu && t.port == s.port
    ensures t.device.modes == s.device.modes
    ensures t.device.flags == s.device.flags.(irqDirty := true, txWritePending := false)
  {
    var taken := Take(s, n);
    t := Go(taken, Dispatch);
  }

  /** A poll with the flag set derives everything again. */
  lemma Poll(s: Sys, n: nat) returns (t: Sys)
    requires HostIdle(s, n) && s.core1.Looping? && s.device.flags.irqDirty
    ensures HostIdle(t, n) && t.core1.Looping? && t.ring == s.ring && t.cpu == s.cpu && t.port == s.port
    ensures t.device.modes == s.device.modes && t.device.flags == s.device.flags.(irqDirty := false)
    ensures t.hist == s.hist
    ensures t.device.lines.ctsDeasserted == (n > CTS_THRESHOLD) && t.pump == s.pump
    ensures !t.device.Rdrf() && t.device.Tdre() == (n <= CTS_THRESHOLD && !s.device.flags.txWritePending)
    ensures t.device.cachedIrq == if s.device.modes.transmitIrq && t.device.Tdre() then Irq else NoInterrupt
  {
    var cleared := Go(s, PollInterrupt);
    t := Go(cleared, Recompute);
    StatusBits(t.device);
  }

  lemma Begin() returns (s: Sys)
    ensures Calm(s, 0) && s.hist == Initial().hist
  {
    assert Leads(Initial(), [], Initial()) && NeverFull(Initial(), []);
    InitialHolds();
    s := DeliverControl(Initial(), 0);
  }

  lemma Queue(s: Sys, n: nat, b: byte) returns (t: Sys)
    requires Calm(s, n)
    ensures HostIdle(t, n) && t.cpu.Foreground? && t.core1.Looping?
    ensures t.ring == [WriteEntry(ControlRegister, IQ_RXTX)]
    ensures t.port.txPin == Next(RING_SIZE, t.port.txPou) && !t.device.flags.txWritePending
    ensures t.hist == s.hist.(outched := s.hist.outched + [b])
  {
    t := Go(s, CallOutch(b));
  }

  /** OUTCH with one byte, and the main loop as far as the interrupt that this causes. */
  lemma Ask(s: Sys, n: nat, b: byte) returns (t: Sys)
    requires Calm(s, n) && n <= CTS_THRESHOLD
    ensures HostIdle(t, n) && t.cpu.Foreground? && t.core1.Looping? && t.ring == []
    ensures t.port.txPin == Next(RING_SIZE, t.port.txPou) && !t.device.flags.txWritePending
    ensures t.hist == s.hist.(outched := s.hist.outched + [b])
    ensures !t.device.Rdrf() && t.device.Tdre() && t.device.cachedIrq == Irq && t.device.modes.transmitIrq
  {
    var stored := Queue(s, n, b);
    var selected := DeliverControl(stored, n);
    t := Poll(selected, n);
  }

  /** The interrupt routine stores the byte; its ring is empty then. */
  lemma StoreLast(s: Sys, n: nat, b: byte) returns (t: Sys)
    requires Calm(s, n) && n <= CTS_THRESHOLD
    ensures HostIdle(t, n) && t.cpu.TxOff? && t.core1.Looping? && t.port.txPou == t.port.txPin
    ensures t.device.flags.txWritePending && t.device.modes.transmitIrq
    ensures |t.ring| == 1 && t.ring[0].location == DataRegister
    ensures t.hist.outched == s.hist.outched + [b] && t.hist.usbOut == s.hist.usbOut
  {
    var asked := Ask(s, n, b);
    var entered := Enter(asked, n);
    var p := asked.port;
    t := Go(entered, SendNext);
    assert t == asked.(port := p.DropTx(), cpu := TxOff).StoreData(p.txBuf[p.txPou]);
  }

  lemma Enter(s: Sys, n: nat) returns (t: Sys)
    requires HostIdle(s, n) && s.cpu.Foreground? && s.port.txPou != s.port.txPin
    requires !s.device.Rdrf() && s.device.Tdre()
    ensures HostIdle(t, n) && t == s.(cpu := TxSend)
  {
    t := Go(s, EnterIsr);
  }

  /** Before it switches the transmit interrupt off, the main loop delivers the byte. */
  lemma Send(s: Sys, n: nat, b: byte) returns (t: Sys)
    requires Calm(s, n) && n <= CTS_THRESHOLD
    ensures HostIdle(t, n + 1) && t.cpu.Foreground? && t.core1.Looping? && t.device.flags.irqDirty
    ensures t.port.txPou == t.port.txPin && !t.device.flags.txWritePending && t.device.modes.transmitIrq
    ensures t.ring == [WriteEntry(ControlRegister, IQ_RX)]
  {
    var sent := StoreLast(s, n, b);
    var delivered := DeliverData(sent, n);
    t := Go(delivered, SwitchTxOff);
  }

  lemma Cycle(s: Sys, n: nat, b: byte) returns (t: Sys)
    requires Calm(s, n) && n <= CTS_THRESHOLD
    ensures Calm(t, n + 1)
  {
    var sent := Send(s, n, b);
    t := DeliverControl(sent, n + 1);
  }

  /** A guest that sends while the host takes nothing fills the transmit queue up to the byte that passes the
      threshold. */
  lemma {:induction false} Fill(n: nat) returns (s: Sys)
    requires n <= CTS_THRESHOLD + 1
    ensures Calm(s, n)
    decreases n
  {
    if n == 0 {
      s := Begin();
    } else {
      var before := Fill(n - 1);
      s := Cycle(before, n - 1, 65);
    }
  }

  /** The bound of the transmit level is attained. */
  lemma TransmitLevelIsAttained() returns (t: Sys)
    ensures Reachable(t) && t.WellFormed() && |t.device.tx| == 801
  {
    t := Fill(801);
    var run :| Leads(Initial(), run, t) && NeverFull(Initial(), run);
  }

  /** The cache does get out of date: once the host takes a byte from a queue that had passed the threshold,
      CTS has outlived its reason, with the flag clear. */
  lemma CtsDoesOutlive() returns (t: Sys)
    ensures Reachable(t) && Settled(t) && CtsOutlived(t.device) && t.device.Recompute() != t.device
  {
    var full := Fill(CTS_THRESHOLD + 1);
    var polled;
    if full.device.flags.irqDirty {
      polled := Poll(full, CTS_THRESHOLD + 1);
    } else {
      polled := full;
    }
    var started := Go(polled, PumpStart(true));
    t := Go(started, PumpCollect);
    var run :| Leads(Initial(), run, t) && NeverFull(Initial(), run);
    CachedResultIsRecomputed(t);
  }

  /** The interrupt routine does meet an empty ring, on an interrupt that this port asserts: it has sent its
      last byte, that byte has reached the device before the store that switches the interrupt off, and the
      settled cache asks for another one. */
  lemma RingIsFoundEmpty() returns (t: Sys)
    ensures Reachable(t) && t.WellFormed() && t.cpu.Foreground? && Settled(t)
    ensures t.device.cachedIrq == Irq && FindsRingEmpty(t) && UndeliveredOff(t)
  {
    var calm := Begin();
    var sent := Send(calm, 0, 65);
    t := Poll(sent, 1);
    var run :| Leads(Initial(), run, t) && NeverFull(Initial(), run);
    OwnInterruptFindsRingEmptyIff(run, t);
  }

  // ----- a byte that is lost -----

  lemma {:induction false} StoreMany(s: Sys, run: seq<Action>, k: nat) returns (t: Sys)
    requires Leads(Initial(), run, s) && s.WellFormed() && s.cpu.Foreground? && |s.ring| <= RING_ROOM
    ensures Leads(Initial(), run + Copies(StoreElsewhere(0), k), t)
    ensures t == s.(ring := PushedAll(s.ring, Copies(WriteEntry(Elsewhere, 0), k)))
    decreases k
  {
    if k == 0 {
      t := s;
      assert run + Copies(StoreElsewhere(0), 0) == run;
    } else {
      OneMore(Initial(), run, s, StoreElsewhere(0));
      var u := Apply(s, StoreElsewhere(0));
      t := StoreMany(u, run + [StoreElsewhere(0)], k - 1);
      assert run + [StoreElsewhere(0)] + Copies(StoreElsewhere(0), k - 1) == run + Copies(StoreElsewhere(0), k);
      assert Copies(WriteEntry(Elsewhere, 0), k)[1..] == Copies(WriteEntry(Elsewhere, 0), k - 1);
    }
  }

  /** The store of a byte given to OUTCH waits in the write ring. */
  lemma Pending(b: byte) returns (s: Sys)
    ensures HostIdle(s, 0) && s.cpu.Foreground? && s.core1.Looping? && |s.ring| <= RING_ROOM
    ensures s.port.txPou == s.port.txPin && s.hist.outched == [b] && s.hist.usbOut == []
  {
    var calm := Begin();
    var sent := StoreLast(calm, 0, b);
    s := Go(sent, SwitchTxOff);
  }

  /** One byte given to OUTCH and stored by the interrupt routine; then the guest fills the write ring with
      stores elsewhere before the main loop comes round, and the byte is nowhere. */
  lemma ByteIsLost(b: byte) returns (t: Sys)
    ensures Reachable(t) && t.WellFormed() && t.hist.outched == [b] && OnItsWay(t) == []
  {
    var s := Pending(b);
    var run :| Leads(Initial(), run, s) && NeverFull(Initial(), run);
    t := StoreMany(s, run, RING_ROOM);
    OnlyStoresElsewhere(s.ring);
  }

  lemma OnlyStoresElsewhere(ring: seq<WriteEntry>)
    requires |ring| <= RING_ROOM
    ensures DataIn(PushedAll(ring, Copies(WriteEntry(Elsewhere, 0), RING_ROOM))) == []
  {
    var es := Copies(WriteEntry(Elsewhere, 0), RING_ROOM);
    RingHoldsNewest(ring, es);
    assert Newest(ring + es, RING_ROOM) == es;
    NoData(es);
  }
}
