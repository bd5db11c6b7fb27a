/** Runs that reach the states in which the races of `Races` do harm. */
module RaceWitness {
  import opened Bytes
  import opened Ring
  import opened SpscQueues
  import opened PumpPasses
  import opened Mc6850Spec
  import opened IoDriver
  import opened WriteRings
  import opened SerialPath
  import opened SerialInvariant
  import opened SerialTheorems
  import opened SerialWitness
  import opened Races

  /** Nothing is on its way to the host. */
  ghost predicate Silent(s: Sys)
  {
    && s.port.txPou == s.port.txPin && s.device.tx == [] && !s.device.flags.txWritePending
    && !s.device.flags.hostCtsDeasserted && s.hist.outched == []
  }

  /** The guest has received `n` bytes of the pump's burst of 70 and has taken none of them. */
  ghost predicate Received(s: Sys, n: nat)
  {
    && Reached(s) && Inv(s) && Silent(s) && s.cpu.Foreground? && s.core1.Looping?
    && s.pump.pc == Bursting(70, n, false) && s.ring == [] && s.device.rx == []
    && !s.port.rxFull && |s.port.RxRing()| == n && !s.device.lines.receiveBufferFull
  }

  lemma BurstBegins() returns (s: Sys)
    ensures Received(s, 0)
  {
    var calm := Begin();
    assert calm.hist.usbIn == [] && calm.hist.inched == [] && calm.hist.outched == [];
    var started := Go(calm, PumpStart(false));
    assert started == calm.(pump := calm.pump.(pc := Filling));
    assert started.pump.RxRest() == [] && started.port.RxRing() == [];
    s := Go(started, PumpFill(Copies<byte>(0, 70)));
  }

  lemma PutHalf(s: Sys, n: nat) returns (t: Sys, b: byte)
    requires Reached(s) && Inv(s) && s.pump.pc == Bursting(70, n, false) && n < 70 && |s.device.rx| < 2
    ensures Reached(t) && Inv(t)
    ensures t == s.(device := s.device.(rx := s.device.rx + [b]), pump := s.pump.(pc := Bursting(70, n, true)))
  {
    b := s.pump.rxBuf[s.pump.rxIndex + n];
    t := Go(s, PumpPut);
  }

  /** The pump puts one byte and sets the flag. */
  lemma PutOne(s: Sys, n: nat) returns (t: Sys, b: byte)
    requires Reached(s) && Inv(s) && s.pump.pc == Bursting(70, n, false) && n < 70 && |s.device.rx| < 2
    ensures Reached(t) && Inv(t)
    ensures t == s.(device := s.device.(rx := s.device.rx + [b]).Dirtied(),
                    pump := s.pump.(pc := Bursting(70, n + 1, false)))
  {
    var put;
    put, b := PutHalf(s, n);
    t := FlagPut(put, n);
  }

  lemma FlagPut(s: Sys, n: nat) returns (t: Sys)
    requires Reached(s) && Inv(s) && s.pump.pc == Bursting(70, n, true)
    ensures Reached(t) && Inv(t)
    ensures t == s.(device := s.device.Dirtied(), pump := s.pump.(pc := Bursting(70, n + 1, false)))
  {
    t := Go(s, PumpPutFlag);
  }

  /** The main loop brings the oldest byte into the data register. */
  lemma StageOne(s: Sys) returns (t: Sys)
    requires Reached(s) && Inv(s) && s.core1.Looping? && s.device.flags.irqDirty && s.device.CanStage()
    requires s.device.tx == [] && !s.device.flags.hostCtsDeasserted && !s.device.flags.txWritePending
    ensures Reached(t) && Inv(t)
    ensures t == s.(device := t.device) && t.device.rx == s.device.rx[1..] && t.device.tx == s.device.tx
    ensures t.device.flags == s.device.flags.(irqDirty := false)
    ensures t.device.lines.receiveBufferFull && t.device.Rdrf() && t.device.Tdre()
  {
    var polled := Go(s, PollInterrupt);
    t := Go(polled, Recompute);
    StatusBits(t.device);
  }

  /** The guest takes the byte into its ring, which has room for more. */
  lemma TakeOne(s: Sys) returns (t: Sys)
    requires Reached(s) && Inv(s) && s.cpu.Foreground? && s.device.Rdrf() && !s.port.rxFull
    requires |s.port.RxRing()| < RING_SIZE - 2
    ensures Reached(t) && Inv(t)
    ensures t == s.(device := s.device.RxReadFastPath(), rxReads := t.rxReads, port := t.port)
    ensures |t.port.RxRing()| == |s.port.RxRing()| + 1 && t.port == s.port.StoreRx(s.device.reg.rxData)
  {
    var stored := StoreOne(s);
    StatusBits(stored.device);
    t := Go(stored, CheckMore);
  }

  lemma StoreOne(s: Sys) returns (t: Sys)
    requires Reached(s) && Inv(s) && s.cpu.Foreground? && s.device.Rdrf() && !s.port.rxFull
    requires |s.port.RxRing()| < RING_SIZE - 2
    ensures Reached(t) && Inv(t)
    ensures t == s.(port := s.port.StoreRx(s.device.reg.rxData), cpu := RxMore).ReadData()
    ensures |t.port.RxRing()| == |s.port.RxRing()| + 1
  {
    StoreRxAppends(s.port, s.device.reg.rxData);
    var entered := Go(s, EnterIsr);
    assert entered == s.(cpu := RxCheck);
    t := Go(entered, CheckSlot);
  }

  lemma {:induction false} Receive(n: nat) returns (s: Sys)
    requires n <= RING_SIZE - 2
    ensures Received(s, n)
    decreases n
  {
    if n == 0 {
      s := BurstBegins();
    } else {
      var before := Receive(n - 1);
      var put, b := PutOne(before, n - 1);
      var staged := StageOne(put);
      s := TakeOne(staged);
    }
  }

  /** The last slot of the guest's ring is about to be filled, and another byte is behind it. */
  lemma LastSlotIsNext() returns (s: Sys)
    ensures Reached(s) && Inv(s) && Silent(s) && s.cpu.Foreground? && s.core1.Looping? && s.ring == []
    ensures !s.port.rxFull && |s.port.RxRing()| == RING_SIZE - 2
    ensures s.device.Rdrf() && s.device.Tdre() && s.device.rx != []
  {
    var received := Receive(RING_SIZE - 2);
    var put, b := PutOne(received, RING_SIZE - 2);
    var staged := StageOne(put);
    var c;
    s, c := PutOne(staged, RING_SIZE - 1);
  }

  /** The guest switches RTS off before it reads the byte for the last slot. */
  lemma SwitchOff(s: Sys) returns (t: Sys)
    requires Reached(s) && Inv(s) && s.cpu.Foreground? && s.ring == [] && s.device.Rdrf()
    requires !s.port.rxFull && |s.port.RxRing()| == RING_SIZE - 2
    ensures Reached(t) && Inv(t)
    ensures t == s.(port := s.port.(rxFull := true), cpu := RxLastRead).StoreControl(IQ_RTSONLY)
  {
    StoreRxAppends(s.port, s.device.reg.rxData);
    var entered := Go(s, EnterIsr);
    assert entered == s.(cpu := RxCheck);
    t := Go(entered, CheckSlot);
  }

  lemma ReadTheLast(s: Sys) returns (t: Sys)
    requires Reached(s) && Inv(s) && s.cpu.RxLastRead?
    ensures Reached(t) && Inv(t)
    ensures t == s.(device := s.device.RxReadFastPath(), rxReads := t.rxReads, cpu := Foreground,
                    port := s.port.StoreRx(s.device.reg.rxData))
    ensures |t.port.RxRing()| == RING_SIZE - 1
  {
    StoreRxAppends(s.port, s.device.reg.rxData);
    t := Go(s, ReadLast);
  }

  lemma ReadKeepsTdre(d: Device)
    requires Published(d) && d.Tdre()
    ensures d.RxReadFastPath().Tdre() && !d.RxReadFastPath().flags.txWritePending
  {
    StatusBits(d);
    SyncPublishes(d.(lines := d.lines.(receiveBufferFull := false, assertReceiveIrq := false)).Dirtied());
    StatusBits(d.RxReadFastPath());
  }

  /** The guest's ring is full, its flag set, and a byte waits in the receive queue. */
  lemma RingFills() returns (s: Sys)
    ensures Reached(s) && Inv(s) && Silent(s) && s.cpu.Foreground? && s.core1.Looping?
    ensures s.port.rxFull && |s.port.RxRing()| == RING_SIZE - 1 && s.device.rx != [] && s.device.Tdre()
    ensures |s.ring| < RING_ROOM
  {
    var last := LastSlotIsNext();
    var switched := SwitchOff(last);
    s := ReadTheLast(switched);
    ReadKeepsTdre(switched.device);
  }

  /** The late store does lose a byte: this state is reachable, and the steps behind the store are those of
      the model. */
  lemma ByteIsLostByLateStore() returns (u: Sys, lost: byte, t: Sys)
    ensures Reachable(u) && Inv(u) && u.cpu.Foreground? && u.port.rxFull
    ensures t.WellFormed() && t.cpu.Foreground? && t.hist == u.hist && t.port.RxRing() == u.port.RxRing()
    ensures u.device.rx == [lost] + t.device.rx && InRegister(t) == [] && !RxConserved(t)
  {
    u := RingFills();
    lost, t := LateStoreLosesByte(u);
    var run :| Leads(Initial(), run, u) && NeverFull(Initial(), run);
  }

  /** OUTCH with a full receive ring comes to its polling loop. */
  lemma Called(b: byte) returns (u: Sys)
    ensures Reached(u) && Inv(u) && u.cpu.DrainTest? && u.port.rxFull && u.device.Tdre()
    ensures u.hist.outched == [b] && u.hist.txWritten == [] && u.port.TxRing() == [b]
  {
    var full := RingFills();
    EnqueueAppends(full.port, b);
    u := Go(full, CallOutch(b));
  }

  /** It has polled, has seen TDRE set and is about to store. */
  lemma Polled(b: byte) returns (u: Sys)
    ensures Reached(u) && Inv(u) && u.cpu.DrainStore? && u.port.rxFull && u.device.Tdre()
    ensures u.hist.outched == [b] && u.hist.txWritten == [] && u.port.txBuf[u.port.txPou] == b
  {
    var called := Called(b);
    var compared := Go(called, DrainCompare);
    assert compared == called.(cpu := DrainWait);
    u := Go(compared, DrainPoll);
    assert u == called.(cpu := DrainStore) && called.port.TxRing()[0] == called.port.txBuf[called.port.txPou];
  }

  /** A byte is sent twice: the interrupt of the other port comes in this state, and then OUTCH makes its store,
      with its stale index. */
  lemma ByteIsSentTwice(b: byte) returns (u: Sys, t: Sys)
    ensures Reachable(u) && Inv(u) && u.cpu.DrainStore? && !u.device.Rdrf() && u.port.txPou != u.port.txPin
    ensures Handler(u).WellFormed() && t == StaleStore(Handler(u), u.port.txPou)
    ensures t.hist.outched == [b] && t.hist.txWritten == [b, b]
  {
    u := Polled(b);
    HandlerSendsIff(u);
    var run :| Leads(Initial(), run, u) && NeverFull(Initial(), run);
    t := StaleStore(Handler(u), u.port.txPou);
    assert Leads(Handler(u), [], Handler(u));
    InterruptedPollingSendsTwiceIff(u, [], Handler(u));
  }

  /** And a status byte goes stale: the main loop has a full data register in a reachable state, and composes
      the byte from it. */
  lemma StatusGoesStale() returns (u: Sys)
    ensures Reachable(u) && u.cpu.Foreground? && u.device.Rdrf() && u.device.reg.status == u.device.reg.cachedStatus
    ensures !Published(InterruptedSync(u.device, Composing(true, true)))
  {
    u := LastSlotIsNext();
    StatusBits(u.device);
    InterruptedSyncIsRightIff(u.device, Composing(true, true));
    var run :| Leads(Initial(), run, u) && NeverFull(Initial(), run);
  }
}
