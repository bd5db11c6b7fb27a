/** Three places where an interrupt handler in the middle of a routine breaks what the routine relies on. The
    rest of the model takes the first two routines as single steps and leaves the third uninterrupted. */
module Races {
  import opened Bytes
  import opened Ring
  import opened SpscQueues
  import opened Mc6850Spec
  import opened IoDriver
  import opened SerialPath
  import opened SerialInvariant
  import opened SerialTheorems

  // ----- sync_status -----

  /** Where the guest's read lands in `sync_status`: while the byte is put together, with the two variables
      that the read changes loaded before it or not; behind the comparison; or between the two stores. */
  datatype Landing = Composing(fullLoaded: bool, irqLoaded: bool) | Compared | HalfStored

  /** The status byte with some of the variables as the read handler leaves them. */
  function ComposedByte(d: Device, at: Landing): byte
  {
    if !at.Composing? then d.StatusByte()
    else
      d.(lines := d.lines.(receiveBufferFull := at.fullLoaded && d.lines.receiveBufferFull,
                           assertReceiveIrq := at.irqLoaded && d.lines.assertReceiveIrq)).StatusByte()
  }

  function StoreCached(d: Device, sr: byte): Device { d.(reg := d.reg.(cachedStatus := sr)) }

  function StoreStatus(d: Device, sr: byte): Device { d.(reg := d.reg.(status := sr)) }

  /** `sync_status` on the device `d` with the read handler running in the middle. */
  function InterruptedSync(d: Device, at: Landing): Device
  {
    var sr := ComposedByte(d, at);
    match at
    case Composing(_, _) =>
      var h := d.RxReadFastPath();
      if sr != h.reg.cachedStatus then StoreStatus(StoreCached(h, sr), sr) else h
    case Compared =>
      if sr != d.reg.cachedStatus then StoreStatus(StoreCached(d.RxReadFastPath(), sr), sr) else d.RxReadFastPath()
    case HalfStored =>
      if sr != d.reg.cachedStatus then StoreStatus(StoreCached(d, sr).RxReadFastPath(), sr) else d.RxReadFastPath()
  }

  /** The handler clears something that the status byte shows. */
  predicate ClearsFull(d: Device) { d.lines.receiveBufferFull }

  predicate ClearsIrq(d: Device) { d.lines.assertReceiveIrq && !d.lines.assertTransmitIrq }

  /** `sync_status` may not be interrupted by the guest's read: the published status byte is right if and
      only if nothing that shows was loaded before the handler cleared it, or, with the byte complete, if it
      was the published one already. */
  lemma InterruptedSyncIsRightIff(d: Device, at: Landing)
    requires d.reg.status == d.reg.cachedStatus
    ensures Published(InterruptedSync(d, at)) <==>
      match at
      case Composing(fullLoaded, irqLoaded) => !(fullLoaded && ClearsFull(d)) && !(irqLoaded && ClearsIrq(d))
      case _ => (!ClearsFull(d) && !ClearsIrq(d)) || d.reg.cachedStatus == d.StatusByte()
  {
    SyncPublishes(d);
  }

  // ----- the late store of OUTCH -----

  /** OUTCH looks at the driver's flag (chunk/io.asm:202) and stores IQ_RXTX later (chunk/io.asm:205). If the
      flag has been set between the two, the store switches RTS on under a full ring; and only then. */
  lemma LateStoreBreaksFlowControlIff(u: Sys)
    requires Inv(u) && u.cpu.Foreground?
    ensures var v := u.StoreControl(IQ_RXTX);
      FlowControl(v.device.flags.rtsDeasserted, v.device.lines.receiveBufferFull, v.port, v.cpu) <==> !u.port.rxFull
  {
  }

  /** With RTS on again, the main loop stages the next byte, ring full or not. */
  lemma StagesNext(u: Sys) returns (staged: Sys)
    requires Inv(u) && u.cpu.Foreground? && u.core1.Looping? && u.port.rxFull && u.device.rx != []
    ensures var polled := Apply(u.StoreControl(IQ_RXTX), PollInterrupt);
      polled.core1.Recomputing? && staged == Apply(polled, Recompute)
    ensures staged.device.rx == u.device.rx[1..] && staged.device.Rdrf()
  {
    var polled := Apply(u.StoreControl(IQ_RXTX), PollInterrupt);
    staged := Apply(polled, Recompute);
    SyncPublishes(polled.device.Refreshed().Staged().Asserted());
    StatusBits(staged.device);
  }

  lemma FindsFullRing(s: Sys)
    requires s.WellFormed() && s.cpu.Foreground? && s.device.Rdrf() && s.port.NextRxSlot() == RingFull
    ensures var entered := Apply(s, EnterIsr);
      && entered == s.(cpu := RxCheck) && Enabled(entered, CheckSlot)
      && Apply(entered, CheckSlot)
      == s.(port := s.port.(rxFull := true), cpu := RxLostRead).StoreControl(IQ_RTSONLY)
  {
  }

  /** A byte that the interrupt routine meets with a full ring is discarded. */
  lemma MeetsFullRing(s: Sys) returns (t: Sys)
    requires s.WellFormed() && s.cpu.Foreground? && s.device.Rdrf() && s.port.NextRxSlot() == RingFull
    ensures var checked := s.(port := s.port.(rxFull := true), cpu := RxLostRead).StoreControl(IQ_RTSONLY);
      && Apply(s.(cpu := RxCheck), CheckSlot) == checked && Apply(s, EnterIsr) == s.(cpu := RxCheck)
      && checked.WellFormed() && t == Apply(checked, ReadLost)
    ensures t.WellFormed() && t.cpu.Foreground? && t.hist == s.hist && t.pump == s.pump
    ensures t.port.RxRing() == s.port.RxRing() && InRegister(t) == [] && t.device.rx == s.device.rx
    ensures t.port.errno == 0xBE
  {
    FindsFullRing(s);
    t := Apply(s.(port := s.port.(rxFull := true), cpu := RxLostRead).StoreControl(IQ_RTSONLY), ReadLost);
  }

  lemma CountsDiffer(all: seq<byte>, a: seq<byte>, b: seq<byte>, c: seq<byte>, c': seq<byte>, d: seq<byte>)
    requires all == a + b + [] + c + d && |c'| < |c|
    ensures all != a + b + [] + c' + d
  {
    assert |a + b + [] + c' + d| < |all|;
  }

  lemma FullRingHasNoSlot(p: Port)
    requires p.WellFormed() && |p.RxRing()| == RING_SIZE - 1
    ensures p.NextRxSlot() == RingFull
  {
  }

  lemma StagedIsDiscarded(u: Sys) returns (lost: byte, t: Sys)
    requires Inv(u) && u.cpu.Foreground? && u.core1.Looping?
    requires u.port.rxFull && |u.port.RxRing()| == RING_SIZE - 1 && u.device.rx != []
    ensures t.WellFormed() && t.cpu.Foreground? && lost == u.device.rx[0]
    ensures t.hist == u.hist && t.port.RxRing() == u.port.RxRing() && InRegister(t) == []
    ensures t.pump == u.pump && t.device.rx == u.device.rx[1..] && t.port.errno == 0xBE
  {
    lost := u.device.rx[0];
    FullRingHasNoSlot(u.port);
    var staged := StagesNext(u);
    t := MeetsFullRing(staged);
  }

  /** So a byte is lost, and only the error code 0xBE tells. */
  lemma LateStoreLosesByte(u: Sys) returns (lost: byte, t: Sys)
    requires Inv(u) && u.cpu.Foreground? && u.core1.Looping?
    requires u.port.rxFull && |u.port.RxRing()| == RING_SIZE - 1 && u.device.rx != []
    ensures t.WellFormed() && t.cpu.Foreground? && lost == u.device.rx[0]
    ensures t.hist == u.hist && t.port.RxRing() == u.port.RxRing() && InRegister(u) == InRegister(t) == []
    ensures t.pump == u.pump && u.device.rx == [lost] + t.device.rx && !RxConserved(t) && t.port.errno == 0xBE
  {
    lost, t := StagedIsDiscarded(u);
    CountsDiffer(u.hist.usbIn, u.hist.inched, u.port.RxRing(), u.device.rx, t.device.rx, u.pump.RxRest());
  }

  // ----- the polling loop of OUTCH -----

  /** OUTCH in its polling loop stores the byte at the index `b` that it loaded at O@D, and advances from
      there (chunk/io.asm:213-217). */
  function StaleStore(x: Sys, b: nat): Sys
    requires x.WellFormed() && b < RING_SIZE
  {
    x.(port := x.port.(txPou := Next(RING_SIZE, b)), cpu := DrainTest).StoreData(x.port.txBuf[b])
  }

  /** It accounts for just the bytes from that index on. */
  lemma StaleStoreSends(x: Sys, b: nat)
    requires x.WellFormed() && b < RING_SIZE && b != x.port.txPin
    ensures var t := StaleStore(x, b);
      && t.WellFormed() && t.hist.outched == x.hist.outched
      && t.hist.txWritten == x.hist.txWritten + [x.port.txBuf[b]]
      && t.hist.txWritten + t.port.TxRing() == x.hist.txWritten + Contents(x.port.txBuf, x.port.txPin, b)
  {
    var rest := Contents(x.port.txBuf, x.port.txPin, Next(RING_SIZE, b));
    assert x.hist.txWritten + [x.port.txBuf[b]] + rest == x.hist.txWritten + ([x.port.txBuf[b]] + rest);
  }

  /** So every byte that an interrupt routine has sent since O@D is sent again: the store keeps to the order if
      and only if the read index has not moved. */
  lemma StaleIndexSendsAgainIff(x: Sys, b: nat)
    requires x.WellFormed() && TxConserved(x) && b < RING_SIZE && b != x.port.txPin
    requires Level(RING_SIZE, x.port.txPin, x.port.txPou) <= Level(RING_SIZE, x.port.txPin, b)
    ensures var t, c := StaleStore(x, b), Contents(x.port.txBuf, x.port.txPin, b);
      && t.WellFormed() && |x.port.TxRing()| <= |c|
      && t.hist.txWritten + t.port.TxRing() == x.hist.txWritten + c[..|c| - |x.port.TxRing()|] + x.port.TxRing()
      && (t.hist.outched == t.hist.txWritten + t.port.TxRing() <==> b == x.port.txPou)
  {
    var c, ring := Contents(x.port.txBuf, x.port.txPin, b), x.port.TxRing();
    StaleStoreSends(x, b);
    ContentsSuffix(x.port.txBuf, x.port.txPin, b, x.port.txPou);
    SplitEnd(x.hist.txWritten, c, |ring|);
    assert |c| == |ring| <==> b == x.port.txPou;
  }

  lemma SplitEnd(before: seq<byte>, c: seq<byte>, n: nat)
    requires n <= |c|
    ensures before + c == before + c[..|c| - n] + c[|c| - n..]
    ensures before + c == before + c[|c| - n..] <==> n == |c|
  {
    assert c == c[..|c| - n] + c[|c| - n..];
    assert n == |c| ==> c[|c| - n..] == c;
  }

  /** The rest of the interrupt routine when it is about to send: TDRE is clear behind the store. */
  function SendOne(s: Sys): Sys
    requires s.WellFormed() && s.cpu.TxSend?
  {
    var sent := Apply(s, SendNext);
    if sent.cpu.TxOff? then Apply(sent, SwitchTxOff) else Apply(sent, CheckTdre)
  }

  /** The interrupt routine of this port, entered because of the other one. */
  function Handler(u: Sys): Sys
    requires u.WellFormed() && !u.device.Rdrf() && u.port.txPou != u.port.txPin
  {
    var entered := Apply(u.(cpu := Foreground), EnterIsr);
    if entered.cpu.TxSend? then SendOne(entered) else entered
  }

  lemma SendOneSends(s: Sys)
    requires Inv(s) && s.cpu.TxSend?
    ensures var h := SendOne(s);
      && Inv(h) && h.cpu.Foreground? && h.hist.outched == s.hist.outched
      && h.port == s.port.DropTx() && h.hist.txWritten == s.hist.txWritten + [s.port.txBuf[s.port.txPou]]
  {
    var sent := Apply(s, SendNext);
    StepKeeps(s, SendNext);
    assert sent.device.flags.txWritePending;
    StatusBits(sent.device);
    StepKeeps(sent, if sent.cpu.TxOff? then SwitchTxOff else CheckTdre);
  }

  lemma HandlerEnters(u: Sys)
    requires Inv(u) && (u.cpu.DrainWait? || u.cpu.DrainStore?) && u.port.rxFull
    ensures !u.device.Rdrf() && u.port.txPou != u.port.txPin && Inv(u.(cpu := Foreground))
    ensures Apply(u.(cpu := Foreground), EnterIsr) == u.(cpu := if u.device.Tdre() then TxSend else Foreground)
  {
    StatusBits(u.device);
  }

  lemma HandlerSendsIff(u: Sys)
    requires Inv(u) && (u.cpu.DrainWait? || u.cpu.DrainStore?) && u.port.rxFull
    ensures !u.device.Rdrf() && u.port.txPou != u.port.txPin
    ensures var h := Handler(u);
      && Inv(h) && h.cpu.Foreground? && h.hist.outched == u.hist.outched
      && h.port == (if u.device.Tdre() then u.port.DropTx() else u.port)
      && h.hist.txWritten == u.hist.txWritten + if u.device.Tdre() then [u.port.txBuf[u.port.txPou]] else []
  {
    HandlerEnters(u);
    if u.device.Tdre() {
      StepKeeps(u.(cpu := Foreground), EnterIsr);
      SendOneSends(u.(cpu := TxSend));
    }
  }

  predicate NotOfGuest(a: Action) { OfPump(a) || OfMainLoop(a) }

  lemma {:induction false} OthersLeavePort(s: Sys, run: seq<Action>, t: Sys)
    requires Inv(s) && Leads(s, run, t) && forall a :: a in run ==> NotOfGuest(a)
    ensures Inv(t) && t.port == s.port && t.hist.txWritten == s.hist.txWritten && t.hist.outched == s.hist.outched
    decreases |run|
  {
    if run != [] {
      assert run[0] in run;
      StepKeeps(s, run[0]);
      if OfPump(run[0]) {
        PumpLeavesGuest(s, run[0]);
      } else {
        MainLoopLeavesGuest(s, run[0]);
      }
      OthersLeavePort(Apply(s, run[0]), run[1..], t);
    }
  }

  lemma OneStep(p: Port)
    requires p.WellFormed() && p.txPou != p.txPin
    ensures Level(RING_SIZE, p.txPin, p.DropTx().txPou) == Level(RING_SIZE, p.txPin, p.txPou) - 1
    ensures p.DropTx().txPou != p.txPou
  {
  }

  lemma Twice(s: seq<byte>, b: byte)
    ensures s + [b] + [b] == s + [b, b] && s + [] == s
  {
  }

  /** An interrupt of the other port that comes while OUTCH polls (chunk/io.asm:210-213) makes OUTCH send a
      byte twice, if and only if the routine finds TDRE set; whatever the main loop and the pump do until
      OUTCH goes on. */
  lemma InterruptedPollingSendsTwiceIff(u: Sys, run: seq<Action>, x: Sys)
    requires Inv(u) && (u.cpu.DrainWait? || u.cpu.DrainStore?) && u.port.rxFull
    requires !u.device.Rdrf() && u.port.txPou != u.port.txPin && Leads(Handler(u), run, x)
    requires forall a :: a in run ==> NotOfGuest(a)
    ensures x.WellFormed()
    ensures var t, b := StaleStore(x, u.port.txPou), u.port.txBuf[u.port.txPou];
      && t.WellFormed() && t.hist.outched == u.hist.outched
      && (t.hist.outched == t.hist.txWritten + t.port.TxRing() <==> !u.device.Tdre())
      && t.hist.txWritten == u.hist.txWritten + if u.device.Tdre() then [b, b] else [b]
  {
    HandlerSendsIff(u);
    OthersLeavePort(Handler(u), run, x);
    OneStep(u.port);
    StaleStoreSends(x, u.port.txPou);
    StaleIndexSendsAgainIff(x, u.port.txPou);
    Twice(u.hist.txWritten, u.port.txBuf[u.port.txPou]);
  }
}
