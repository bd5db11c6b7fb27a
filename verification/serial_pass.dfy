/** The pump steps of the serial path, when nothing comes between them, are one call of the pump. */
module SerialPasses {
  import opened Bytes
  import opened SpscQueues
  import opened PumpPasses
  import opened Mc6850Spec
  import opened SerialPath
  import opened SerialInvariant
  import opened SerialTheorems

  ghost function EndsOf(d: Device, p: Pump): Ends
    requires p.WellFormed()
  {
    Ends(d.rx, d.tx, d.flags.rtsDeasserted, d.flags.hostCtsDeasserted, p.RxRest(), p.TxRest())
  }

  /** The part of a pass that is done when the pump stands at `pc`. */
  ghost predicate Done(pc: PumpPc, before: Ends, now: Ends, suppress: bool, read: seq<byte>, written: seq<byte>)
  {
    match pc
    case PumpIdle => Passed(before, now, suppress, read, written)
    case Filling => now == before && read == written == [] && !before.rtsDeasserted && !suppress
    case Bursting(amount, done, flagDue) =>
      var ahead := amount - done - if flagDue then 1 else 0;
      && now == before.(rx := now.rx, rxPending := now.rxPending)
      && now.rx + now.rxPending == before.rx + before.rxPending + read
      && written == [] && !before.rtsDeasserted && !suppress
      && ahead <= |now.rxPending| && |now.rx| + ahead < CAPACITY
      && (ahead == |now.rxPending| || |now.rx| + ahead == CAPACITY - 1)
    case Collecting =>
      PassedIn(before, now, suppress, read) && written == before.txPending == [] && now.txPending + now.tx == before.tx
    case WritingUsb => PassedIn(before, now, suppress, read) && written == [] && PassedOut(before, now, written)
    case FeedingCts => PassedIn(before, now, suppress, read) && PassedOut(before, now, written)
    case CtsFlagDue => Passed(before, now, suppress, read, written)
  }

  /** ... in a pass that began when the device and the buffers were `before` and the history was `h`. */
  ghost predicate DoneSince(before: Ends, h: History, s: Sys, suppress: bool)
  {
    && s.WellFormed() && |before.rx| < CAPACITY && h.usbIn <= s.hist.usbIn && h.usbOut <= s.hist.usbOut
    && Done(s.pump.pc, before, EndsOf(s.device, s.pump), suppress, s.hist.usbIn[|h.usbIn|..],
            s.hist.usbOut[|h.usbOut|..])
  }

  lemma Associates(a: seq<byte>, b: seq<byte>, c: seq<byte>)
    ensures a + (b + c) == a + b + c
  {
  }

  lemma FilledAmount(p: Pump, usb: seq<byte>, level: nat)
    requires p.WellFormed() && p.pc.Filling? && |usb| <= USB_BUFFER_SIZE && level < CAPACITY
    ensures var q := Filled(p, usb, level);
      q.WellFormed() && q.pc == Bursting(Min(CAPACITY - 1 - level, |q.RxRest()|), 0, false)
  {
  }

  lemma FillDoes(d: Device, p: Pump, usb: seq<byte>, before: Ends, suppress: bool)
    requires p.WellFormed() && p.pc.Filling? && |usb| <= USB_BUFFER_SIZE && |d.rx| < CAPACITY
    requires Done(Filling, before, EndsOf(d, p), suppress, [], [])
    ensures var q := Filled(p, usb, |d.rx|);
      && q.WellFormed()
      && Done(q.pc, before, EndsOf(d, q), suppress, if p.rxCount == 0 then usb else [], [])
  {
    FilledReads(p, usb, |d.rx|);
    FilledAmount(p, usb, |d.rx|);
    Associates(d.rx, p.RxRest(), if p.rxCount == 0 then usb else []);
  }

  lemma PutDoes(rx: seq<byte>, p: Pump, before: Ends, read: seq<byte>)
    requires p.WellFormed() && p.pc.Bursting? && !p.pc.flagDue && p.pc.done < p.pc.amount
    requires rx + p.RxRest() == before.rx + before.rxPending + read
    ensures var q, b := p.(pc := p.pc.(flagDue := true)), p.rxBuf[p.rxIndex + p.pc.done];
      && q.WellFormed() && rx + [b] + q.RxRest() == before.rx + before.rxPending + read
      && |q.RxRest()| == |p.RxRest()| - 1 && q.TxRest() == p.TxRest()
  {
    var q, b := p.(pc := p.pc.(flagDue := true)), p.rxBuf[p.rxIndex + p.pc.done];
    assert p.RxRest() == [b] + q.RxRest();
    assert rx + [b] + q.RxRest() == rx + ([b] + q.RxRest());
  }

  lemma UsbAccepts(before: Ends, now: Ends, out: seq<byte>, rest: seq<byte>)
    requires PassedOut(before, now, []) && now.txPending == out + rest
    ensures PassedOut(before, now.(txPending := rest), out)
  {
    assert [] + now.txPending == now.txPending;
  }

  lemma WriteDoes(d: Device, p: Pump, n: nat, before: Ends, suppress: bool, read: seq<byte>)
    requires p.WellFormed() && p.pc.WritingUsb? && p.txIndex + n <= p.txCount
    requires Done(WritingUsb, before, EndsOf(d, p), suppress, read, [])
    ensures WroteUsb(p, n).WellFormed()
    ensures Done(FeedingCts, before, EndsOf(d, WroteUsb(p, n)), suppress, read, p.txBuf[p.txIndex..p.txIndex + n])
  {
    UsbWriteSplits(p, n);
    var q := WroteUsb(p, n);
    UsbAccepts(before, EndsOf(d, p), p.txBuf[p.txIndex..p.txIndex + n], q.TxRest());
    assert EndsOf(d, q) == EndsOf(d, p).(txPending := q.TxRest());
  }

  lemma NothingPassed(e: Ends, suppress: bool)
    ensures e.rtsDeasserted || suppress ==> PassedIn(e, e, suppress, [])
    ensures e.txPending != [] ==> PassedOut(e, e, [])
  {
    assert e.rx + e.rxPending + [] == e.rx + e.rxPending;
    assert [] + e.txPending + e.tx == e.txPending + e.tx;
  }

  /** The end of a burst: the receive half is done, and the transmit half starts as the buffer wants. */
  lemma BurstEndDoes(d: Device, p: Pump, before: Ends, suppress: bool, read: seq<byte>,
                     written: seq<byte>)
    requires p.WellFormed() && p.pc.Bursting? && !p.pc.flagDue && p.pc.done == p.pc.amount
    requires Done(p.pc, before, EndsOf(d, p), suppress, read, written)
    ensures var index := p.rxIndex + p.pc.amount;
      var q := AfterRx(p.(rxIndex := index, rxCount := if index >= p.rxCount then 0 else p.rxCount));
      q.WellFormed() && Done(q.pc, before, EndsOf(d, q), suppress, read, written)
  {
    var index := p.rxIndex + p.pc.amount;
    var q := AfterRx(p.(rxIndex := index, rxCount := if index >= p.rxCount then 0 else p.rxCount));
    assert q.RxRest() == p.RxRest() && q.TxRest() == p.TxRest() && EndsOf(d, q) == EndsOf(d, p);
    NothingPassed(before, suppress);
    assert before.txPending == [] ==> before.txPending + before.tx == before.tx;
    assert p.txCount == 0 <==> p.TxRest() == [];
  }

  lemma CollectEndDoes(d: Device, p: Pump, before: Ends, suppress: bool, read: seq<byte>,
                     written: seq<byte>)
    requires p.WellFormed() && p.pc.Collecting? && (d.tx == [] || p.txCount == USB_BUFFER_SIZE)
    requires Done(Collecting, before, EndsOf(d, p), suppress, read, written)
    ensures var q := p.(pc := WritingUsb, txIndex := 0);
      q.WellFormed() && Done(WritingUsb, before, EndsOf(d, q), suppress, read, written)
  {
    var q := p.(pc := WritingUsb, txIndex := 0);
    assert q.RxRest() == p.RxRest() && q.TxRest() == p.TxRest() && EndsOf(d, q) == EndsOf(d, p);
    assert [] + p.TxRest() + d.tx == p.TxRest() + d.tx;
    assert before.txPending + before.tx == before.tx;
    assert |p.TxRest()| == p.txCount;
  }

  lemma Later(h: seq<byte>, now: seq<byte>, more: seq<byte>)
    requires h <= now
    ensures h <= now + more && (now + more)[|h|..] == now[|h|..] + more
  {
  }

  lemma PumpFillDoes(before: Ends, h: History, s: Sys, suppress: bool, a: Action)
    requires DoneSince(before, h, s, suppress) && a.PumpFill? && Enabled(s, a)
    ensures DoneSince(before, h, Apply(s, a), suppress)
  {
    FillDoes(s.device, s.pump, a.usb, before, suppress);
    Later(h.usbIn, s.hist.usbIn, if s.pump.rxCount == 0 then a.usb else []);
  }

  lemma PumpPutDoes(before: Ends, h: History, s: Sys, suppress: bool, a: Action)
    requires DoneSince(before, h, s, suppress) && a.PumpPut? && Enabled(s, a)
    ensures DoneSince(before, h, Apply(s, a), suppress)
  {
    PutDoes(s.device.rx, s.pump, before, s.hist.usbIn[|h.usbIn|..]);
  }

  lemma PumpPutFlagDoes(before: Ends, h: History, s: Sys, suppress: bool, a: Action)
    requires DoneSince(before, h, s, suppress) && a.PumpPutFlag? && Enabled(s, a)
    ensures DoneSince(before, h, Apply(s, a), suppress)
  {
  }

  lemma PumpOnly(before: Ends, h: History, s: Sys, suppress: bool, p: Pump)
    requires DoneSince(before, h, s, suppress) && p.WellFormed()
    requires Done(p.pc, before, EndsOf(s.device, p), suppress, s.hist.usbIn[|h.usbIn|..], s.hist.usbOut[|h.usbOut|..])
    ensures DoneSince(before, h, s.(pump := p), suppress)
  {
  }

  lemma PumpBurstEndDoes(before: Ends, h: History, s: Sys, suppress: bool, a: Action)
    requires DoneSince(before, h, s, suppress) && a.PumpBurstEnd? && Enabled(s, a)
    ensures DoneSince(before, h, Apply(s, a), suppress)
  {
    var index := s.pump.rxIndex + s.pump.pc.amount;
    var q := AfterRx(s.pump.(rxIndex := index, rxCount := if index >= s.pump.rxCount then 0 else s.pump.rxCount));
    BurstEndDoes(s.device, s.pump, before, suppress, s.hist.usbIn[|h.usbIn|..], s.hist.usbOut[|h.usbOut|..]);
    PumpOnly(before, h, s, suppress, q);
  }

  lemma PumpCollectDoes(before: Ends, h: History, s: Sys, suppress: bool, a: Action)
    requires DoneSince(before, h, s, suppress) && a.PumpCollect? && Enabled(s, a)
    ensures DoneSince(before, h, Apply(s, a), suppress)
  {
    CollectTakes(s.device.tx, s.pump);
  }

  lemma PumpCollectEndDoes(before: Ends, h: History, s: Sys, suppress: bool, a: Action)
    requires DoneSince(before, h, s, suppress) && a.PumpCollectEnd? && Enabled(s, a)
    ensures DoneSince(before, h, Apply(s, a), suppress)
  {
    CollectEndDoes(s.device, s.pump, before, suppress, s.hist.usbIn[|h.usbIn|..],
                   s.hist.usbOut[|h.usbOut|..]);
  }

  lemma PumpUsbWriteDoes(before: Ends, h: History, s: Sys, suppress: bool, a: Action)
    requires DoneSince(before, h, s, suppress) && a.PumpUsbWrite? && Enabled(s, a)
    ensures DoneSince(before, h, Apply(s, a), suppress)
  {
    WriteDoes(s.device, s.pump, a.written, before, suppress, s.hist.usbIn[|h.usbIn|..]);
    Later(h.usbOut, s.hist.usbOut, s.pump.txBuf[s.pump.txIndex..s.pump.txIndex + a.written]);
  }

  lemma CtsDoes(d: Device, p: Pump, pc: PumpPc, before: Ends, suppress: bool, read: seq<byte>, written: seq<byte>)
    requires p.WellFormed() && p.pc.FeedingCts? && (pc.PumpIdle? || pc.CtsFlagDue?)
    requires Done(FeedingCts, before, EndsOf(d, p), suppress, read, written)
    ensures var e := d.(flags := d.flags.(hostCtsDeasserted := p.txCount > 0 && p.txIndex < p.txCount));
      var q := p.(pc := pc);
      q.WellFormed() && Done(pc, before, EndsOf(e, q), suppress, read, written)
  {
    var cts, q := p.txCount > 0 && p.txIndex < p.txCount, p.(pc := pc);
    assert cts <==> p.TxRest() != [];
    assert q.RxRest() == p.RxRest() && q.TxRest() == p.TxRest();
    Reported(before, EndsOf(d, p), suppress, read, written);
  }

  lemma Reported(before: Ends, now: Ends, suppress: bool, read: seq<byte>, written: seq<byte>)
    requires PassedIn(before, now, suppress, read) && PassedOut(before, now, written)
    ensures Passed(before, now.(hostCtsDeasserted := now.txPending != []), suppress, read, written)
  {
  }

  lemma PumpCtsDoes(before: Ends, h: History, s: Sys, suppress: bool, a: Action)
    requires DoneSince(before, h, s, suppress) && a.PumpCts? && Enabled(s, a)
    ensures DoneSince(before, h, Apply(s, a), suppress)
  {
    CtsDoes(s.device, s.pump, Apply(s, a).pump.pc, before, suppress, s.hist.usbIn[|h.usbIn|..],
            s.hist.usbOut[|h.usbOut|..]);
    assert s.device.flags.(hostCtsDeasserted := s.device.flags.hostCtsDeasserted) == s.device.flags;
  }

  lemma PumpCtsFlagDoes(before: Ends, h: History, s: Sys, suppress: bool, a: Action)
    requires DoneSince(before, h, s, suppress) && a.PumpCtsFlag? && Enabled(s, a)
    ensures DoneSince(before, h, Apply(s, a), suppress)
  {
  }

  lemma StepDoes(before: Ends, h: History, s: Sys, suppress: bool, a: Action)
    requires DoneSince(before, h, s, suppress) && OfPump(a) && !a.PumpStart? && Enabled(s, a)
    ensures DoneSince(before, h, Apply(s, a), suppress)
  {
    match a
    case PumpFill(_) => PumpFillDoes(before, h, s, suppress, a);
    case PumpPut => PumpPutDoes(before, h, s, suppress, a);
    case PumpPutFlag => PumpPutFlagDoes(before, h, s, suppress, a);
    case PumpBurstEnd => PumpBurstEndDoes(before, h, s, suppress, a);
    case PumpCollect => PumpCollectDoes(before, h, s, suppress, a);
    case PumpCollectEnd => PumpCollectEndDoes(before, h, s, suppress, a);
    case PumpUsbWrite(_) => PumpUsbWriteDoes(before, h, s, suppress, a);
    case PumpCts => PumpCtsDoes(before, h, s, suppress, a);
    case _ => PumpCtsFlagDoes(before, h, s, suppress, a);
  }

  lemma {:induction false} RunDoes(before: Ends, h: History, s: Sys, suppress: bool, run: seq<Action>, t: Sys)
    requires DoneSince(before, h, s, suppress) && Leads(s, run, t)
    requires forall a :: a in run ==> OfPump(a) && !a.PumpStart?
    ensures DoneSince(before, h, t, suppress)
    decreases |run|
  {
    if run != [] {
      assert run[0] in run;
      StepDoes(before, h, s, suppress, run[0]);
      RunDoes(before, h, Apply(s, run[0]), suppress, run[1..], t);
    }
  }

  lemma StartDoes(s: Sys, suppress: bool)
    requires s.WellFormed() && s.pump.pc.PumpIdle? && |s.device.rx| < CAPACITY
    ensures DoneSince(EndsOf(s.device, s.pump), s.hist, Apply(s, PumpStart(suppress)), suppress)
  {
    var before, p := EndsOf(s.device, s.pump), Apply(s, PumpStart(suppress)).pump;
    NothingPassed(before, suppress);
    assert EndsOf(s.device, p) == before;
    assert s.pump.txCount == 0 <==> before.txPending == [];
    assert before.txPending == [] ==> before.txPending + before.tx == before.tx;
  }

  /** When only the pump moves between the start of a pass and its end, the pass is a call of the pump. */
  lemma PassIsACall(s: Sys, suppress: bool, run: seq<Action>, t: Sys)
    requires Reachable(s) && s.WellFormed() && s.pump.pc.PumpIdle?
    requires forall a :: a in run ==> OfPump(a) && !a.PumpStart?
    requires Leads(Apply(s, PumpStart(suppress)), run, t) && t.pump.pc.PumpIdle?
    ensures t.WellFormed() && s.hist.usbIn <= t.hist.usbIn && s.hist.usbOut <= t.hist.usbOut
    ensures Passed(EndsOf(s.device, s.pump), EndsOf(t.device, t.pump), suppress,
                   t.hist.usbIn[|s.hist.usbIn|..], t.hist.usbOut[|s.hist.usbOut|..])
  {
    ReachableHolds(s);
    StartDoes(s, suppress);
    RunDoes(EndsOf(s.device, s.pump), s.hist, Apply(s, PumpStart(suppress)), suppress, run, t);
  }
}
