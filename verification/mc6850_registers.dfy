/** The device as its two sides see it: status bits, control bits and data register by their positions in the
    byte, as include/mc6850.h lays them out and src/mc6850.cpp promises them. */
module Mc6850Registers {
  import opened Bytes
  import opened SpscQueues
  import opened Mc6850Spec

  /** Bit 0 is RDRF, bit 1 TDRE, bit 3 CTS, bit 7 IRQ; the others are 0. */
  lemma StatusByteBits(d: Device)
    ensures var s := d.StatusByte();
      && (s % 2 == 1 <==> d.lines.receiveBufferFull)
      && (s / 2 % 2 == 1 <==> d.lines.transmitBufferEmpty && !d.lines.ctsDeasserted && !d.flags.txWritePending)
      && s / 4 % 2 == 0
      && (s / 8 % 2 == 1 <==> d.lines.ctsDeasserted)
      && s / 16 % 8 == 0
      && (s / 128 == 1 <==> d.lines.assertReceiveIrq || d.lines.assertTransmitIrq)
  {
  }

  /** A control byte put together from its fields: the receive interrupt `r`, the transmitter's `t`, the word
      select `w` and the divider `c`. */
  function ControlByte(r: nat, t: nat, w: nat, c: nat): byte
    requires r < 2 && t < 4 && w < 8 && c < 4
  {
    128 * r + 32 * t + 4 * w + c
  }

  lemma FieldsOf(r: nat, t: nat, w: nat, c: nat)
    requires r < 2 && t < 4 && w < 8 && c < 4
    ensures var v := ControlByte(r, t, w, c);
      DivideSelect(v) == c && TxIrqField(v) == t && (RxIrqBit(v) <==> r == 1) && (IsMasterReset(v) <==> c == 3)
  {
    var v := ControlByte(r, t, w, c);
    Split4(v, 32 * r + 8 * t + w, c);
    Split32(v, 4 * r + t, 4 * w + c);
    Split4(4 * r + t, r, t);
    Split128(v, r, 32 * t + 4 * w + c);
  }

  lemma Split4(x: nat, q: nat, r: nat)
    requires x == 4 * q + r && r < 4
    ensures x % 4 == r
  {
  }

  lemma Split32(x: nat, q: nat, r: nat)
    requires x == 32 * q + r && r < 32
    ensures x / 32 == q
  {
  }

  lemma Split128(x: nat, q: nat, r: nat)
    requires x == 128 * q + r && r < 128
    ensures x / 128 == q
  {
  }

  /** RTS is off exactly for t = 2, from the moment of the store on. */
  lemma EarlyControlMeans(d: Device, r: nat, t: nat, w: nat, c: nat)
    requires r < 2 && t < 4 && w < 8 && c < 3
    ensures d.ControlWrittenIsr(ControlByte(r, t, w, c))
         == d.(flags := d.flags.(irqDirty := true, rtsDeasserted := t == 2))
  {
    FieldsOf(r, t, w, c);
  }

  lemma EarlyResetKeepsRts(d: Device, r: nat, t: nat, w: nat)
    requires r < 2 && t < 4 && w < 8
    ensures d.ControlWrittenIsr(ControlByte(r, t, w, 3)) == d.Dirtied()
  {
    FieldsOf(r, t, w, 3);
  }

  /** The delivered control byte: t = 1 is the transmit interrupt, r = 1 the receive interrupt, t = 3 close
      loopback, and c = 2 without it queue loopback. Nothing else changes but what a refresh publishes. */
  lemma ControlMeans(d: Device, r: nat, t: nat, w: nat, c: nat)
    requires r < 2 && t < 4 && w < 8 && c < 3 && d.reg.status == d.reg.cachedStatus
    ensures var e := d.GuestControl(ControlByte(r, t, w, c));
      && e.modes.transmitIrq == (t == 1) && e.modes.receiveIrq == (r == 1)
      && e.modes.loopbackClose == (t == 3) && e.modes.loopbackQueue == (t != 3 && c == 2)
      && e.flags == d.flags.(irqDirty := true) && e.tx == d.tx && e.rx == d.rx && e.reg.rxData == d.reg.rxData
      && e.cachedIrq == d.cachedIrq && Published(e)
      && e.lines.receiveBufferFull == d.lines.receiveBufferFull
      && (e.Tdre() <==> |d.tx| <= 800 && !d.flags.hostCtsDeasserted && !d.flags.txWritePending)
  {
    FieldsOf(r, t, w, c);
    var e := d.(modes := ModesFor(ControlByte(r, t, w, c))).Dirtied().Refreshed();
    SyncPublishes(e);
    StatusByteBits(e);
  }

  /** Any byte with both low bits set is a master reset: both queues are flushed, no mode is on, RTS is asserted,
      nothing is received, pending or asserted, only TDRE shows, and everything is to be derived again. */
  lemma MasterResetMeans(d: Device, v: byte)
    requires v % 4 == 3
    ensures var e := d.GuestControl(v);
      && e.tx == [] && e.rx == [] && e.reg.rxData == 0
      && e.reg.status == 2 && e.reg.cachedStatus == 2 && !e.Rdrf() && e.Tdre()
      && !e.modes.transmitIrq && !e.modes.receiveIrq && !e.modes.loopbackClose && !e.modes.loopbackQueue
      && e.lines.transmitBufferEmpty && !e.lines.receiveBufferFull && !e.lines.ctsDeasserted
      && !e.lines.assertTransmitIrq && !e.lines.assertReceiveIrq
      && !e.flags.rtsDeasserted && !e.flags.txWritePending && !e.flags.hostCtsDeasserted && e.flags.irqDirty
      && e.cachedIrq == d.cachedIrq && Published(e)
  {
  }

  /** Two devices, whatever they hold, cannot be told apart after it. */
  lemma ResetForgets(d: Device, d': Device, v: byte)
    requires v % 4 == 3
    ensures d.GuestControl(v) == d'.GuestControl(v).(cachedIrq := d.cachedIrq)
  {
    MasterResetMeans(d, v);
    MasterResetMeans(d', v);
  }

  /** What `has_interrupt` answers when something has changed: RDRF and the data register after staging, TDRE as
      the queue and the host allow it, and an interrupt exactly for a received byte or a free transmitter that
      the guest asked to hear of. The IRQ bit of the status says the same. */
  lemma HasInterruptMeans(d: Device)
    requires d.flags.irqDirty && d.reg.status == d.reg.cachedStatus
    ensures var e := d.HasInterrupt();
      var arrives := !d.lines.receiveBufferFull && d.rx != [] && !d.flags.rtsDeasserted;
      && (e.Rdrf() <==> d.lines.receiveBufferFull || arrives)
      && e.rx == (if arrives then d.rx[1..] else d.rx)
      && e.reg.rxData == (if arrives then d.rx[0] else d.reg.rxData)
      && (e.Tdre() <==> |d.tx| <= 800 && !d.flags.hostCtsDeasserted && !d.flags.txWritePending)
      && (e.cachedIrq == Irq <==> (d.modes.receiveIrq && e.Rdrf()) || (d.modes.transmitIrq && e.Tdre()))
      && (e.reg.status / 128 == 1 <==> e.cachedIrq == Irq)
      && (e.reg.status / 8 % 2 == 1 <==> |d.tx| > 800 || d.flags.hostCtsDeasserted)
      && e.tx == d.tx && e.modes == d.modes && e.flags == d.flags.(irqDirty := false) && Published(e)
  {
    var s := d.(flags := d.flags.(irqDirty := false)).Refreshed().Staged();
    var a := s.Asserted().(cachedIrq := if s.WantsTransmitIrq() || s.WantsReceiveIrq() then Irq else NoInterrupt);
    SyncPublishes(a);
    StatusByteBits(a);
  }

  // ----- the data register -----

  /** A store shows TDRE clear at once and leaves the rest to the delivery. */
  lemma EarlyDataMeans(d: Device)
    requires d.reg.status == d.reg.cachedStatus
    ensures var e := d.WriteReceived();
      && !e.Tdre() && e.Rdrf() == d.lines.receiveBufferFull && Published(e)
      && e == d.(flags := d.flags.(txWritePending := true, irqDirty := true), reg := e.reg)
      && e.reg.rxData == d.reg.rxData
  {
    var e := d.(flags := d.flags.(txWritePending := true, irqDirty := true));
    SyncPublishes(e);
    StatusByteBits(e);
  }

  /** A load shows RDRF clear at once, takes the receive interrupt back and has the next byte staged. */
  lemma ReadMeans(d: Device)
    requires d.reg.status == d.reg.cachedStatus
    ensures var e := d.RxReadFastPath();
      && !e.Rdrf() && e.flags == d.flags.(irqDirty := true) && Published(e)
      && (e.reg.status / 128 == 1 <==> d.lines.assertTransmitIrq)
      && e.lines == d.lines.(receiveBufferFull := false, assertReceiveIrq := false)
      && e.rx == d.rx && e.tx == d.tx && e.reg.rxData == d.reg.rxData && e.modes == d.modes
      && e.cachedIrq == d.cachedIrq
  {
    var e := d.(lines := d.lines.(receiveBufferFull := false, assertReceiveIrq := false)).Dirtied();
    SyncPublishes(e);
    StatusByteBits(e);
  }

  /** The deferred part of a load stages the next byte, unless RTS is off or a byte has been staged already. */
  lemma ReceiveMeans(d: Device)
    requires d.reg.status == d.reg.cachedStatus
    ensures var e := d.GuestReceive();
      var arrives := !d.flags.rtsDeasserted && !d.lines.receiveBufferFull && d.rx != [];
      && e.rx == (if arrives then d.rx[1..] else d.rx)
      && e.reg.rxData == (if arrives then d.rx[0] else d.reg.rxData)
      && (e.Rdrf() <==> !d.flags.rtsDeasserted && (d.lines.receiveBufferFull || d.rx != []))
      && e.flags == d.flags.(irqDirty := true) && e.tx == d.tx && e.modes == d.modes && Published(e)
  {
    var cleared := d.(lines := d.lines.(receiveBufferFull := false));
    var e := (if d.flags.rtsDeasserted then cleared else d.Staged()).Dirtied();
    SyncPublishes(e);
    StatusByteBits(e);
  }

  /** The delivery of a stored byte, by the mode that the guest selected: into the transmit queue unless it is
      full; in queue loopback into the receive queue unless it is full; in close loopback into the data register,
      with RDRF, and with the IRQ bit if the receive interrupt is on. */
  lemma TransmitMeans(d: Device, b: byte)
    requires d.reg.status == d.reg.cachedStatus && !(d.modes.loopbackClose && d.modes.loopbackQueue)
    ensures var e, m := d.GuestTransmit(b), d.modes;
      && e.tx == (if !m.loopbackClose && !m.loopbackQueue && |d.tx| < 1023 then d.tx + [b] else d.tx)
      && e.rx == (if m.loopbackQueue && |d.rx| < 1023 then d.rx + [b] else d.rx)
      && e.reg.rxData == (if m.loopbackClose then b else d.reg.rxData)
      && (e.Rdrf() <==> d.lines.receiveBufferFull || m.loopbackClose)
      && (m.loopbackClose && m.receiveIrq ==> e.reg.status / 128 == 1)
      && (m.loopbackClose && !m.receiveIrq && !d.lines.assertTransmitIrq ==> e.reg.status / 128 == 0)
      && (e.Tdre() <==> |e.tx| <= 800 && !d.flags.hostCtsDeasserted)
      && e.flags == d.flags.(txWritePending := false, irqDirty := true)
      && e.modes == m && e.cachedIrq == d.cachedIrq && Published(e)
  {
    var e := d.(flags := d.flags.(txWritePending := false)).Routed(b).Dirtied().Refreshed();
    SyncPublishes(e);
    StatusByteBits(e);
  }

  /** A burst of stores in queue loopback, each delivered, comes back through the receive queue in order. */
  function SendAll(d: Device, bs: seq<byte>): Device
    decreases |bs|
  {
    if bs == [] then d else SendAll(d.WriteReceived().GuestTransmit(bs[0]), bs[1..])
  }

  lemma {:induction false} QueueLoopbackReturns(d: Device, bs: seq<byte>)
    requires d.modes.loopbackQueue && !d.modes.loopbackClose && |d.rx| + |bs| < 1024
    ensures var e := SendAll(d, bs); e.rx == d.rx + bs && e.tx == d.tx && e.modes == d.modes
    decreases |bs|
  {
    if bs == [] {
      assert d.rx + bs == d.rx;
    } else {
      var e := d.WriteReceived().GuestTransmit(bs[0]);
      assert e.rx == d.rx + [bs[0]] && e.tx == d.tx && e.modes == d.modes;
      QueueLoopbackReturns(e, bs[1..]);
      assert d.rx + [bs[0]] + bs[1..] == d.rx + bs;
    }
  }

  // ----- the host -----

  lemma HostCtsMeans(d: Device, off: bool)
    ensures var e := d.SetHostCts(off);
      && e.flags.hostCtsDeasserted == off
      && e.flags.irqDirty == (d.flags.irqDirty || d.flags.hostCtsDeasserted != off)
      && e == d.(flags := e.flags) && e.flags.rtsDeasserted == d.flags.rtsDeasserted
      && e.flags.txWritePending == d.flags.txWritePending
  {
  }
}
