/** Draining the write ring later has the same effect as acting on every store at once. */
module Deferral {
  import opened Bytes
  import opened SpscQueues
  import opened Mc6850Spec
  import opened WriteRings
  import opened SerialPath

  /** What the write interrupt handler does at the moment of a store. */
  function AtOnce(d: Device, w: WriteEntry): Device
  {
    match w.location
    case ControlRegister => d.ControlWrittenIsr(w.value)
    case DataRegister => d.WriteReceived()
    case Elsewhere => d
  }

  /** What the main loop does when it takes the store out of the write ring. */
  function Deliver(d: Device, w: WriteEntry): Device
  {
    match w.location
    case ControlRegister => d.GuestControl(w.value)
    case DataRegister => d.GuestTransmit(w.value)
    case Elsewhere => d
  }

  function DeliverAll(d: Device, ring: seq<WriteEntry>): Device
    decreases |ring|
  {
    if ring == [] then d else DeliverAll(Deliver(d, ring[0]), ring[1..])
  }

  /** Every store is acted upon completely before the next one. */
  function Immediate(d: Device, writes: seq<WriteEntry>): Device
    decreases |writes|
  {
    if writes == [] then d else Immediate(Deliver(AtOnce(d, writes[0]), writes[0]), writes[1..])
  }

  predicate NoReset(w: WriteEntry) { w.location == ControlRegister ==> !IsMasterReset(w.value) }

  /** Where a transmitted byte ends up. */
  datatype Place = TransmitQueue | ReceiveRegister | ReceiveQueue

  datatype Placement = Placement(place: Place, data: byte)

  function PlaceFor(m: Modes): Place
  {
    if m.loopbackClose then ReceiveRegister else if m.loopbackQueue then ReceiveQueue else TransmitQueue
  }

  predicate HasRoom(d: Device)
  {
    match PlaceFor(d.modes)
    case TransmitQueue => d.TxHasSpace()
    case ReceiveQueue => |d.rx| < CAPACITY - 1
    case ReceiveRegister => true
  }

  /** Everything else that the main loop, the read interrupt handler and core 0 do to the device. */
  datatype Background = Poll | ReadHandler | Receive | HostPut(ch: byte) | HostGet | HostCts(off: bool)

  datatype Event = Write(w: WriteEntry) | Drain | Meanwhile(b: Background)

  /** `placed` records where each byte taken from the write ring went. */
  datatype Deferred = Deferred(device: Device, ring: seq<WriteEntry>, placed: seq<Placement>)

  predicate CanHappen(s: Deferred, e: Event)
  {
    match e
    case Write(w) => NoReset(w) && |s.ring| < RING_ROOM
    case Drain => s.ring != [] && (s.ring[0].location == DataRegister ==> HasRoom(s.device))
    case Meanwhile(b) => b.HostGet? ==> s.device.tx != []
  }

  function InBackground(d: Device, b: Background): Device
    requires b.HostGet? ==> d.tx != []
  {
    match b
    case Poll => d.HasInterrupt()
    case ReadHandler => d.RxReadFastPath()
    case Receive => d.GuestReceive()
    case HostPut(ch) => d.HostTransmit(ch)
    case HostGet => d.HostReceive()
    case HostCts(off) => d.SetHostCts(off)
  }

  function Happen(s: Deferred, e: Event): Deferred
    requires CanHappen(s, e)
  {
    match e
    case Write(w) => s.(device := AtOnce(s.device, w), ring := Pushed(s.ring, w))
    case Drain =>
      Deferred(Deliver(s.device, s.ring[0]), s.ring[1..],
               s.placed + if s.ring[0].location == DataRegister
                          then [Placement(PlaceFor(s.device.modes), s.ring[0].value)] else [])
    case Meanwhile(b) => s.(device := InBackground(s.device, b))
  }

  ghost predicate Leads(s: Deferred, events: seq<Event>, t: Deferred)
    decreases |events|
  {
    if events == [] then s == t
    else CanHappen(s, events[0]) && Leads(Happen(s, events[0]), events[1..], t)
  }

  function WritesOf(events: seq<Event>): seq<WriteEntry>
    decreases |events|
  {
    if events == [] then []
    else (if events[0].Write? then [events[0].w] else []) + WritesOf(events[1..])
  }

  lemma WritesOfStep(events: seq<Event>)
    requires events != []
    ensures WritesOf(events)
         == if events[0].Write? then [events[0].w] + WritesOf(events[1..]) else WritesOf(events[1..])
  {
  }

  /** The device but for `tx_write_pending` and the status byte that depends on it. */
  function Core(d: Device): Device
  {
    d.(flags := d.flags.(txWritePending := false), reg := d.reg.(status := 0, cachedStatus := 0))
  }

  ghost predicate Similar(d: Device, e: Device)
  {
    Published(d) && Published(e) && Core(d) == Core(e)
  }

  lemma DeliverPublishes(d: Device, w: WriteEntry)
    requires Published(d)
    ensures Published(Deliver(d, w)) && Published(AtOnce(d, w))
  {
  }

  lemma SimilarControl(d: Device, e: Device, v: byte)
    requires Core(d) == Core(e) && !IsMasterReset(v)
    ensures Core(d.GuestControl(v)) == Core(e.GuestControl(v))
  {
    assert d == Core(d).(flags := d.flags, reg := d.reg) && e == Core(d).(flags := e.flags, reg := e.reg);
  }

  /** Deriving the status forgets what was published before. */
  lemma SyncForgets(x: Device, y: Device)
    requires Core(x) == Core(y) && x.flags == y.flags
    requires x.reg.status == x.reg.cachedStatus && y.reg.status == y.reg.cachedStatus
    ensures x.SyncTransmit() == y.SyncTransmit()
  {
    assert x == Core(x).(flags := x.flags, reg := x.reg) && y == Core(x).(flags := x.flags, reg := y.reg);
  }

  lemma RoutedSimilar(d: Device, e: Device, data: byte)
    requires Core(d) == Core(e) && d.flags == e.flags
    ensures var x, y := d.Routed(data), e.Routed(data);
      Core(x) == Core(y) && x.flags == y.flags && x.reg.status == d.reg.status && y.reg.status == e.reg.status
      && x.reg.cachedStatus == d.reg.cachedStatus && y.reg.cachedStatus == e.reg.cachedStatus
  {
    assert d == Core(d).(flags := d.flags, reg := d.reg) && e == Core(d).(flags := d.flags, reg := e.reg);
  }

  /** Delivering a byte clears the pending flag. */
  lemma SimilarData(d: Device, e: Device, data: byte)
    requires Similar(d, e)
    ensures d.GuestTransmit(data) == e.GuestTransmit(data)
  {
    var x, y := d.(flags := d.flags.(txWritePending := false)), e.(flags := e.flags.(txWritePending := false));
    assert Core(x) == Core(d) && Core(y) == Core(e) && x.flags == Core(d).flags && y.flags == Core(e).flags;
    RoutedSimilar(x, y, data);
    SyncForgets(x.Routed(data).Dirtied(), y.Routed(data).Dirtied());
  }

  /** Two devices that differ in the pending flag alone stay so, and a delivered byte makes them equal. */
  lemma DeliverSimilar(d: Device, e: Device, w: WriteEntry)
    requires Similar(d, e) && NoReset(w)
    ensures Similar(Deliver(d, w), Deliver(e, w))
    ensures w.location == DataRegister ==> Deliver(d, w) == Deliver(e, w)
  {
    DeliverPublishes(d, w);
    DeliverPublishes(e, w);
    match w.location {
      case ControlRegister => SimilarControl(d, e, w.value);
      case DataRegister => SimilarData(d, e, w.value);
      case Elsewhere =>
    }
  }

  /** Neither half of a control store reads what the other writes. */
  lemma ControlHalvesCommute(d: Device, v: byte, w: byte)
    requires !IsMasterReset(v) && !IsMasterReset(w)
    ensures d.ControlWrittenIsr(w).GuestControl(v) == d.GuestControl(v).ControlWrittenIsr(w)
  {
    assert d.ControlWrittenIsr(w).Refreshed().StatusByte() == d.Refreshed().StatusByte();
  }

  lemma ControlIsrCommutesWithSync(d: Device, w: byte)
    requires !IsMasterReset(w)
    ensures d.ControlWrittenIsr(w).Dirtied().SyncTransmit() == d.Dirtied().SyncTransmit().ControlWrittenIsr(w)
  {
  }

  lemma ControlIsrCommutesWithData(d: Device, data: byte, w: byte)
    requires !IsMasterReset(w)
    ensures d.ControlWrittenIsr(w).GuestTransmit(data) == d.GuestTransmit(data).ControlWrittenIsr(w)
  {
    var cleared := d.(flags := d.flags.(txWritePending := false));
    assert cleared.ControlWrittenIsr(w).Routed(data) == cleared.Routed(data).ControlWrittenIsr(w);
    ControlIsrCommutesWithSync(cleared.Routed(data), w);
  }

  lemma ControlIsrCommutes(d: Device, v: WriteEntry, w: byte)
    requires NoReset(v) && !IsMasterReset(w)
    ensures Deliver(d.ControlWrittenIsr(w), v) == Deliver(d, v).ControlWrittenIsr(w)
  {
    match v.location {
      case ControlRegister => ControlHalvesCommute(d, v.value, w);
      case DataRegister => ControlIsrCommutesWithData(d, v.value, w);
      case Elsewhere =>
    }
  }

  lemma DataIsrAndControl(d: Device, v: byte)
    requires !IsMasterReset(v)
    ensures Core(d.WriteReceived().GuestControl(v)) == Core(d.GuestControl(v).WriteReceived())
  {
  }

  lemma DataIsrAndData(d: Device, data: byte)
    ensures Core(d.WriteReceived().GuestTransmit(data)) == Core(d.GuestTransmit(data).WriteReceived())
  {
  }

  lemma DataIsrCommutes(d: Device, v: WriteEntry)
    requires NoReset(v)
    ensures Core(Deliver(d.WriteReceived(), v)) == Core(Deliver(d, v).WriteReceived())
  {
    match v.location {
      case ControlRegister => DataIsrAndControl(d, v.value);
      case DataRegister => DataIsrAndData(d, v.value);
      case Elsewhere =>
    }
  }

  /** The early part of a store commutes with delivering an earlier one, but for the pending flag. */
  lemma EarlyPartCommutes(d: Device, v: WriteEntry, w: WriteEntry)
    requires Published(d) && NoReset(v) && NoReset(w)
    ensures Similar(Deliver(AtOnce(d, w), v), AtOnce(Deliver(d, v), w))
    ensures w.location == ControlRegister ==> Deliver(AtOnce(d, w), v) == AtOnce(Deliver(d, v), w)
  {
    assert Published(Deliver(AtOnce(d, w), v)) && Published(AtOnce(Deliver(d, v), w)) by {
      DeliverPublishes(d, v);
      DeliverPublishes(d, w);
      DeliverPublishes(AtOnce(d, w), v);
      DeliverPublishes(Deliver(d, v), w);
    }
    match w.location {
      case ControlRegister => ControlIsrCommutes(d, v, w.value);
      case DataRegister => DataIsrCommutes(d, v);
      case Elsewhere =>
    }
  }

  lemma {:induction false} DeliverAllSimilar(d: Device, e: Device, ring: seq<WriteEntry>)
    requires Similar(d, e) && forall i :: 0 <= i < |ring| ==> NoReset(ring[i])
    ensures Similar(DeliverAll(d, ring), DeliverAll(e, ring))
    decreases |ring|
  {
    if ring != [] {
      DeliverSimilar(d, e, ring[0]);
      DeliverAllSimilar(Deliver(d, ring[0]), Deliver(e, ring[0]), ring[1..]);
    }
  }

  lemma {:induction false} DeliverAllAppend(d: Device, ring: seq<WriteEntry>, w: WriteEntry)
    ensures DeliverAll(d, ring + [w]) == Deliver(DeliverAll(d, ring), w)
    decreases |ring|
  {
    if ring == [] {
      assert ring + [w] == [w];
      assert DeliverAll(Deliver(d, w), []) == Deliver(d, w);
    } else {
      assert (ring + [w])[1..] == ring[1..] + [w];
      DeliverAllAppend(Deliver(d, ring[0]), ring[1..], w);
    }
  }

  lemma {:induction false} EarlyPartCommutesWithAll(d: Device, ring: seq<WriteEntry>, w: WriteEntry)
    requires Published(d) && NoReset(w) && forall i :: 0 <= i < |ring| ==> NoReset(ring[i])
    ensures Similar(DeliverAll(AtOnce(d, w), ring), AtOnce(DeliverAll(d, ring), w))
    ensures w.location != DataRegister ==> DeliverAll(AtOnce(d, w), ring) == AtOnce(DeliverAll(d, ring), w)
    decreases |ring|
  {
    DeliverPublishes(d, w);
    if ring != [] {
      EarlyPartCommutes(d, ring[0], w);
      DeliverAllSimilar(Deliver(AtOnce(d, w), ring[0]), AtOnce(Deliver(d, ring[0]), w), ring[1..]);
      DeliverPublishes(d, ring[0]);
      EarlyPartCommutesWithAll(Deliver(d, ring[0]), ring[1..], w);
    }
  }

  /** A store made while others wait in the ring has, once all are delivered, the effect it would have had
      after them. */
  lemma StoreBehindOthers(d: Device, ring: seq<WriteEntry>, w: WriteEntry)
    requires Published(d) && NoReset(w) && forall i :: 0 <= i < |ring| ==> NoReset(ring[i])
    ensures DeliverAll(AtOnce(d, w), ring + [w]) == Deliver(AtOnce(DeliverAll(d, ring), w), w)
  {
    DeliverAllAppend(AtOnce(d, w), ring, w);
    EarlyPartCommutesWithAll(d, ring, w);
    DeliverSimilar(DeliverAll(AtOnce(d, w), ring), AtOnce(DeliverAll(d, ring), w), w);
  }

  /** Deferral refines immediate execution: with no master reset, no overflow of the ring and room for every
      byte, however stores and drains interleave, delivering what is left in the ring gives the very device
      that acting on each store at once gives. */
  lemma {:induction false} DeferralRefinesImmediate(s: Deferred, events: seq<Event>, t: Deferred)
    requires Published(s.device) && forall i :: 0 <= i < |s.ring| ==> NoReset(s.ring[i])
    requires Leads(s, events, t) && forall i :: 0 <= i < |events| ==> !events[i].Meanwhile?
    ensures DeliverAll(t.device, t.ring) == Immediate(DeliverAll(s.device, s.ring), WritesOf(events))
    decreases |events|
  {
    if events != [] {
      var e := events[0];
      var u := Happen(s, e);
      WritesOfStep(events);
      if e.Write? {
        DeliverPublishes(s.device, e.w);
        StoreBehindOthers(s.device, s.ring, e.w);
        assert ([e.w] + WritesOf(events[1..]))[1..] == WritesOf(events[1..]);
      } else {
        DeliverPublishes(s.device, s.ring[0]);
      }
      DeferralRefinesImmediate(u, events[1..], t);
    }
  }

  /** Where immediate execution sends the bytes of `writes`. */
  function Routes(m: Modes, writes: seq<WriteEntry>): seq<Placement>
    decreases |writes|
  {
    if writes == [] then []
    else
      match writes[0].location
      case ControlRegister => Routes(CONSTRUCTED.GuestControl(writes[0].value).modes, writes[1..])
      case DataRegister => [Placement(PlaceFor(m), writes[0].value)] + Routes(m, writes[1..])
      case Elsewhere => Routes(m, writes[1..])
  }

  lemma {:induction false} RoutesAppend(m: Modes, ring: seq<WriteEntry>, more: seq<WriteEntry>)
    ensures Routes(m, ring + more) == Routes(m, ring) + Routes(ModesAfter(m, ring), more)
    decreases |ring|
  {
    if ring == [] {
      assert ring + more == more;
    } else {
      assert (ring + more)[1..] == ring[1..] + more;
      var m' := if ring[0].location == ControlRegister then CONSTRUCTED.GuestControl(ring[0].value).modes else m;
      RoutesAppend(m', ring[1..], more);
    }
  }

  function ModesAfter(m: Modes, ring: seq<WriteEntry>): Modes
    decreases |ring|
  {
    if ring == [] then m
    else if ring[0].location == ControlRegister then
      ModesAfter(CONSTRUCTED.GuestControl(ring[0].value).modes, ring[1..])
    else ModesAfter(m, ring[1..])
  }

  lemma {:induction false} ModesAfterAppend(m: Modes, ring: seq<WriteEntry>, w: WriteEntry)
    ensures ModesAfter(m, ring + [w]) == ModesAfter(ModesAfter(m, ring), [w])
    decreases |ring|
  {
    if ring == [] {
      assert ring + [w] == [w];
    } else {
      assert (ring + [w])[1..] == ring[1..] + [w];
      var m' := if ring[0].location == ControlRegister then CONSTRUCTED.GuestControl(ring[0].value).modes else m;
      ModesAfterAppend(m', ring[1..], w);
    }
  }

  /** Everything that has been placed or will be, if `more` is still to be stored. */
  function Destined(s: Deferred, more: seq<WriteEntry>): seq<Placement>
  {
    s.placed + Routes(s.device.modes, s.ring) + Routes(ModesAfter(s.device.modes, s.ring), more)
  }

  lemma StoreKeepsDestined(s: Deferred, w: WriteEntry, more: seq<WriteEntry>)
    requires CanHappen(s, Write(w))
    ensures Destined(Happen(s, Write(w)), more) == Destined(s, [w] + more)
  {
    var m := s.device.modes;
    RoutesAppend(m, s.ring, [w]);
    ModesAfterAppend(m, s.ring, w);
    RoutesAppend(ModesAfter(m, s.ring), [w], more);
  }

  lemma DrainKeepsDestined(s: Deferred, more: seq<WriteEntry>)
    requires CanHappen(s, Drain) && forall i :: 0 <= i < |s.ring| ==> NoReset(s.ring[i])
    ensures Destined(Happen(s, Drain), more) == Destined(s, more)
  {
    var w := s.ring[0];
    if w.location == ControlRegister {
      assert Deliver(s.device, w).modes == CONSTRUCTED.GuestControl(w.value).modes;
    } else {
      assert Deliver(s.device, w).modes == s.device.modes;
    }
  }

  /** Whatever the main loop, the read interrupt handler and core 0 do in between, every byte goes to the
      place that immediate execution sends it to, in the same order. */
  lemma {:induction false} EveryByteGoesToItsPlace(s: Deferred, events: seq<Event>, t: Deferred)
    requires Leads(s, events, t) && forall i :: 0 <= i < |s.ring| ==> NoReset(s.ring[i])
    ensures Destined(t, []) == Destined(s, WritesOf(events))
    decreases |events|
  {
    if events != [] {
      var u := Happen(s, events[0]);
      var more := WritesOf(events[1..]);
      WritesOfStep(events);
      match events[0] {
        case Write(w) => StoreKeepsDestined(s, w, more);
        case Drain => DrainKeepsDestined(s, more);
        case Meanwhile(b) => assert u.device.modes == s.device.modes;
      }
      EveryByteGoesToItsPlace(u, events[1..], t);
    }
  }

  /** The recorded place is the one where the byte is found. */
  lemma PlacementIsReal(d: Device, data: byte)
    requires HasRoom(d)
    ensures var e := d.GuestTransmit(data);
      match PlaceFor(d.modes)
      case TransmitQueue => e.tx == d.tx + [data] && e.rx == d.rx && e.reg.rxData == d.reg.rxData
      case ReceiveQueue => e.rx == d.rx + [data] && e.tx == d.tx && e.reg.rxData == d.reg.rxData
      case ReceiveRegister => e.reg.rxData == data && e.lines.receiveBufferFull && e.tx == d.tx && e.rx == d.rx
  {
  }

  /** What RTS is after the control stores in `writes`. */
  function RtsAfter(rts: bool, writes: seq<WriteEntry>): bool
    decreases |writes|
  {
    if writes == [] then rts
    else
      var w := writes[|writes| - 1];
      if w.location == ControlRegister then TxIrqField(w.value) == 2 else RtsAfter(rts, writes[..|writes| - 1])
  }

  /** Only a control store changes RTS, and at once. */
  lemma StepRts(s: Deferred, e: Event)
    requires CanHappen(s, e) && forall i :: 0 <= i < |s.ring| ==> NoReset(s.ring[i])
    ensures Happen(s, e).device.flags.rtsDeasserted
         == if e.Write? && e.w.location == ControlRegister then TxIrqField(e.w.value) == 2
            else s.device.flags.rtsDeasserted
    ensures forall i :: 0 <= i < |Happen(s, e).ring| ==> NoReset(Happen(s, e).ring[i])
  {
  }

  /** RTS is that of the newest control store at every moment, delivered or not. */
  lemma {:induction false} RtsIsNewest(s: Deferred, events: seq<Event>, t: Deferred)
    requires Leads(s, events, t) && forall i :: 0 <= i < |s.ring| ==> NoReset(s.ring[i])
    ensures t.device.flags.rtsDeasserted == RtsAfter(s.device.flags.rtsDeasserted, WritesOf(events))
    decreases |events|
  {
    if events != [] {
      var e := events[0];
      StepRts(s, e);
      RtsIsNewest(Happen(s, e), events[1..], t);
      WritesOfStep(events);
      if e.Write? {
        RtsAfterPrepend(s.device.flags.rtsDeasserted, e.w, WritesOf(events[1..]));
      }
    }
  }

  lemma {:induction false} RtsAfterPrepend(rts: bool, w: WriteEntry, writes: seq<WriteEntry>)
    ensures RtsAfter(rts, [w] + writes)
         == RtsAfter(if w.location == ControlRegister then TxIrqField(w.value) == 2 else rts, writes)
    decreases |writes|
  {
    if writes == [] {
      assert [w] + writes == [w] && [w][..0] == [];
    } else {
      var n := |writes| - 1;
      assert ([w] + writes)[..n + 1] == [w] + writes[..n];
      RtsAfterPrepend(rts, w, writes[..n]);
    }
  }
}
