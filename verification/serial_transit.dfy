/** The stores on their way through the write ring: where the byte in flight really is, and which transmit
    setting the newest control store asks for. */
module SerialTransit {
  import opened Bytes
  import opened Mc6850Spec
  import opened IoDriver
  import opened WriteRings
  import opened SerialPath
  import opened SerialInvariant

  // ----- data -----

  function DataOf(e: WriteEntry): seq<byte>
  {
    if e.location == DataRegister then [e.value] else []
  }

  /** The bytes for the data register that wait in the ring. */
  function DataIn(ring: seq<WriteEntry>): seq<byte>
    decreases |ring|
  {
    if ring == [] then [] else DataOf(ring[0]) + DataIn(ring[1..])
  }

  /** The bytes between the guest's store and the device: taken out of the ring, or still in it. */
  function InTransit(ring: seq<WriteEntry>, core1: Core1): seq<byte>
  {
    (if core1.Dispatching? then DataOf(core1.entry) else []) + DataIn(ring)
  }

  lemma {:induction false} DataInAppend(ring: seq<WriteEntry>, e: WriteEntry)
    ensures DataIn(ring + [e]) == DataIn(ring) + DataOf(e)
    decreases |ring|
  {
    if ring == [] {
      assert ring + [e] == [e] && [e][1..] == [];
    } else {
      assert (ring + [e])[1..] == ring[1..] + [e];
      DataInAppend(ring[1..], e);
    }
  }

  lemma {:induction false} NoData(ring: seq<WriteEntry>)
    requires forall i :: 0 <= i < |ring| ==> ring[i].location != DataRegister
    ensures DataIn(ring) == []
    decreases |ring|
  {
    if ring != [] {
      NoData(ring[1..]);
    }
  }

  lemma {:induction false} DataIsInFlight(ring: seq<WriteEntry>, core1: Core1, pending: bool, inFlight: seq<byte>)
    requires OneInFlight(ring, core1, pending, inFlight)
    ensures DataIn(ring) == [] || DataIn(ring) == inFlight
    decreases |ring|
  {
    if ring != [] {
      if ring[0].location == DataRegister {
        NoData(ring[1..]);
      } else {
        DataIsInFlight(ring[1..], core1, pending, inFlight);
      }
    }
  }

  /** The byte in flight is where it should be, or nowhere. */
  lemma TransitIsInFlight(s: Sys)
    requires Inv(s)
    ensures InTransit(s.ring, s.core1) == [] || InTransit(s.ring, s.core1) == s.hist.inFlight
  {
    DataIsInFlight(s.ring, s.core1, s.device.flags.txWritePending, s.hist.inFlight);
    if s.core1.Dispatching? && s.core1.entry.location == DataRegister {
      NoData(s.ring);
    }
  }

  /** The byte in flight is in the ring or in the hands of the main loop. */
  predicate Carried(s: Sys)
  {
    InTransit(s.ring, s.core1) == s.hist.inFlight
  }

  /** The guest stores while the ring is full and the byte is its oldest entry. */
  predicate Overwrites(s: Sys, a: Action)
    requires s.WellFormed()
  {
    Stores(s, a) != [] && |s.ring| == RING_ROOM && s.ring[0].location == DataRegister
  }

  lemma PushTransit(ring: seq<WriteEntry>, core1: Core1, e: WriteEntry)
    requires |ring| <= RING_ROOM
    ensures |ring| < RING_ROOM ==> InTransit(Pushed(ring, e), core1) == InTransit(ring, core1) + DataOf(e)
    ensures |ring| == RING_ROOM ==>
      InTransit(Pushed(ring, e), core1) == InTransit(ring[1..], core1) + DataOf(e)
  {
    DataInAppend(if |ring| == RING_ROOM then ring[1..] else ring, e);
  }

  lemma OtherStoreCarriesIff(s: Sys, a: Action)
    requires Inv(s) && Enabled(s, a) && Stores(s, a) != [] && Stores(s, a)[0].location != DataRegister
    ensures Apply(s, a).core1 == s.core1 && Apply(s, a).hist.inFlight == s.hist.inFlight
    ensures Carried(Apply(s, a)) <==> Carried(s) && !Overwrites(s, a)
  {
    StoresGoToRing(s, a);
    PushTransit(s.ring, s.core1, Stores(s, a)[0]);
    TransitIsInFlight(s);
    if |s.ring| == RING_ROOM {
      assert DataIn(s.ring) == DataOf(s.ring[0]) + DataIn(s.ring[1..]);
      if s.ring[0].location == DataRegister {
        NoData(s.ring[1..]);
      }
    }
  }

  lemma DataStoreCarries(s: Sys, a: Action)
    requires Inv(s) && Enabled(s, a) && (a.SendNext? || a.DrainWrite?)
    ensures Carried(s) && Carried(Apply(s, a)) && !Overwrites(s, a)
  {
    NoData(s.ring);
    StoresGoToRing(s, a);
    PushTransit(s.ring, s.core1, Stores(s, a)[0]);
    if |s.ring| == RING_ROOM {
      NoData(s.ring[1..]);
    }
  }

  lemma MainLoopCarriesIff(s: Sys, a: Action)
    requires Inv(s) && Enabled(s, a) && (a.TakeEntry? || a.Dispatch?)
    ensures Carried(Apply(s, a)) <==> Carried(s)
  {
    if a.Dispatch? && s.core1.entry.location == DataRegister {
      NoData(s.ring);
    }
  }

  lemma QuietCarriesIff(s: Sys, a: Action)
    requires Inv(s) && Enabled(s, a) && !a.TakeEntry? && !a.Dispatch? && Stores(s, a) == []
    ensures Carried(Apply(s, a)) <==> Carried(s)
  {
    StoresGoToRing(s, a);
    QuietKeepsFlight(s, a);
  }

  lemma QuietKeepsFlight(s: Sys, a: Action)
    requires Inv(s) && Enabled(s, a) && !a.TakeEntry? && !a.Dispatch? && Stores(s, a) == []
    ensures Apply(s, a).hist.inFlight == s.hist.inFlight
    ensures Apply(s, a).core1 == s.core1 || (!s.core1.Dispatching? && !Apply(s, a).core1.Dispatching?)
  {
    if OfPump(a) {
      PumpLeavesGuest(s, a);
    } else if OfMainLoop(a) {
      MainLoopLeavesGuest(s, a);
    } else {
      GuestLeavesMainLoop(s, a);
    }
  }

  /** The byte in flight is carried on by every step but one that overwrites it; and once lost it stays lost. */
  lemma StepCarriesIff(s: Sys, a: Action)
    requires Inv(s) && Enabled(s, a)
    ensures Carried(Apply(s, a)) <==> Carried(s) && !Overwrites(s, a)
  {
    if a.TakeEntry? || a.Dispatch? {
      MainLoopCarriesIff(s, a);
    } else if Stores(s, a) == [] {
      QuietCarriesIff(s, a);
    } else if Stores(s, a)[0].location == DataRegister {
      DataStoreCarries(s, a);
    } else {
      OtherStoreCarriesIff(s, a);
    }
  }

  // ----- control -----

  predicate SelectsTransmit(control: byte) { ModesFor(control).transmitIrq }

  function Selected(e: WriteEntry, m: Modes): Modes
  {
    if e.location == ControlRegister then ModesFor(e.value) else m
  }

  /** The modes as the newest of the control stores in `ring` leaves them. */
  function NewestModes(ring: seq<WriteEntry>, m: Modes): Modes
    decreases |ring|
  {
    if ring == [] then m else NewestModes(ring[1..], Selected(ring[0], m))
  }

  function ModesNow(s: Sys): Modes
  {
    if s.core1.Dispatching? then Selected(s.core1.entry, s.device.modes) else s.device.modes
  }

  lemma {:induction false} NewestAppend(ring: seq<WriteEntry>, e: WriteEntry, m: Modes)
    ensures NewestModes(ring + [e], m) == Selected(e, NewestModes(ring, m))
    decreases |ring|
  {
    if ring == [] {
      assert ring + [e] == [e] && [e][1..] == [];
    } else {
      assert (ring + [e])[1..] == ring[1..] + [e];
      NewestAppend(ring[1..], e, Selected(ring[0], m));
    }
  }

  /** A control store that switches the transmit interrupt off has not reached the device. */
  predicate UndeliveredOff(s: Sys)
  {
    || (s.core1.Dispatching? && s.core1.entry.location == ControlRegister && !SelectsTransmit(s.core1.entry.value))
    || (exists i :: 0 <= i < |s.ring| && s.ring[i].location == ControlRegister && !SelectsTransmit(s.ring[i].value))
  }

  lemma {:induction false} SwitchedOffBy(ring: seq<WriteEntry>, m: Modes) returns (i: nat)
    requires m.transmitIrq && !NewestModes(ring, m).transmitIrq
    ensures i < |ring| && ring[i].location == ControlRegister && !SelectsTransmit(ring[i].value)
    decreases |ring|
  {
    if Selected(ring[0], m).transmitIrq {
      i := SwitchedOffBy(ring[1..], Selected(ring[0], m));
      i := i + 1;
    } else {
      i := 0;
    }
  }

  predicate PollsOnlyWhenFull(port: Port, cpu: Cpu)
  {
    && (cpu.DrainTest? || cpu.DrainWait? || cpu.DrainStore? ==> port.rxFull)
    && (cpu.TxOff? ==> port.txPou == port.txPin)
  }

  /** What the driver wants from the device: the receive interrupt unless its receive ring is full, and the
      transmit interrupt while there is something to send, but not with the receive ring full. Between the
      last byte and the store at TX@D either will do. */
  predicate Wants(m: Modes, port: Port, cpu: Cpu)
  {
    && (m.receiveIrq <==> !port.rxFull)
    && (port.rxFull ==> !m.transmitIrq)
    && (!port.rxFull && port.txPou != port.txPin ==> m.transmitIrq)
    && (port.txPou == port.txPin && !cpu.TxOff? ==> !m.transmitIrq)
  }

  /** The newest control store always selects what the driver wants. */
  ghost predicate ModeSwitch(s: Sys)
  {
    && s.WellFormed()
    && PollsOnlyWhenFull(s.port, s.cpu)
    && Wants(NewestModes(s.ring, ModesNow(s)), s.port, s.cpu)
  }

  /** What a step that stores nothing may do to the port and to the place of the guest. */
  predicate WantsNoOther(port: Port, cpu: Cpu, port': Port, cpu': Cpu)
  {
    && PollsOnlyWhenFull(port', cpu') && port'.rxFull == port.rxFull
    && (port'.rxFull || (port'.txPou == port'.txPin && !cpu'.TxOff?) ==>
          port.rxFull || (port.txPou == port.txPin && !cpu.TxOff?))
    && (!port'.rxFull && port'.txPou != port'.txPin ==> port.txPou != port.txPin)
  }

  lemma QuietKeepsSwitch(s: Sys, a: Action)
    requires Inv(s) && ModeSwitch(s) && Enabled(s, a) && !a.TakeEntry? && !a.Dispatch? && Stores(s, a) == []
    ensures ModeSwitch(Apply(s, a))
  {
    StepKeeps(s, a);
    StoresGoToRing(s, a);
    QuietKeepsModes(s, a);
    QuietKeepsPort(s, a);
    SameSwitch(s, Apply(s, a));
  }

  lemma SameSwitch(s: Sys, t: Sys)
    requires ModeSwitch(s) && t.WellFormed() && WantsNoOther(s.port, s.cpu, t.port, t.cpu)
    requires t.ring == s.ring && ModesNow(t) == ModesNow(s)
    ensures ModeSwitch(t)
  {
  }

  lemma QuietKeepsModes(s: Sys, a: Action)
    requires Inv(s) && Enabled(s, a) && !a.TakeEntry? && !a.Dispatch? && Stores(s, a) == []
    ensures ModesNow(Apply(s, a)) == ModesNow(s)
  {
    if OfPump(a) {
      PumpLeavesGuest(s, a);
    } else if OfMainLoop(a) {
      MainLoopLeavesGuest(s, a);
    } else {
      GuestLeavesMainLoop(s, a);
    }
  }

  lemma QuietGuestKeepsPort(s: Sys, a: Action)
    requires Inv(s) && ModeSwitch(s) && Enabled(s, a) && !OfPump(a) && !OfMainLoop(a) && Stores(s, a) == []
    ensures var t := Apply(s, a); WantsNoOther(s.port, s.cpu, t.port, t.cpu)
  {
  }

  lemma QuietKeepsPort(s: Sys, a: Action)
    requires Inv(s) && ModeSwitch(s) && Enabled(s, a) && !a.TakeEntry? && !a.Dispatch? && Stores(s, a) == []
    ensures var t := Apply(s, a); WantsNoOther(s.port, s.cpu, t.port, t.cpu)
  {
    if OfPump(a) {
      PumpLeavesGuest(s, a);
    } else if OfMainLoop(a) {
      MainLoopLeavesGuest(s, a);
    } else {
      QuietGuestKeepsPort(s, a);
    }
  }

  lemma StoreKeepsSwitch(s: Sys, a: Action)
    requires Inv(s) && ModeSwitch(s) && Enabled(s, a) && Stores(s, a) != [] && |s.ring| < RING_ROOM
    ensures ModeSwitch(Apply(s, a))
  {
    StepKeeps(s, a);
    StoresGoToRing(s, a);
    NewestAppend(s.ring, Stores(s, a)[0], ModesNow(s));
    GuestLeavesMainLoop(s, a);
    StoreMatchesPort(s, a, NewestModes(s.ring, ModesNow(s)));
  }

  lemma InchMatchesPort(s: Sys, m: Modes)
    requires Inv(s) && ModeSwitch(s) && Enabled(s, CallInch) && Stores(s, CallInch) != []
    requires Wants(m, s.port, s.cpu)
    ensures var t := Apply(s, CallInch);
      PollsOnlyWhenFull(t.port, t.cpu) && Wants(Selected(Stores(s, CallInch)[0], m), t.port, t.cpu)
  {
  }

  lemma HandlerMatchesPort(s: Sys, a: Action, m: Modes)
    requires Inv(s) && ModeSwitch(s) && Enabled(s, a) && (a.CheckSlot? || a.SwitchTxOff?) && Stores(s, a) != []
    requires Wants(m, s.port, s.cpu)
    ensures var t := Apply(s, a);
      PollsOnlyWhenFull(t.port, t.cpu) && Wants(Selected(Stores(s, a)[0], m), t.port, t.cpu)
  {
  }

  lemma DataMatchesPort(s: Sys, a: Action, m: Modes)
    requires Inv(s) && ModeSwitch(s) && Enabled(s, a) && (a.SendNext? || a.DrainWrite?)
    requires Wants(m, s.port, s.cpu)
    ensures var t := Apply(s, a);
      PollsOnlyWhenFull(t.port, t.cpu) && Wants(m, t.port, t.cpu)
  {
  }

  lemma OutchMatchesPort(s: Sys, a: Action, m: Modes)
    requires Inv(s) && ModeSwitch(s) && Enabled(s, a) && a.CallOutch? && Stores(s, a) != []
    requires Wants(m, s.port, s.cpu)
    ensures var t := Apply(s, a);
      PollsOnlyWhenFull(t.port, t.cpu) && Wants(Selected(Stores(s, a)[0], m), t.port, t.cpu)
  {
  }

  lemma StoreMatchesPort(s: Sys, a: Action, m: Modes)
    requires Inv(s) && ModeSwitch(s) && Enabled(s, a) && Stores(s, a) != [] && Wants(m, s.port, s.cpu)
    ensures var t := Apply(s, a);
      PollsOnlyWhenFull(t.port, t.cpu) && Wants(Selected(Stores(s, a)[0], m), t.port, t.cpu)
  {
    if a.CallInch? {
      InchMatchesPort(s, m);
    } else if a.CheckSlot? || a.SwitchTxOff? {
      HandlerMatchesPort(s, a, m);
    } else if a.SendNext? || a.DrainWrite? {
      DataMatchesPort(s, a, m);
    } else if a.CallOutch? {
      OutchMatchesPort(s, a, m);
    }
  }

  lemma MainLoopKeepsSwitch(s: Sys, a: Action)
    requires Inv(s) && ModeSwitch(s) && Enabled(s, a) && (a.TakeEntry? || a.Dispatch?)
    ensures ModeSwitch(Apply(s, a))
  {
    if a.Dispatch? && s.core1.entry.location == ControlRegister {
      assert !IsMasterReset(s.core1.entry.value);
    }
  }

  /** Every step keeps it that meets no full ring. */
  lemma StepKeepsSwitch(s: Sys, a: Action)
    requires Inv(s) && ModeSwitch(s) && Enabled(s, a) && (Stores(s, a) == [] || |s.ring| < RING_ROOM)
    ensures ModeSwitch(Apply(s, a))
  {
    if a.TakeEntry? || a.Dispatch? {
      MainLoopKeepsSwitch(s, a);
    } else if Stores(s, a) == [] {
      QuietKeepsSwitch(s, a);
    } else {
      StoreKeepsSwitch(s, a);
    }
  }
}
