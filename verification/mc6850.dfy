/** The virtual MC6850 as a value: what each method of src/mc6850.cpp does to the whole device state. */
module Mc6850Spec {
  import opened Bytes
  import opened SpscQueues

  const CTS_THRESHOLD := 800
  /** The status byte after a reset: only TDRE is set. */
  const RESET_STATUS: byte := 2

  datatype Interrupt = NoInterrupt | Irq

  function DivideSelect(control: byte): nat { control % 4 }

  function TxIrqField(control: byte): nat { control / 32 % 4 }

  predicate RxIrqBit(control: byte) { control / 128 == 1 }

  predicate IsMasterReset(control: byte) { DivideSelect(control) == 3 }

  /** The read side of the register block: what the guest sees, and the last status byte sent there. */
  datatype Registers = Registers(rxData: byte, status: byte, cachedStatus: byte)

  /** What the last (deferred) control write selected. */
  datatype Modes = Modes(transmitIrq: bool, receiveIrq: bool, loopbackClose: bool, loopbackQueue: bool)

  function ModesFor(control: byte): Modes
  {
    Modes(TxIrqField(control) == 1, RxIrqBit(control), TxIrqField(control) == 3,
          TxIrqField(control) != 3 && DivideSelect(control) == 2)
  }

  /** The variables that the status byte is made of. */
  datatype Lines = Lines(
    transmitBufferEmpty: bool,
    receiveBufferFull: bool,
    assertTransmitIrq: bool,
    assertReceiveIrq: bool,
    ctsDeasserted: bool)

  /** The variables that an interrupt handler or the other core sets at any time. */
  datatype Flags = Flags(rtsDeasserted: bool, txWritePending: bool, irqDirty: bool, hostCtsDeasserted: bool)

  datatype Device = Device(
    tx: seq<byte>,
    rx: seq<byte>,
    reg: Registers,
    modes: Modes,
    lines: Lines,
    flags: Flags,
    cachedIrq: Interrupt)
  {
    predicate Rdrf() { reg.status % 2 == 1 }

    predicate Tdre() { reg.status / 2 % 2 == 1 }

    predicate TxHasSpace() { |tx| < CAPACITY - 1 }

    predicate TxCongested() { |tx| > CTS_THRESHOLD || flags.hostCtsDeasserted }

    /** The oldest received byte may move into the data register. */
    predicate CanStage() { !lines.receiveBufferFull && rx != [] && !flags.rtsDeasserted }

    predicate WantsTransmitIrq()
    {
      modes.transmitIrq && lines.transmitBufferEmpty && !flags.txWritePending && !lines.ctsDeasserted
    }

    predicate WantsReceiveIrq() { modes.receiveIrq && lines.receiveBufferFull }

    function StatusByte(): byte
    {
      (if lines.receiveBufferFull then 1 else 0)
      + (if lines.transmitBufferEmpty && !lines.ctsDeasserted && !flags.txWritePending then 2 else 0)
      + (if lines.ctsDeasserted then 8 else 0)
      + (if lines.assertReceiveIrq || lines.assertTransmitIrq then 128 else 0)
    }

    function Dirtied(): Device { this.(flags := flags.(irqDirty := true)) }

    function SyncStatus(): Device
    {
      this.(reg := reg.(status := if StatusByte() != reg.cachedStatus then StatusByte() else reg.status,
                        cachedStatus := StatusByte()))
    }

    /** The transmit half of the state as the queue and the USB host justify it now. */
    function Refreshed(): Device
    {
      this.(lines := lines.(transmitBufferEmpty := TxHasSpace(), ctsDeasserted := TxCongested()))
    }

    function SyncTransmit(): Device { Refreshed().SyncStatus() }

    function Reset(): Device
    {
      CONSTRUCTED.(cachedIrq := cachedIrq)
    }

    function WriteReceived(): Device
    {
      this.(flags := flags.(txWritePending := true, irqDirty := true)).SyncStatus()
    }

    function SetHostCts(deasserted: bool): Device
    {
      this.(flags := flags.(hostCtsDeasserted := deasserted,
                            irqDirty := flags.irqDirty || flags.hostCtsDeasserted != deasserted))
    }

    function ControlWrittenIsr(control: byte): Device
    {
      this.(flags := flags.(irqDirty := true,
                            rtsDeasserted := if IsMasterReset(control) then flags.rtsDeasserted
                                             else TxIrqField(control) == 2))
    }

    function GuestControl(control: byte): Device
    {
      if IsMasterReset(control) then Reset()
      else
        this.(modes := ModesFor(control)).Dirtied().SyncTransmit()
    }

    /** Where a transmitted byte goes: in normal mode it joins the transmit queue; close loopback puts it
        into the receive register and queue loopback into the receive queue. */
    function Routed(data: byte): Device
    {
      var normal := !modes.loopbackClose && !modes.loopbackQueue;
      this.(tx := if normal && TxHasSpace() then tx + [data] else tx,
            rx := if modes.loopbackQueue && !modes.loopbackClose && |rx| < CAPACITY - 1 then rx + [data] else rx,
            reg := reg.(rxData := if modes.loopbackClose then data else reg.rxData),
            lines := lines.(receiveBufferFull := lines.receiveBufferFull || modes.loopbackClose,
                            assertReceiveIrq := if modes.loopbackClose then modes.receiveIrq
                                                else lines.assertReceiveIrq))
    }

    function GuestTransmit(data: byte): Device
    {
      this.(flags := flags.(txWritePending := false)).Routed(data).Dirtied().SyncTransmit()
    }

    function RxReadFastPath(): Device
    {
      this.(lines := lines.(receiveBufferFull := false, assertReceiveIrq := false)).Dirtied().SyncStatus()
    }

    function GuestReceive(): Device
    {
      (if flags.rtsDeasserted then this.(lines := lines.(receiveBufferFull := false)) else Staged())
      .Dirtied().SyncStatus()
    }

    function Staged(): Device
    {
      this.(rx := if CanStage() then rx[1..] else rx,
            reg := reg.(rxData := if CanStage() then rx[0] else reg.rxData),
            lines := lines.(receiveBufferFull := lines.receiveBufferFull || CanStage()))
    }

    function Asserted(): Device
    {
      this.(lines := lines.(assertReceiveIrq := WantsReceiveIrq(), assertTransmitIrq := WantsTransmitIrq()))
    }

    function Derived(): Device
    {
      Asserted().(cachedIrq := if WantsTransmitIrq() || WantsReceiveIrq() then Irq else NoInterrupt).SyncStatus()
    }

    /** The slow path of `has_interrupt`, after the flag was cleared: everything is derived again. */
    function Recompute(): Device
    {
      Refreshed().Staged().Derived()
    }

    function HasInterrupt(): Device
    {
      if flags.irqDirty then this.(flags := flags.(irqDirty := false)).Recompute() else this
    }

    function HostTransmit(ch: byte): Device
    {
      this.(rx := Appended(rx, ch)).Dirtied()
    }

    function HostReceive(): Device
      requires tx != []
    {
      this.(tx := tx[1..])
    }
  }

  /** The device as its constructor leaves it. */
  const CONSTRUCTED: Device :=
    Device([], [], Registers(0, RESET_STATUS, RESET_STATUS), Modes(false, false, false, false),
           Lines(true, false, false, false, false), Flags(false, false, true, false), NoInterrupt)

  /** The published status byte is never stale: it is the one that the state variables define. */
  ghost predicate Published(d: Device)
  {
    d.reg.status == d.reg.cachedStatus == d.StatusByte()
  }

  lemma SyncPublishes(d: Device)
    requires d.reg.status == d.reg.cachedStatus
    ensures Published(d.SyncStatus())
  {
  }
}

/** The device itself: the fields and methods of class mc6850, each proved to be its specification. */
module Mc6850Device {
  import opened Bytes
  import opened SpscQueues
  import opened Mc6850Spec

  class Mc6850 {
    const tx: SpscQueue
    const rx: SpscQueue
    var dataRegister: byte
    var statusRegister: byte
    var cachedStatusByte: byte
    var cachedIrqResult: Interrupt
    var transmitBufferEmpty: bool
    var receiveBufferFull: bool
    var transmitIrq: bool
    var receiveIrq: bool
    var assertTransmitIrq: bool
    var assertReceiveIrq: bool
    var ctsDeasserted: bool
    var rtsDeasserted: bool
    var loopbackClose: bool
    var loopbackQueue: bool
    var txWritePending: bool
    var irqDirty: bool
    var hostCtsDeasserted: bool

    ghost const Repr: set<object> := {this, tx, rx, tx.buf, rx.buf}

    ghost predicate Valid()
      reads this, tx, rx, tx.buf, rx.buf
    {
      tx != rx && tx.buf != rx.buf && tx.Valid() && rx.Valid()
    }

    ghost function State(): Device
      requires Valid()
      reads this, tx, rx, tx.buf, rx.buf
    {
      Device(tx.unread, rx.unread,
             Registers(dataRegister, statusRegister, cachedStatusByte),
             Modes(transmitIrq, receiveIrq, loopbackClose, loopbackQueue),
             Lines(transmitBufferEmpty, receiveBufferFull, assertTransmitIrq, assertReceiveIrq, ctsDeasserted),
             Flags(rtsDeasserted, txWritePending, irqDirty, hostCtsDeasserted),
             cachedIrqResult)
    }

    constructor ()
      ensures Valid() && fresh(Repr)
      ensures State() == CONSTRUCTED
    {
      tx := new SpscQueue();
      rx := new SpscQueue();
      dataRegister, statusRegister, cachedStatusByte := 0, RESET_STATUS, RESET_STATUS;
      cachedIrqResult := NoInterrupt;
      transmitBufferEmpty, receiveBufferFull := true, false;
      transmitIrq, receiveIrq := false, false;
      assertTransmitIrq, assertReceiveIrq := false, false;
      ctsDeasserted, rtsDeasserted := false, false;
      loopbackClose, loopbackQueue := false, false;
      txWritePending, irqDirty, hostCtsDeasserted := false, true, false;
    }

    method ClearModes()
      requires Valid()
      modifies this`transmitIrq, this`receiveIrq, this`loopbackClose, this`loopbackQueue
      ensures Valid() && State() == old(State()).(modes := CONSTRUCTED.modes)
    {
      transmitIrq, receiveIrq, loopbackClose, loopbackQueue := false, false, false, false;
    }

    method ClearAsserted()
      requires Valid()
      modifies this`assertTransmitIrq, this`assertReceiveIrq
      ensures Valid()
      ensures State() == old(State()).(lines := old(State()).lines.(assertTransmitIrq := false,
                                                                    assertReceiveIrq := false))
    {
      assertTransmitIrq, assertReceiveIrq := false, false;
    }

    method ClearLines()
      requires Valid()
      modifies this`transmitBufferEmpty, this`receiveBufferFull, this`assertTransmitIrq, this`assertReceiveIrq,
               this`ctsDeasserted
      ensures Valid() && State() == old(State()).(lines := CONSTRUCTED.lines)
    {
      transmitBufferEmpty, receiveBufferFull, ctsDeasserted := true, false, false;
      ClearAsserted();
    }

    method ClearFlags()
      requires Valid()
      modifies this`rtsDeasserted, this`txWritePending, this`irqDirty, this`hostCtsDeasserted
      ensures Valid() && State() == old(State()).(flags := CONSTRUCTED.flags)
    {
      rtsDeasserted, hostCtsDeasserted, txWritePending, irqDirty := false, false, false, true;
    }

    method ClearState()
      requires Valid()
      modifies this
      ensures Valid() && dataRegister == old(dataRegister)
      ensures State() == old(State()).(modes := CONSTRUCTED.modes, lines := CONSTRUCTED.lines,
                                       flags := CONSTRUCTED.flags)
    {
      ClearLines();
      ClearModes();
      ClearFlags();
    }

    method Flush()
      requires Valid()
      modifies Repr - {this}
      ensures Valid() && State() == old(State()).(tx := [], rx := [])
    {
      tx.Reset();
      assert rx.Valid();
      rx.Reset();
      assert tx.Valid();
    }

    method Reset()
      requires Valid()
      modifies Repr
      ensures Valid() && State() == old(State()).Reset()
    {
      dataRegister, statusRegister := 0, 0;
      ClearState();
      Flush();
      statusRegister, cachedStatusByte := RESET_STATUS, RESET_STATUS;
    }

    method SyncStatus()
      requires Valid()
      modifies this`statusRegister, this`cachedStatusByte
      ensures Valid() && State() == old(State()).SyncStatus()
    {
      var rdrf := if receiveBufferFull then 1 else 0;
      var tdre := if transmitBufferEmpty && !ctsDeasserted && !txWritePending then 1 else 0;
      var cts := if ctsDeasserted then 1 else 0;
      var irq := if assertReceiveIrq || assertTransmitIrq then 1 else 0;
      var sr: byte := rdrf + 2 * tdre + 8 * cts + 128 * irq;
      if sr != cachedStatusByte {
        cachedStatusByte := sr;
        statusRegister := sr;
      }
    }

    method RefreshTransmit()
      requires Valid()
      modifies this`transmitBufferEmpty, this`ctsDeasserted
      ensures Valid() && State() == old(State()).Refreshed()
    {
      var full := tx.IsFull();
      transmitBufferEmpty := !full;
      var level := tx.GetLevel();
      ctsDeasserted := level > CTS_THRESHOLD || hostCtsDeasserted;
    }

    method SyncTransmit()
      requires Valid()
      modifies this`statusRegister, this`cachedStatusByte, this`transmitBufferEmpty, this`ctsDeasserted
      ensures Valid() && State() == old(State()).SyncTransmit()
    {
      RefreshTransmit();
      SyncStatus();
    }

    method DirtySyncTransmit()
      requires Valid()
      modifies this`irqDirty, this`statusRegister, this`cachedStatusByte, this`transmitBufferEmpty,
               this`ctsDeasserted
      ensures Valid() && State() == old(State()).Dirtied().SyncTransmit()
    {
      irqDirty := true;
      SyncTransmit();
    }

    method WriteReceived()
      requires Valid()
      modifies this
      ensures Valid() && State() == old(State()).WriteReceived()
    {
      txWritePending := true;
      irqDirty := true;
      SyncStatus();
    }

    method SetHostCts(deasserted: bool)
      requires Valid()
      modifies this
      ensures Valid() && State() == old(State()).SetHostCts(deasserted)
    {
      if hostCtsDeasserted != deasserted {
        hostCtsDeasserted := deasserted;
        irqDirty := true;
      }
    }

    method ControlWrittenIsr(control: byte)
      requires Valid()
      modifies this
      ensures Valid() && State() == old(State()).ControlWrittenIsr(control)
    {
      if DivideSelect(control) != 3 {
        rtsDeasserted := TxIrqField(control) == 2;
      }
      irqDirty := true;
    }

    method SelectModes(control: byte)
      requires Valid() && !IsMasterReset(control)
      modifies this`transmitIrq, this`receiveIrq, this`loopbackClose, this`loopbackQueue
      ensures Valid() && State() == old(State()).(modes := ModesFor(control))
    {
      loopbackClose := TxIrqField(control) == 3;
      loopbackQueue := !loopbackClose && DivideSelect(control) == 2;
      transmitIrq := TxIrqField(control) == 1;
      receiveIrq := RxIrqBit(control);
    }

    method GuestControl(control: byte)
      requires Valid()
      modifies Repr
      ensures Valid() && State() == old(State()).GuestControl(control)
    {
      if DivideSelect(control) == 3 {
        Reset();
      } else {
        SelectModes(control);
        DirtySyncTransmit();
      }
    }

    method Route(data: byte)
      requires Valid()
      modifies Repr
      ensures Valid() && State() == old(State()).Routed(data)
    {
      if loopbackClose {
        dataRegister := data;
        receiveBufferFull := true;
        assertReceiveIrq := receiveIrq;
      } else if loopbackQueue {
        var full := rx.IsFull();
        if !full {
          rx.Put(data);
        }
      } else {
        var full := tx.IsFull();
        if !full {
          tx.Put(data);
        }
      }
    }

    method GuestTransmit(data: byte)
      requires Valid()
      modifies Repr
      ensures Valid() && State() == old(State()).GuestTransmit(data)
    {
      txWritePending := false;
      Route(data);
      DirtySyncTransmit();
    }

    method DirtySync()
      requires Valid()
      modifies this`irqDirty, this`statusRegister, this`cachedStatusByte
      ensures Valid() && State() == old(State()).Dirtied().SyncStatus()
    {
      irqDirty := true;
      SyncStatus();
    }

    method RxReadFastPath()
      requires Valid()
      modifies this
      ensures Valid() && State() == old(State()).RxReadFastPath()
    {
      receiveBufferFull := false;
      assertReceiveIrq := false;
      DirtySync();
    }

    method FillSlot()
      requires Valid() && !rtsDeasserted
      modifies Repr
      ensures Valid() && State() == old(State()).Staged()
    {
      if !receiveBufferFull {
        var empty := rx.IsEmpty();
        receiveBufferFull := !empty;
        if receiveBufferFull {
          dataRegister := rx.Get();
        }
      }
    }

    method GuestReceive()
      requires Valid()
      modifies Repr
      ensures Valid() && State() == old(State()).GuestReceive()
    {
      if rtsDeasserted {
        receiveBufferFull := false;
        DirtySync();
        return;
      }
      FillSlot();
      DirtySync();
    }

    method Stage()
      requires Valid()
      modifies Repr
      ensures Valid() && State() == old(State()).Staged()
    {
      var empty := rx.IsEmpty();
      if !receiveBufferFull && !empty && !rtsDeasserted {
        receiveBufferFull := true;
        dataRegister := rx.Get();
      }
    }

    method HasInterrupt() returns (result: Interrupt)
      requires Valid()
      modifies Repr
      ensures Valid() && State() == old(State()).HasInterrupt()
      ensures result == State().cachedIrq
    {
      if !irqDirty {
        return cachedIrqResult;
      }
      irqDirty := false;
      RefreshTransmit();
      Stage();
      DeriveInterrupts();
      result := cachedIrqResult;
    }

    method AssertInterrupts()
      requires Valid()
      modifies this`assertReceiveIrq, this`assertTransmitIrq
      ensures Valid() && State() == old(State()).Asserted()
    {
      assertReceiveIrq := receiveIrq && receiveBufferFull;
      assertTransmitIrq := transmitIrq && transmitBufferEmpty && !txWritePending && !ctsDeasserted;
    }

    /** The part of `has_interrupt` after the slot was filled. */
    method DeriveInterrupts()
      requires Valid()
      modifies this
      ensures Valid() && State() == old(State()).Derived()
    {
      AssertInterrupts();
      SyncStatus();
      cachedIrqResult := if assertTransmitIrq || assertReceiveIrq then Irq else NoInterrupt;
    }

    method HostTransmitLevelAvail() returns (n: nat)
      requires Valid()
      ensures n == 1023 - |State().rx|
    {
      var level := rx.GetLevel();
      n := CAPACITY - 1 - level;
    }

    method HostReceiveAvail() returns (r: bool)
      requires Valid()
      ensures r <==> State().tx != []
    {
      var empty := tx.IsEmpty();
      r := !empty;
    }

    method HostTransmit(ch: byte)
      requires Valid()
      modifies Repr
      ensures Valid() && State() == old(State()).HostTransmit(ch)
    {
      rx.Put(ch);
      irqDirty := true;
    }

    method HostReceive() returns (ch: byte)
      requires Valid() && State().tx != []
      modifies Repr
      ensures Valid() && State() == old(State()).HostReceive() && ch == old(State()).tx[0]
    {
      ch := tx.Get();
    }
  }
}
