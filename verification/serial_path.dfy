/** The whole serial path as a state machine: the USB pump on core 0, the main loop of core 1, the bus
    interrupt handlers of core 1, and the guest running chunk/io.asm, in every interleaving of their steps. */
module SerialPath {
  import opened Bytes
  import opened Ring
  import opened SpscQueues
  import opened PumpPasses
  import opened Mc6850Spec
  import opened IoDriver
  import opened WriteRings

  /** Where the main loop of core 1 stands. `Recomputing` is the middle of `has_interrupt`, after the flag
      was cleared; `Dispatching` is between taking an entry from the write ring and acting on it. */
  datatype Core1 = Looping | Recomputing | Dispatching(entry: WriteEntry)

  datatype PumpPc =
    | PumpIdle
    | Filling
    | Bursting(amount: nat, done: nat, flagDue: bool)
    | Collecting
    | WritingUsb
    | FeedingCts
    | CtsFlagDue

  /** One `uart_port_state` and the place where the pump stands. */
  datatype Pump = Pump(
    pc: PumpPc,
    rxBuf: seq<byte>,
    rxIndex: nat,
    rxCount: nat,
    txBuf: seq<byte>,
    txIndex: nat,
    txCount: nat)
  {
    ghost predicate WellFormed()
    {
      && |rxBuf| == |txBuf| == USB_BUFFER_SIZE
      && rxCount <= USB_BUFFER_SIZE && txCount <= USB_BUFFER_SIZE
      && (rxCount == 0 || rxIndex < rxCount)
      && (txCount == 0 || pc.Collecting? || txIndex < txCount)
      && (pc.WritingUsb? && txCount == 0 ==> txIndex == 0)
      && (pc.Bursting? ==>
            && pc.done + (if pc.flagDue then 1 else 0) <= pc.amount
            && (rxCount == 0 ==> rxIndex == 0)
            && rxIndex + pc.amount <= rxCount)
    }

    /** Bytes of the current burst that are in the receive queue already. */
    function Sent(): nat
    {
      if pc.Bursting? then pc.done + (if pc.flagDue then 1 else 0) else 0
    }

    /** Bytes read from USB and not yet handed to the device. */
    ghost function RxRest(): seq<byte>
      requires WellFormed()
    {
      if rxCount == 0 then [] else rxBuf[rxIndex + Sent()..rxCount]
    }

    /** Bytes taken from the device and not yet accepted by USB. */
    ghost function TxRest(): seq<byte>
      requires WellFormed()
    {
      if pc.Collecting? then txBuf[..txCount]
      else if txCount == 0 then []
      else txBuf[txIndex..txCount]
    }
  }

  /** Where the guest stands: in the foreground, in the polling loop of OUTCH, or in the interrupt routine. */
  datatype Cpu =
    | Foreground
    | DrainTest      // O@D
    | DrainWait      // O@W
    | DrainStore     // TDRE was seen set
    | RxCheck        // RX@L, RDRF was seen set
    | RxLastRead     // RTS was switched off for the last slot, the data register not yet read
    | RxLostRead     // RX@F, about to discard the data register
    | RxMore         // about to look for another received byte
    | TxSend         // TX@L, TDRE was seen set
    | TxMore         // about to look at TDRE again
    | TxOff          // TX@D

  /** What went through the path since the run began. `inFlight` is the byte between the guest's store into
      the data register and the transmit queue. */
  datatype History = History(
    usbIn: seq<byte>,
    inched: seq<byte>,
    outched: seq<byte>,
    txWritten: seq<byte>,
    inFlight: seq<byte>,
    usbOut: seq<byte>)

  datatype Sys = Sys(
    device: Device,
    ring: seq<WriteEntry>,
    rxReads: nat,
    core1: Core1,
    pump: Pump,
    port: Port,
    cpu: Cpu,
    hist: History)
  {
    ghost predicate WellFormed()
    {
      pump.WellFormed() && port.WellFormed()
    }

    /** The guest stores into the control register: the write interrupt handler runs at once. */
    function StoreControl(control: byte): Sys
    {
      this.(device := device.ControlWrittenIsr(control), ring := Pushed(ring, WriteEntry(ControlRegister, control)))
    }

    /** The guest stores into the data register. */
    function StoreData(data: byte): Sys
    {
      this.(device := device.WriteReceived(),
            ring := Pushed(ring, WriteEntry(DataRegister, data)),
            hist := hist.(txWritten := hist.txWritten + [data], inFlight := hist.inFlight + [data]))
    }

    /** The guest loads from the data register: the read interrupt handler runs at once. */
    function ReadData(): Sys
    {
      this.(device := device.RxReadFastPath(), rxReads := (rxReads + 1) % 256)
    }
  }

  datatype Action =
    // core 0
    | PumpStart(suppress: bool)
    | PumpFill(usb: seq<byte>)
    | PumpPut
    | PumpPutFlag
    | PumpBurstEnd
    | PumpCollect
    | PumpCollectEnd
    | PumpUsbWrite(written: nat)
    | PumpCts
    | PumpCtsFlag
    // core 1, main loop
    | PollInterrupt
    | Recompute
    | TakeEntry
    | Dispatch
    | ReceiveNext
    // guest
    | StoreElsewhere(value: byte)
    | CallInch
    | CallOutch(ch: byte)
    | DrainCompare
    | DrainPoll
    | DrainWrite
    | EnterIsr
    | CheckSlot
    | ReadLast
    | ReadLost
    | CheckMore
    | SendNext
    | CheckTdre
    | SwitchTxOff

  predicate Enabled(s: Sys, a: Action)
    requires s.WellFormed()
  {
    match a
    case PumpStart(_) => s.pump.pc.PumpIdle?
    case PumpFill(usb) => s.pump.pc.Filling? && |usb| <= USB_BUFFER_SIZE
    case PumpPut => s.pump.pc.Bursting? && !s.pump.pc.flagDue && s.pump.pc.done < s.pump.pc.amount
    case PumpPutFlag => s.pump.pc.Bursting? && s.pump.pc.flagDue
    case PumpBurstEnd => s.pump.pc.Bursting? && !s.pump.pc.flagDue && s.pump.pc.done == s.pump.pc.amount
    case PumpCollect => s.pump.pc.Collecting? && s.device.tx != [] && s.pump.txCount < USB_BUFFER_SIZE
    case PumpCollectEnd => s.pump.pc.Collecting? && (s.device.tx == [] || s.pump.txCount == USB_BUFFER_SIZE)
    case PumpUsbWrite(written) => s.pump.pc.WritingUsb? && s.pump.txIndex + written <= s.pump.txCount
    case PumpCts => s.pump.pc.FeedingCts?
    case PumpCtsFlag => s.pump.pc.CtsFlagDue?
    case PollInterrupt => s.core1.Looping?
    case Recompute => s.core1.Recomputing?
    case TakeEntry => s.core1.Looping? && s.ring != []
    case Dispatch => s.core1.Dispatching?
    case ReceiveNext => s.core1.Looping? && s.rxReads > 0
    case StoreElsewhere(_) => s.cpu.Foreground?
    case CallInch => s.cpu.Foreground?
    case CallOutch(_) => s.cpu.Foreground? && !s.port.TxRingFull()
    case DrainCompare => s.cpu.DrainTest?
    case DrainPoll => s.cpu.DrainWait?
    case DrainWrite => s.cpu.DrainStore?
    case EnterIsr => s.cpu.Foreground?
    case CheckSlot => s.cpu.RxCheck?
    case ReadLast => s.cpu.RxLastRead?
    case ReadLost => s.cpu.RxLostRead?
    case CheckMore => s.cpu.RxMore?
    case SendNext => s.cpu.TxSend?
    case CheckTdre => s.cpu.TxMore?
    case SwitchTxOff => s.cpu.TxOff?
  }

  /** What the guest stores into the device registers, or elsewhere in the register block, in one step. */
  function Stores(s: Sys, a: Action): seq<WriteEntry>
    requires s.WellFormed()
  {
    match a
    case CallInch =>
      (match s.port.Inch().control
       case Some(control) => [WriteEntry(ControlRegister, control)]
       case None => [])
    case CallOutch(_) => if s.port.rxFull then [] else [WriteEntry(ControlRegister, IQ_RXTX)]
    case DrainWrite => [WriteEntry(DataRegister, s.port.txBuf[s.port.txPou])]
    case SendNext => [WriteEntry(DataRegister, s.port.txBuf[s.port.txPou])]
    case CheckSlot => if s.port.NextRxSlot() == Room then [] else [WriteEntry(ControlRegister, IQ_RTSONLY)]
    case SwitchTxOff => [WriteEntry(ControlRegister, s.port.TxOffControl())]
    case StoreElsewhere(value) => [WriteEntry(Elsewhere, value)]
    case _ => []
  }

  /** The ring takes just these entries; only the main loop takes any out. */
  lemma StoresGoToRing(s: Sys, a: Action)
    requires s.WellFormed() && Enabled(s, a) && !a.TakeEntry?
    ensures |Stores(s, a)| <= 1
    ensures Apply(s, a).ring == if Stores(s, a) == [] then s.ring else Pushed(s.ring, Stores(s, a)[0])
  {
  }

  function Apply(s: Sys, a: Action): Sys
    requires s.WellFormed() && Enabled(s, a)
  {
    match a
    // uart_port_pump
    case PumpStart(suppress) =>
      if !s.device.flags.rtsDeasserted && !suppress then s.(pump := s.pump.(pc := Filling))
      else s.(pump := AfterRx(s.pump))
    case PumpFill(usb) =>
      s.(pump := Filled(s.pump, usb, |s.device.rx|),
         hist := s.hist.(usbIn := s.hist.usbIn + if s.pump.rxCount == 0 then usb else []))
    case PumpPut =>
      s.(device := s.device.(rx := Appended(s.device.rx, s.pump.rxBuf[s.pump.rxIndex + s.pump.pc.done])),
         pump := s.pump.(pc := s.pump.pc.(flagDue := true)))
    case PumpPutFlag =>
      s.(device := s.device.Dirtied(),
         pump := s.pump.(pc := Bursting(s.pump.pc.amount, s.pump.pc.done + 1, false)))
    case PumpBurstEnd =>
      var index := s.pump.rxIndex + s.pump.pc.amount;
      s.(pump := AfterRx(s.pump.(rxIndex := index, rxCount := if index >= s.pump.rxCount then 0 else s.pump.rxCount)))
    case PumpCollect =>
      s.(device := s.device.HostReceive(),
         pump := s.pump.(txBuf := s.pump.txBuf[s.pump.txCount := s.device.tx[0]], txCount := s.pump.txCount + 1))
    case PumpCollectEnd =>
      s.(pump := s.pump.(pc := WritingUsb, txIndex := 0))
    case PumpUsbWrite(written) =>
      s.(pump := WroteUsb(s.pump, written),
         hist := s.hist.(usbOut := s.hist.usbOut + s.pump.txBuf[s.pump.txIndex..s.pump.txIndex + written]))
    case PumpCts =>
      var cts := s.pump.txCount > 0 && s.pump.txIndex < s.pump.txCount;
      if s.device.flags.hostCtsDeasserted != cts then
        s.(device := s.device.(flags := s.device.flags.(hostCtsDeasserted := cts)), pump := s.pump.(pc := CtsFlagDue))
      else s.(pump := s.pump.(pc := PumpIdle))
    case PumpCtsFlag =>
      s.(device := s.device.Dirtied(), pump := s.pump.(pc := PumpIdle))
    // the main loop of core 1
    case PollInterrupt =>
      if s.device.flags.irqDirty then
        s.(device := s.device.(flags := s.device.flags.(irqDirty := false)), core1 := Recomputing)
      else s
    case Recompute => s.(device := s.device.Recompute(), core1 := Looping)
    case TakeEntry => s.(ring := s.ring[1..], core1 := Dispatching(s.ring[0]))
    case Dispatch =>
      (match s.core1.entry.location
      case ControlRegister => s.(device := s.device.GuestControl(s.core1.entry.value), core1 := Looping)
      case DataRegister =>
        s.(device := s.device.GuestTransmit(s.core1.entry.value), core1 := Looping,
           hist := s.hist.(inFlight := []))
      case Elsewhere => s.(core1 := Looping))
    case ReceiveNext => s.(device := s.device.GuestReceive(), rxReads := s.rxReads - 1)
    // the guest
    case StoreElsewhere(value) => s.(ring := Pushed(s.ring, WriteEntry(Elsewhere, value)))
    case CallInch =>
      var e := s.port.Inch();
      var s' := s.(port := e.port,
                   hist := s.hist.(inched := s.hist.inched + if e.got.Some? then [e.got.value] else []));
      if e.control.Some? then s'.StoreControl(e.control.value) else s'
    case CallOutch(ch) =>
      var s' := s.(port := s.port.Enqueue(ch), hist := s.hist.(outched := s.hist.outched + [ch]));
      if s.port.rxFull then s'.(cpu := DrainTest) else s'.StoreControl(IQ_RXTX)
    case DrainCompare => s.(cpu := if s.port.txPou == s.port.txPin then Foreground else DrainWait)
    case DrainPoll => s.(cpu := if s.device.Tdre() then DrainStore else DrainWait)
    case DrainWrite =>
      s.(port := s.port.DropTx(), cpu := DrainTest).StoreData(s.port.txBuf[s.port.txPou])
    case EnterIsr =>
      if s.device.Rdrf() then s.(cpu := RxCheck)
      else if s.device.Tdre() then
        if s.port.txPou == s.port.txPin then s.(cpu := TxOff, port := s.port.(errno := ERR_TX_EMPTY))
        else s.(cpu := TxSend)
      else s
    case CheckSlot =>
      (match s.port.NextRxSlot()
      case RingFull => s.(port := s.port.(rxFull := true), cpu := RxLostRead).StoreControl(IQ_RTSONLY)
      case LastSlot => s.(port := s.port.(rxFull := true), cpu := RxLastRead).StoreControl(IQ_RTSONLY)
      case Room => s.(port := s.port.StoreRx(s.device.reg.rxData), cpu := RxMore).ReadData())
    case ReadLast => s.(port := s.port.StoreRx(s.device.reg.rxData), cpu := Foreground).ReadData()
    case ReadLost => s.(port := s.port.(errno := ERR_RX_LOST), cpu := Foreground).ReadData()
    case CheckMore => s.(cpu := if s.device.Rdrf() then RxCheck else Foreground)
    case SendNext =>
      var p := s.port.DropTx();
      s.(port := p, cpu := if p.txPou == p.txPin then TxOff else TxMore).StoreData(s.port.txBuf[s.port.txPou])
    case CheckTdre => s.(cpu := if s.device.Tdre() then TxSend else Foreground)
    case SwitchTxOff => s.(cpu := Foreground).StoreControl(s.port.TxOffControl())
  }

  /** Refill an empty buffer with what USB had, and fix the size of the burst by one look at the queue. */
  function Filled(p: Pump, usb: seq<byte>, level: nat): Pump
    requires |p.rxBuf| == USB_BUFFER_SIZE && |usb| <= USB_BUFFER_SIZE && (p.rxCount == 0 || p.rxIndex < p.rxCount)
  {
    var refill := p.rxCount == 0;
    var count := if refill then |usb| else p.rxCount;
    var index := if refill then 0 else p.rxIndex;
    var avail := if level < CAPACITY then CAPACITY - 1 - level else 0;
    p.(pc := Bursting(Min(avail, count - index), 0, false),
       rxBuf := if refill then usb + p.rxBuf[|usb|..] else p.rxBuf,
       rxIndex := index, rxCount := count)
  }

  /** USB took `written` bytes of the buffer. */
  function WroteUsb(p: Pump, written: nat): Pump
  {
    var index := p.txIndex + written;
    p.(pc := FeedingCts, txIndex := index, txCount := if index >= p.txCount then 0 else p.txCount)
  }

  /** The transmit half of the pump starts by collecting, unless bytes are left over. */
  function AfterRx(p: Pump): Pump
  {
    p.(pc := if p.txCount == 0 then Collecting else WritingUsb)
  }
}
