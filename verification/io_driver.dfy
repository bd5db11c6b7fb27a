/** The interrupt-driven serial port driver of the guest, chunk/io.asm: a port descriptor with a 64-byte
    receive ring and a 64-byte transmit ring, and the flag that says RTS was deasserted. */
module IoDriver {
  import opened Bytes
  import opened Ring

  const RING_SIZE := 64
  /** INCH asserts RTS again once the receive ring is down to this many bytes. */
  const REASSERT_LEVEL := 32

  const IQ_RX: byte := 0x80
  const IQ_RXTX: byte := 0xA0
  const IQ_RTSONLY: byte := 0x40

  const ERR_RX_LOST: byte := 0xBE
  const ERR_TX_EMPTY: byte := 0xEA

  /** What RXIRQ finds before it reads the data register. */
  datatype RxSlot = RingFull | LastSlot | Room

  /** What INCH does: the byte it returns, and the control byte it stores into the device, if any. */
  datatype InchEffect = InchEffect(port: Port, got: Option<byte>, control: Option<byte>)

  datatype Port = Port(
    txPin: nat,
    txPou: nat,
    rxPin: nat,
    rxPou: nat,
    rxFull: bool,
    errno: byte,
    txBuf: seq<byte>,
    rxBuf: seq<byte>)
  {
    ghost predicate WellFormed()
    {
      && |txBuf| == |rxBuf| == RING_SIZE
      && txPin < RING_SIZE && txPou < RING_SIZE && rxPin < RING_SIZE && rxPou < RING_SIZE
    }

    ghost function RxRing(): seq<byte>
      requires WellFormed()
    {
      Contents(rxBuf, rxPin, rxPou)
    }

    ghost function TxRing(): seq<byte>
      requires WellFormed()
    {
      Contents(txBuf, txPin, txPou)
    }

    /** The control byte that asserts RTS again. */
    function ReassertControl(): byte { if txPin == txPou then IQ_RX else IQ_RXTX }

    function Inch(): InchEffect
      requires WellFormed()
    {
      if rxPou == rxPin then
        if rxFull then InchEffect(this.(rxFull := false), None, Some(ReassertControl()))
        else InchEffect(this, None, None)
      else
        var p := this.(rxPou := Next(RING_SIZE, rxPou));
        if rxFull && Level(RING_SIZE, rxPin, p.rxPou) <= REASSERT_LEVEL then
          InchEffect(p.(rxFull := false), Some(rxBuf[rxPou]), Some(ReassertControl()))
        else
          InchEffect(p, Some(rxBuf[rxPou]), None)
    }

    predicate TxRingFull()
      requires WellFormed()
    {
      Next(RING_SIZE, txPin) == txPou
    }

    /** The part of OUTCH that puts the byte into the transmit ring. */
    function Enqueue(a: byte): Port
      requires WellFormed()
    {
      this.(txBuf := txBuf[txPin := a], txPin := Next(RING_SIZE, txPin))
    }

    function NextRxSlot(): RxSlot
      requires WellFormed()
    {
      if Next(RING_SIZE, rxPin) == rxPou then RingFull
      else if Next(RING_SIZE, Next(RING_SIZE, rxPin)) == rxPou then LastSlot
      else Room
    }

    function StoreRx(a: byte): Port
      requires WellFormed()
    {
      this.(rxBuf := rxBuf[rxPin := a], rxPin := Next(RING_SIZE, rxPin))
    }

    function DropTx(): Port
      requires WellFormed()
    {
      this.(txPou := Next(RING_SIZE, txPou))
    }

    /** The control byte with which TXIRQ switches its own interrupt off. */
    function TxOffControl(): byte { if rxFull then IQ_RTSONLY else IQ_RX }
  }

  /** The descriptor as INITPORT leaves it. */
  function FreshPort(): Port
  {
    Port(0, 0, 0, 0, false, 0, Copies<byte>(0, RING_SIZE), Copies<byte>(0, RING_SIZE))
  }

  /** INCH returns the oldest byte of the ring, if there is one. */
  lemma InchTakesOldest(p: Port)
    requires p.WellFormed()
    ensures var e := p.Inch();
      && e.port.WellFormed() && e.port.TxRing() == p.TxRing()
      && (e.got == None <==> p.RxRing() == [])
      && p.RxRing() == (if e.got.Some? then [e.got.value] else []) + e.port.RxRing()
      && (p.rxFull ==> (e.port.rxFull <==> |e.port.RxRing()| > 32))
      && (e.control.Some? <==> p.rxFull && !e.port.rxFull)
      && (e.control.Some? ==> e.control.value == if p.TxRing() == [] then 0x80 else 0xA0)
      && (e.port.rxFull ==> p.rxFull) && e.port.errno == p.errno
  {
  }

  lemma StoreRxAppends(p: Port, a: byte)
    requires p.WellFormed() && p.NextRxSlot() != RingFull
    ensures p.StoreRx(a).WellFormed() && p.StoreRx(a).RxRing() == p.RxRing() + [a]
    ensures p.StoreRx(a).TxRing() == p.TxRing()
    ensures p.NextRxSlot() == LastSlot <==> |p.RxRing()| == RING_SIZE - 2
  {
    PutContents(p.rxBuf, p.rxPin, p.rxPou, a);
  }

  lemma EnqueueAppends(p: Port, a: byte)
    requires p.WellFormed() && !p.TxRingFull()
    ensures p.Enqueue(a).WellFormed() && p.Enqueue(a).TxRing() == p.TxRing() + [a]
    ensures p.Enqueue(a).RxRing() == p.RxRing()
  {
    PutContents(p.txBuf, p.txPin, p.txPou, a);
  }

  lemma DropTxTakesOldest(p: Port)
    requires p.WellFormed() && p.txPin != p.txPou
    ensures p.DropTx().WellFormed() && [p.txBuf[p.txPou]] + p.DropTx().TxRing() == p.TxRing()
    ensures p.DropTx().RxRing() == p.RxRing()
  {
  }

  /** The port descriptor in memory, and the routines of chunk/io.asm between two device accesses. */
  class PortDriver {
    var txPin: nat
    var txPou: nat
    var rxPin: nat
    var rxPou: nat
    var rxFull: bool
    var errno: byte
    const txBuf: array<byte>
    const rxBuf: array<byte>

    ghost predicate Valid()
      reads this
    {
      && txBuf.Length == rxBuf.Length == RING_SIZE && txBuf != rxBuf
      && txPin < RING_SIZE && txPou < RING_SIZE && rxPin < RING_SIZE && rxPou < RING_SIZE
    }

    ghost function State(): (p: Port)
      requires Valid()
      reads this, txBuf, rxBuf
      ensures p.WellFormed()
    {
      Port(txPin, txPou, rxPin, rxPou, rxFull, errno, txBuf[..], rxBuf[..])
    }

    constructor ()
      ensures Valid() && State() == FreshPort() && fresh(txBuf) && fresh(rxBuf)
    {
      txPin, txPou, rxPin, rxPou := 0, 0, 0, 0;
      rxFull, errno := false, 0;
      txBuf := new byte[RING_SIZE](_ => 0);
      rxBuf := new byte[RING_SIZE](_ => 0);
      new;
      assert txBuf[..] == rxBuf[..] == Copies<byte>(0, RING_SIZE);
    }

    /** INCH: the byte in A with carry set, or carry clear; `control` is the byte stored into the device. */
    method Inch() returns (carry: bool, a: byte, control: Option<byte>)
      requires Valid()
      modifies this
      ensures Valid() && State() == old(State()).Inch().port
      ensures old(State()).Inch().got == if carry then Some(a) else None
      ensures control == old(State()).Inch().control
    {
      var b := rxPou;
      control := None;
      if b == rxPin {
        carry, a := false, 0;
        if rxFull {
          rxFull := false;
          control := Some(if txPin == txPou then IQ_RX else IQ_RXTX);
        }
        return;
      }
      carry, a := true, rxBuf[b];
      rxPou := (b + 1) % RING_SIZE;
      if rxFull {
        var level := (rxPin - rxPou) % RING_SIZE;
        if level <= REASSERT_LEVEL {
          rxFull := false;
          control := Some(if txPin == txPou then IQ_RX else IQ_RXTX);
        }
      }
    }

    /** OUTCH up to its first device access. `stored` is false while it would spin on a full ring; `drain`
        selects the path that empties the ring by polling. */
    method Outch(a: byte) returns (stored: bool, drain: bool, control: Option<byte>)
      requires Valid()
      modifies this, txBuf
      ensures Valid() && (stored <==> !old(State()).TxRingFull())
      ensures State() == if stored then old(State()).Enqueue(a) else old(State())
      ensures drain == (stored && old(rxFull))
      ensures control == if stored && !old(rxFull) then Some(0xA0) else None
    {
      stored, drain, control := false, false, None;
      var b := (txPin + 1) % RING_SIZE;
      if b == txPou {
        return;
      }
      ghost var before := txBuf[..];
      txBuf[txPin] := a;
      assert txBuf[..] == before[txPin := a];
      txPin := b;
      stored := true;
      if rxFull {
        drain := true;
      } else {
        control := Some(IQ_RXTX);
      }
    }

    /** RX@L: look at the ring; on the last slot (or none) the flag is set and RTS goes off. */
    method RxPrepare() returns (slot: RxSlot, control: Option<byte>)
      requires Valid()
      modifies this`rxFull
      ensures Valid() && slot == old(State()).NextRxSlot()
      ensures State() == old(State()).(rxFull := old(rxFull) || slot != Room)
      ensures control == if slot == Room then None else Some(0x40)
    {
      var b := (rxPin + 1) % RING_SIZE;
      if b == rxPou {
        rxFull := true;
        return RingFull, Some(IQ_RTSONLY);
      }
      b := (b + 1) % RING_SIZE;
      if b == rxPou {
        rxFull := true;
        return LastSlot, Some(IQ_RTSONLY);
      }
      return Room, None;
    }

    /** Put the byte that was read from the data register into the receive ring. */
    method RxStore(a: byte)
      requires Valid()
      modifies this`rxPin, rxBuf
      ensures Valid() && State() == old(State()).StoreRx(a)
    {
      ghost var before := rxBuf[..];
      rxBuf[rxPin] := a;
      assert rxBuf[..] == before[rxPin := a];
      rxPin := (rxPin + 1) % RING_SIZE;
    }

    /** TX@L: the next byte for the data register, and whether the ring is empty after it. */
    method TxTake() returns (a: byte, empty: bool)
      requires Valid() && txPou != txPin
      modifies this`txPou
      ensures Valid() && State() == old(State()).DropTx()
      ensures a == old(State()).txBuf[old(txPou)] && (empty <==> State().TxRing() == [])
    {
      a := txBuf[txPou];
      txPou := (txPou + 1) % RING_SIZE;
      empty := txPou == txPin;
    }
  }
}
