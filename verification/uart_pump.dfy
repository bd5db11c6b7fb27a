/** The pump between a USB serial port and the host side of a virtual 6850, as one undisturbed call. */
module UartPumps {
  import opened Bytes
  import opened SpscQueues
  import opened PumpPasses
  import opened Mc6850Spec
  import opened Mc6850Device

  /** A USB serial endpoint: reads and writes are cut short wherever `limit` says. */
  class Usb {
    const limit: nat -> nat
    var tick: nat
    var incoming: seq<byte>
    var sent: seq<byte>

    constructor (incoming: seq<byte>, limit: nat -> nat)
      ensures this.incoming == incoming && sent == []
    {
      this.incoming, this.limit, sent, tick := incoming, limit, [], 0;
    }

    method ReadN(buf: array<byte>, n: nat) returns (count: nat)
      requires n <= buf.Length
      modifies this`incoming, this`tick, buf
      ensures count <= n && buf[..count] + incoming == old(incoming)
    {
      count := Min(Min(limit(tick), n), |incoming|);
      ghost var before := incoming;
      for i := 0 to count
        invariant buf[..i] == before[..i] && incoming == before
      {
        buf[i] := incoming[i];
      }
      incoming := incoming[count..];
      tick := tick + 1;
    }

    method WriteN(data: seq<byte>) returns (written: nat)
      modifies this`sent, this`tick
      ensures written <= |data| && sent == old(sent) + data[..written]
    {
      written := Min(limit(tick), |data|);
      sent := sent + data[..written];
      tick := tick + 1;
    }
  }

  /** The device after the host has put the bytes `s` into it, which fit. */
  function Fed(d: Device, s: seq<byte>): Device
  {
    if s == [] then d else d.(rx := d.rx + s).Dirtied()
  }

  lemma FedOneMore(d: Device, s: seq<byte>, i: nat)
    requires i < |s| && |d.rx| + i < CAPACITY - 1
    ensures Fed(d, s[..i + 1]) == Fed(d, s[..i]).HostTransmit(s[i])
  {
    assert d.rx + s[..i + 1] == d.rx + s[..i] + [s[i]];
    assert i == 0 ==> d.rx + s[..0] == d.rx;
  }

  lemma Regroup(q: seq<byte>, a: seq<byte>, b: seq<byte>, moved: seq<byte>, rest: seq<byte>)
    requires moved + rest == a + b
    ensures q + moved + rest == q + a + b
  {
    assert q + moved + rest == q + (moved + rest);
  }

  lemma HeadMoves(s: seq<byte>, q: seq<byte>)
    requires q != []
    ensures s + [q[0]] + q[1..] == s + q
  {
    assert q == [q[0]] + q[1..];
  }

  class UartPort {
    const rxBuf: array<byte>
    const txBuf: array<byte>
    var rxCount: nat
    var rxIndex: nat
    var txCount: nat
    var txIndex: nat

    ghost predicate Valid()
      reads this
    {
      && rxBuf.Length == USB_BUFFER_SIZE == txBuf.Length && rxBuf != txBuf
      && rxCount <= USB_BUFFER_SIZE && (rxCount == 0 || rxIndex < rxCount)
      && txCount <= USB_BUFFER_SIZE && (txCount == 0 || txIndex < txCount)
    }

    ghost predicate Apart(serial: Mc6850)
      reads this
    {
      rxBuf !in serial.Repr && txBuf !in serial.Repr
    }

    /** Read from USB, not yet in the device. */
    ghost function RxPending(): seq<byte>
      requires Valid()
      reads this, rxBuf
    {
      if rxCount == 0 then [] else rxBuf[rxIndex..rxCount]
    }

    /** Taken from the device, not yet accepted by USB. */
    ghost function TxPending(): seq<byte>
      requires Valid()
      reads this, txBuf
    {
      if txCount == 0 then [] else txBuf[txIndex..txCount]
    }

    constructor ()
      ensures Valid() && fresh(rxBuf) && fresh(txBuf) && RxPending() == [] == TxPending()
    {
      rxBuf, txBuf := new byte[USB_BUFFER_SIZE], new byte[USB_BUFFER_SIZE];
      rxCount, rxIndex, txCount, txIndex := 0, 0, 0, 0;
    }

    ghost function EndsWith(serial: Mc6850): Ends
      requires Valid() && serial.Valid()
      reads this, rxBuf, txBuf, serial, serial.Repr
    {
      var d := serial.State();
      Ends(d.rx, d.tx, d.flags.rtsDeasserted, d.flags.hostCtsDeasserted, RxPending(), TxPending())
    }

    method RefillRx(usb: Usb) returns (ghost read: seq<byte>)
      requires Valid()
      modifies this`rxCount, this`rxIndex, rxBuf, usb`incoming, usb`tick
      ensures Valid() && (rxCount == 0 ==> rxIndex == 0)
      ensures RxPending() == old(RxPending()) + read && old(usb.incoming) == read + usb.incoming
    {
      read := [];
      if rxCount == 0 {
        ghost var before := usb.incoming;
        rxCount := usb.ReadN(rxBuf, USB_BUFFER_SIZE);
        rxIndex := 0;
        read := rxBuf[..rxCount];
      }
    }

    /** The burst towards the guest: its size is fixed by one look at the free room, and it never overfills
        the queue. */
    method Burst(serial: Mc6850) returns (n: nat)
      requires Valid() && serial.Valid() && Apart(serial)
      requires rxCount == 0 ==> rxIndex == 0
      modifies serial.Repr
      ensures serial.Valid() && RxPending() == old(RxPending())
      ensures n == Min(1023 - |old(serial.State()).rx|, |RxPending()|)
      ensures serial.State() == Fed(old(serial.State()), RxPending()[..n])
    {
      var level := serial.HostTransmitLevelAvail();
      n := Min(level, rxCount - rxIndex);
      ghost var before, s := serial.State(), RxPending();
      for i := 0 to n
        invariant serial.Valid() && serial.State() == Fed(before, s[..i])
        invariant RxPending() == s && |s| == rxCount - rxIndex
      {
        var ch := rxBuf[rxIndex + i];
        assert ch == s[i];
        FedOneMore(before, s, i);
        serial.HostTransmit(ch);
      }
    }

    method AdvanceRx(n: nat)
      requires Valid() && (rxCount == 0 ==> rxIndex == 0) && n <= rxCount - rxIndex
      modifies this`rxCount, this`rxIndex
      ensures Valid() && old(|RxPending()| == rxCount - rxIndex) && RxPending() == old(RxPending())[n..]
    {
      assert RxPending()[n..] == rxBuf[rxIndex + n..rxCount];
      rxIndex := rxIndex + n;
      if rxIndex >= rxCount {
        rxCount := 0;
      }
    }

    method Feed(serial: Mc6850) returns (ghost moved: seq<byte>)
      requires Valid() && serial.Valid() && Apart(serial)
      requires rxCount == 0 ==> rxIndex == 0
      modifies this`rxCount, this`rxIndex, serial.Repr
      ensures Valid() && serial.Valid() && serial.State() == Fed(old(serial.State()), moved)
      ensures moved + RxPending() == old(RxPending())
      ensures RxPending() == [] || |serial.State().rx| >= CAPACITY - 1
    {
      var n := Burst(serial);
      moved := RxPending()[..n];
      AdvanceRx(n);
    }

    method PumpIn(serial: Mc6850, usb: Usb) returns (ghost read: seq<byte>, ghost moved: seq<byte>)
      requires Valid() && serial.Valid() && Apart(serial)
      modifies this`rxCount, this`rxIndex, rxBuf, serial.Repr, usb`incoming, usb`tick
      ensures Valid() && serial.Valid() && old(usb.incoming) == read + usb.incoming
      ensures serial.State() == Fed(old(serial.State()), moved)
      ensures serial.State().rx + RxPending() == old(serial.State()).rx + old(RxPending()) + read
      ensures RxPending() == [] || |serial.State().rx| >= CAPACITY - 1
    {
      ghost var d, waiting := serial.State(), RxPending();
      read := RefillRx(usb);
      moved := Feed(serial);
      assert serial.State().rx == d.rx + moved;
      Regroup(d.rx, waiting, read, moved, RxPending());
    }

    method PumpInIfAllowed(serial: Mc6850, usb: Usb, suppressRead: bool) returns (ghost read: seq<byte>)
      requires Valid() && serial.Valid() && Apart(serial)
      modifies this`rxCount, this`rxIndex, rxBuf, serial.Repr, usb`incoming, usb`tick
      ensures Valid() && serial.Valid() && old(usb.incoming) == read + usb.incoming
      ensures PassedIn(old(EndsWith(serial)), EndsWith(serial), suppressRead, read)
      ensures EndsWith(serial).tx == old(EndsWith(serial)).tx
      ensures EndsWith(serial).txPending == old(EndsWith(serial)).txPending
    {
      if !serial.rtsDeasserted && !suppressRead {
        ghost var moved;
        read, moved := PumpIn(serial, usb);
      } else {
        read := [];
      }
    }

    method TakeOne(serial: Mc6850)
      requires Valid() && serial.Valid() && Apart(serial) && txCount < USB_BUFFER_SIZE && txIndex == 0
      requires serial.State().tx != []
      modifies this`txCount, txBuf, serial.Repr
      ensures Valid() && serial.Valid() && txCount == old(txCount) + 1
      ensures serial.State() == old(serial.State()).HostReceive()
      ensures txBuf[..txCount] == old(txBuf[..txCount]) + [old(serial.State()).tx[0]]
    {
      var ch := serial.HostReceive();
      txBuf[txCount] := ch;
      txCount := txCount + 1;
    }

    /** Bytes from the guest into the empty transmit buffer. */
    method FillTx(serial: Mc6850)
      requires Valid() && serial.Valid() && Apart(serial) && txCount == 0
      modifies this`txCount, this`txIndex, txBuf, serial.Repr
      ensures Valid() && serial.Valid() && (txCount == 0 ==> txIndex == 0)
      ensures TxPending() + serial.State().tx == old(serial.State()).tx
      ensures serial.State() == old(serial.State()).(tx := serial.State().tx)
      ensures |TxPending()| == Min(512, |old(serial.State()).tx|)
    {
      ghost var d, s, q := serial.State(), [], serial.State().tx;
      txIndex := 0;
      var avail := serial.HostReceiveAvail();
      while avail && txCount < USB_BUFFER_SIZE
        invariant Valid() && serial.Valid() && txIndex == 0
        invariant txBuf[..txCount] == s && s + q == d.tx
        invariant q == serial.State().tx && serial.State() == d.(tx := q)
        invariant avail <==> q != []
        decreases |q|
      {
        HeadMoves(s, q);
        TakeOne(serial);
        s, q := s + [q[0]], q[1..];
        avail := serial.HostReceiveAvail();
      }
    }

    method SendTx(usb: Usb) returns (ghost accepted: seq<byte>)
      requires Valid() && (txCount == 0 ==> txIndex == 0)
      modifies this`txCount, this`txIndex, usb`sent, usb`tick
      ensures Valid() && usb.sent == old(usb.sent) + accepted && accepted + TxPending() == old(TxPending())
    {
      ghost var waiting := TxPending();
      var written := usb.WriteN(txBuf[txIndex..txCount]);
      accepted := waiting[..written];
      txIndex := txIndex + written;
      if txIndex >= txCount {
        txCount := 0;
      }
    }

    method PumpOut(serial: Mc6850, usb: Usb) returns (ghost accepted: seq<byte>)
      requires Valid() && serial.Valid() && Apart(serial)
      modifies this`txCount, this`txIndex, txBuf, serial.Repr, usb`sent, usb`tick
      ensures Valid() && serial.Valid() && usb.sent == old(usb.sent) + accepted
      ensures PassedOut(old(EndsWith(serial)), EndsWith(serial), accepted)
      ensures EndsWith(serial)
           == old(EndsWith(serial)).(tx := EndsWith(serial).tx, txPending := EndsWith(serial).txPending)
    {
      if txCount == 0 {
        FillTx(serial);
      }
      ghost var waiting := TxPending();
      accepted := SendTx(usb);
      assert accepted + TxPending() + serial.State().tx == waiting + serial.State().tx;
    }

    method ReportCts(serial: Mc6850)
      requires Valid() && serial.Valid() && Apart(serial)
      modifies serial
      ensures serial.Valid() && serial.State() == old(serial.State()).SetHostCts(TxPending() != [])
      ensures EndsWith(serial) == old(EndsWith(serial)).(hostCtsDeasserted := TxPending() != [])
    {
      var cts := txCount > 0 && txIndex < txCount;
      serial.SetHostCts(cts);
    }

    /** `uart_port_pump`: a pass, whatever USB reads, accepts or refuses. */
    method Pump(serial: Mc6850, usb: Usb, suppressRead: bool) returns (ghost read: seq<byte>, ghost accepted: seq<byte>)
      requires Valid() && serial.Valid() && Apart(serial)
      modifies this, rxBuf, txBuf, serial.Repr, usb
      ensures Valid() && serial.Valid()
      ensures Passed(old(EndsWith(serial)), EndsWith(serial), suppressRead, read, accepted)
      ensures old(usb.incoming) == read + usb.incoming && usb.sent == old(usb.sent) + accepted
    {
      ghost var e0 := EndsWith(serial);
      read := PumpInIfAllowed(serial, usb, suppressRead);
      ghost var e1 := EndsWith(serial);
      accepted := PumpOut(serial, usb);
      HalvesAreAPass(e0, e1, EndsWith(serial), suppressRead, read, accepted);
      ReportCts(serial);
    }
  }
}
