/** What one call of the pump does to the two byte streams, whoever models its steps. */
module PumpPasses {
  import opened Bytes

  const USB_BUFFER_SIZE := 512

  /** The queues of the device, its two flags towards the host, and the bytes in the buffers of the port:
      read from USB and not yet in the device, taken from the device and not yet accepted by USB. */
  datatype Ends = Ends(
    rx: seq<byte>,
    tx: seq<byte>,
    rtsDeasserted: bool,
    hostCtsDeasserted: bool,
    rxPending: seq<byte>,
    txPending: seq<byte>)

  /** Towards the guest the call moves all that it has and that fits, or nothing at all without permission. */
  ghost predicate PassedIn(before: Ends, after: Ends, suppress: bool, read: seq<byte>)
  {
    && after.rx + after.rxPending == before.rx + before.rxPending + read
    && after.rtsDeasserted == before.rtsDeasserted
    && if before.rtsDeasserted || suppress then after.rx == before.rx && read == []
       else after.rxPending == [] || |after.rx| >= 1023
  }

  /** From the guest it takes a bufferful once the last one is gone. */
  ghost predicate PassedOut(before: Ends, after: Ends, written: seq<byte>)
  {
    && written + after.txPending + after.tx == before.txPending + before.tx
    && |before.tx| - |after.tx| == if before.txPending == [] then Min(512, |before.tx|) else 0
  }

  /** One whole call, which got `read` from USB and had `written` accepted: both streams are conserved, and the
      device is told whether USB still owes it a buffer. */
  ghost predicate Passed(before: Ends, after: Ends, suppress: bool, read: seq<byte>, written: seq<byte>)
  {
    && PassedIn(before, after, suppress, read)
    && PassedOut(before, after, written)
    && (after.hostCtsDeasserted <==> after.txPending != [])
  }

  /** The receive half, the transmit half and the report, one after the other. */
  lemma HalvesAreAPass(e0: Ends, e1: Ends, e2: Ends, suppress: bool, read: seq<byte>, written: seq<byte>)
    requires PassedIn(e0, e1, suppress, read) && e1.tx == e0.tx && e1.txPending == e0.txPending
    requires PassedOut(e1, e2, written) && e2 == e1.(tx := e2.tx, txPending := e2.txPending)
    ensures Passed(e0, e2.(hostCtsDeasserted := e2.txPending != []), suppress, read, written)
  {
  }
}
