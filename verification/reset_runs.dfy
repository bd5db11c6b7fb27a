/** What a master reset does to everything that comes after it. */
module ResetRuns {
  import opened Bytes
  import opened SpscQueues
  import opened Mc6850Spec
  import opened Mc6850Registers
  import opened WriteRings
  import opened Deferral

  /** What happens to the device: the early and the deferred part of a store, or something else. */
  datatype Op = Early(w: WriteEntry) | Late(w: WriteEntry) | Other(b: Background)

  predicate Possible(d: Device, op: Op)
  {
    op.Other? && op.b.HostGet? ==> d.tx != []
  }

  function Done(d: Device, op: Op): Device
    requires Possible(d, op)
  {
    match op
    case Early(w) => AtOnce(d, w)
    case Late(w) => Deliver(d, w)
    case Other(b) => InBackground(d, b)
  }

  /** What goes into the receive queue: a byte of the host, or one that queue loopback returns. */
  function PutBy(d: Device, op: Op): seq<byte>
  {
    match op
    case Other(HostPut(ch)) => [ch]
    case Late(w) =>
      if w.location == DataRegister && d.modes.loopbackQueue && !d.modes.loopbackClose then [w.value] else []
    case _ => []
  }

  /** What a poll or a receive turn brings from the queue into the data register. */
  function StagedBy(d: Device, op: Op): seq<byte>
    requires Possible(d, op)
  {
    if op.Other? && (op.b.Poll? || op.b.Receive?) && |Done(d, op).rx| < |d.rx| then [d.rx[0]] else []
  }

  datatype Outcome = Outcome(device: Device, put: seq<byte>, staged: seq<byte>)

  function Run(d: Device, ops: seq<Op>): Option<Outcome>
    decreases |ops|
  {
    if ops == [] then Some(Outcome(d, [], []))
    else if !Possible(d, ops[0]) then None
    else
      match Run(Done(d, ops[0]), ops[1..])
      case None => None
      case Some(o) => Some(Outcome(o.device, PutBy(d, ops[0]) + o.put, StagedBy(d, ops[0]) + o.staged))
  }

  /** Either the first byte of the queue is staged, or nothing, and then bytes may join or all may be gone. */
  lemma OpMoves(d: Device, op: Op)
    requires Possible(d, op)
    ensures var e, staged := Done(d, op), StagedBy(d, op);
      || (d.rx != [] && staged == [d.rx[0]] && e.rx == d.rx[1..])
      || (staged == [] && (e.rx == d.rx || e.rx == [] || e.rx == d.rx + PutBy(d, op)))
  {
    match op
    case Early(_) =>
    case Late(_) =>
    case Other(b) =>
  }

  lemma OpAccounts(d: Device, op: Op)
    requires Possible(d, op)
    ensures multiset(StagedBy(d, op)) + multiset(Done(d, op).rx) <= multiset(d.rx) + multiset(PutBy(d, op))
  {
    OpMoves(d, op);
    Moves(d.rx, Done(d, op).rx, StagedBy(d, op), PutBy(d, op));
  }

  lemma Moves(before: seq<byte>, after: seq<byte>, staged: seq<byte>, put: seq<byte>)
    requires || (before != [] && staged == [before[0]] && after == before[1..])
             || (staged == [] && (after == before || after == [] || after == before + put))
    ensures multiset(staged) + multiset(after) <= multiset(before) + multiset(put)
  {
    if before != [] {
      assert before == [before[0]] + before[1..];
    }
    assert multiset(before + put) == multiset(before) + multiset(put);
  }

  lemma Accounts(s: seq<byte>, s': seq<byte>, p: seq<byte>, p': seq<byte>, before: multiset<byte>,
                 between: multiset<byte>, after: multiset<byte>)
    requires multiset(s) + between <= before + multiset(p) && multiset(s') + after <= between + multiset(p')
    ensures multiset(s + s') + after <= before + multiset(p + p')
  {
    var t, t', q, q' := multiset(s), multiset(s'), multiset(p), multiset(p');
    assert multiset(s + s') == t + t' && multiset(p + p') == q + q';
    forall b
      ensures (t + t' + after)[b] <= (before + (q + q'))[b]
    {
      assert (t + between)[b] <= (before + q)[b] && (t' + after)[b] <= (between + q')[b];
    }
  }

  /** Whatever the device does, a staged byte is one that was put and has not been staged before. */
  lemma {:induction false} StagedWerePut(d: Device, ops: seq<Op>)
    requires Run(d, ops).Some?
    ensures var o := Run(d, ops).value;
      multiset(o.staged) + multiset(o.device.rx) <= multiset(d.rx) + multiset(o.put)
    decreases |ops|
  {
    if ops != [] {
      OpAccounts(d, ops[0]);
      StagedWerePut(Done(d, ops[0]), ops[1..]);
      var o := Run(Done(d, ops[0]), ops[1..]).value;
      Accounts(StagedBy(d, ops[0]), o.staged, PutBy(d, ops[0]), o.put, multiset(d.rx),
               multiset(Done(d, ops[0]).rx), multiset(o.device.rx));
    }
  }

  predicate Alike(d: Device, e: Device)
  {
    d == e.(cachedIrq := d.cachedIrq)
  }

  lemma EarlyAlike(d: Device, c: Interrupt, w: WriteEntry)
    ensures AtOnce(d.(cachedIrq := c), w) == AtOnce(d, w).(cachedIrq := c)
  {
  }

  lemma LateAlike(d: Device, c: Interrupt, w: WriteEntry)
    ensures Deliver(d.(cachedIrq := c), w) == Deliver(d, w).(cachedIrq := c)
  {
  }

  lemma PollAlike(d: Device, c: Interrupt)
    ensures d.flags.irqDirty ==> d.(cachedIrq := c).HasInterrupt() == d.HasInterrupt()
    ensures !d.flags.irqDirty ==> d.(cachedIrq := c).HasInterrupt() == d.HasInterrupt().(cachedIrq := c)
  {
    if d.flags.irqDirty {
      var e := d.(flags := d.flags.(irqDirty := false));
      assert e.(cachedIrq := c).Refreshed().Staged().Asserted() == e.Refreshed().Staged().Asserted().(cachedIrq := c);
    }
  }

  lemma BackgroundAlike(d: Device, c: Interrupt, b: Background)
    requires !b.Poll? && (b.HostGet? ==> d.tx != [])
    ensures InBackground(d.(cachedIrq := c), b) == InBackground(d, b).(cachedIrq := c)
  {
  }

  lemma OpKeepsAlike(d: Device, e: Device, op: Op)
    requires Alike(d, e) && Possible(d, op)
    ensures Possible(e, op) && Alike(Done(d, op), Done(e, op))
    ensures PutBy(d, op) == PutBy(e, op) && StagedBy(d, op) == StagedBy(e, op)
  {
    assert d.(cachedIrq := e.cachedIrq) == e;
    match op
    case Early(w) => EarlyAlike(d, e.cachedIrq, w);
    case Late(w) => LateAlike(d, e.cachedIrq, w);
    case Other(b) =>
      if b.Poll? {
        PollAlike(d, e.cachedIrq);
      } else {
        BackgroundAlike(d, e.cachedIrq, b);
      }
  }

  lemma {:induction false} RunKeepsAlike(d: Device, e: Device, ops: seq<Op>)
    requires Alike(d, e) && Run(d, ops).Some?
    ensures Run(e, ops).Some?
    ensures var o, p := Run(d, ops).value, Run(e, ops).value;
      o.put == p.put && o.staged == p.staged && Alike(o.device, p.device)
    decreases |ops|
  {
    if ops != [] {
      OpKeepsAlike(d, e, ops[0]);
      RunKeepsAlike(Done(d, ops[0]), Done(e, ops[0]), ops[1..]);
    }
  }

  /** No byte put before a master reset is staged after it: what is staged then was put since, each byte once;
      and all that happens since is the same for any two devices that were reset. */
  lemma NothingOldIsStaged(d: Device, d': Device, v: byte, ops: seq<Op>)
    requires v % 4 == 3 && Run(d.GuestControl(v), ops).Some?
    ensures Run(d'.GuestControl(v), ops).Some?
    ensures var o, o' := Run(d.GuestControl(v), ops).value, Run(d'.GuestControl(v), ops).value;
      && multiset(o.staged) + multiset(o.device.rx) <= multiset(o.put)
      && o.staged == o'.staged && Alike(o.device, o'.device)
  {
    MasterResetMeans(d, v);
    ResetForgets(d, d', v);
    StagedWerePut(d.GuestControl(v), ops);
    assert multiset(d.GuestControl(v).rx) == multiset{};
    RunKeepsAlike(d.GuestControl(v), d'.GuestControl(v), ops);
  }
}
