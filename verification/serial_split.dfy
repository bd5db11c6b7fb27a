/** The serial path with the drain loop of the write ring taken apart: interrupts come between its load of the
    tail, its two loads of the entry and its store of the tail, on the 32 slots as they are. As long as no
    turn meets a second overflow, this is the path of `SerialPath`, and all that is proved of that holds. */
module SerialSplit {
  import opened Bytes
  import opened Ring
  import opened WriteRings
  import opened WriteRingDrain
  import Runs = WriteRingRuns
  import opened Mc6850Spec
  import opened IoDriver
  import Path = SerialPath
  import opened SerialInvariant
  import opened SerialTransit
  import Theorems = SerialTheorems

  /** `sys` without its queue: the write ring is `ring`. */
  datatype Split = Split(sys: Path.Sys, ring: Ring32)

  datatype SplitAction = Whole(a: Path.Action) | Loop(st: Runs.Step)

  /** While the loop is in a turn, the main loop does nothing else. */
  ghost predicate SplitEnabled(c: Split, x: SplitAction)
  {
    && c.sys.WellFormed() && c.ring.Valid()
    && match x
       case Whole(a) =>
         !a.TakeEntry? && Path.Enabled(c.sys, a) && (OfMainLoop(a) ==> c.ring.drain.Idle?)
       case Loop(st) =>
         Runs.CanStep(c.ring, st) && (st.During? ==> !st.a.Push?) && (st.Begin? ==> c.sys.core1.Looping?)
  }

  ghost function PushedInto(r: Ring32, stores: seq<WriteEntry>): Ring32
    requires r.Valid()
  {
    if stores == [] then r else r.Push(stores[0])
  }

  ghost function SplitApply(c: Split, x: SplitAction): Split
    requires SplitEnabled(c, x)
  {
    match x
    case Whole(a) =>
      Split(Path.Apply(c.sys, a).(ring := []), PushedInto(c.ring, Path.Stores(c.sys, a)))
    case Loop(st) =>
      Split(if st.End? then c.sys.(core1 := Path.Dispatching(c.ring.drain.entry)) else c.sys,
            Runs.After(c.ring, st))
  }

  ghost predicate SplitLeads(c: Split, xs: seq<SplitAction>, d: Split)
    decreases |xs|
  {
    if xs == [] then c == d
    else SplitEnabled(c, xs[0]) && SplitLeads(SplitApply(c, xs[0]), xs[1..], d)
  }

  /** The guest stores in a turn of the loop that has met a full ring before. */
  ghost predicate SecondOverflow(c: Split, x: SplitAction)
  {
    && x.Whole? && c.sys.WellFormed() && Path.Stores(c.sys, x.a) != []
    && Runs.SecondOverflow(c.ring, Runs.During(Push(Path.Stores(c.sys, x.a)[0])))
  }

  ghost predicate AtMostOneOverflowATurn(c: Split, xs: seq<SplitAction>)
    decreases |xs|
  {
    xs == [] || (!SecondOverflow(c, xs[0]) && SplitEnabled(c, xs[0])
                 && AtMostOneOverflowATurn(SplitApply(c, xs[0]), xs[1..]))
  }

  /** The state of `SerialPath` that a state taken apart stands for: the main loop holds its entry from the
      moment it has loaded the tail. */
  ghost predicate Models(c: Split, a: Runs.Atomic, s: Path.Sys)
  {
    && Runs.StandsFor(c.ring, a)
    && (!c.ring.drain.Idle? ==> c.sys.core1.Looping?)
    && s == c.sys.(ring := a.queue,
                   core1 := if c.ring.drain.Idle? then c.sys.core1
                            else Path.Dispatching(a.taken[|a.taken| - 1]))
  }

  function QueueAfter(q: seq<WriteEntry>, stores: seq<WriteEntry>): seq<WriteEntry>
  {
    if stores == [] then q else Pushed(q, stores[0])
  }

  lemma PumpIsIndependent(x: Path.Sys, q: seq<WriteEntry>, k: Path.Core1, a: Path.Action)
    requires x.WellFormed() && Path.Enabled(x, a) && OfPump(a)
    ensures var y := x.(ring := q, core1 := k);
      && y.WellFormed() && Path.Enabled(y, a) && Path.Stores(y, a) == Path.Stores(x, a) == []
      && Path.Apply(y, a) == Path.Apply(x, a).(ring := q, core1 := k)
  {
    PumpLeavesGuest(x, a);
  }

  predicate OfHandler(a: Path.Action)
  {
    a.EnterIsr? || a.CheckSlot? || a.ReadLast? || a.ReadLost? || a.CheckMore? || a.SendNext? || a.CheckTdre?
    || a.SwitchTxOff?
  }

  lemma HandlerIsIndependent(x: Path.Sys, q: seq<WriteEntry>, k: Path.Core1, a: Path.Action)
    requires x.WellFormed() && Path.Enabled(x, a) && OfHandler(a)
    ensures var y := x.(ring := q, core1 := k);
      && y.WellFormed() && Path.Enabled(y, a) && Path.Stores(y, a) == Path.Stores(x, a)
      && Path.Apply(y, a) == Path.Apply(x, a).(ring := QueueAfter(q, Path.Stores(x, a)), core1 := k)
  {
  }

  lemma ForegroundIsIndependent(x: Path.Sys, q: seq<WriteEntry>, k: Path.Core1, a: Path.Action)
    requires x.WellFormed() && Path.Enabled(x, a) && !OfPump(a) && !OfMainLoop(a) && !OfHandler(a)
    ensures var y := x.(ring := q, core1 := k);
      && y.WellFormed() && Path.Enabled(y, a) && Path.Stores(y, a) == Path.Stores(x, a)
      && Path.Apply(y, a) == Path.Apply(x, a).(ring := QueueAfter(q, Path.Stores(x, a)), core1 := k)
  {
  }

  lemma GuestIsIndependent(x: Path.Sys, q: seq<WriteEntry>, k: Path.Core1, a: Path.Action)
    requires x.WellFormed() && Path.Enabled(x, a) && !OfPump(a) && !OfMainLoop(a)
    ensures var y := x.(ring := q, core1 := k);
      && y.WellFormed() && Path.Enabled(y, a) && Path.Stores(y, a) == Path.Stores(x, a)
      && Path.Apply(y, a) == Path.Apply(x, a).(ring := QueueAfter(q, Path.Stores(x, a)), core1 := k)
  {
    if OfHandler(a) {
      HandlerIsIndependent(x, q, k, a);
    } else {
      ForegroundIsIndependent(x, q, k, a);
    }
  }

  /** Neither the guest nor the pump looks at the queue or at the main loop. */
  lemma OthersAreIndependent(x: Path.Sys, q: seq<WriteEntry>, k: Path.Core1, a: Path.Action)
    requires x.WellFormed() && Path.Enabled(x, a) && !OfMainLoop(a)
    ensures var y := x.(ring := q, core1 := k);
      && y.WellFormed() && Path.Enabled(y, a) && Path.Stores(y, a) == Path.Stores(x, a)
      && Path.Apply(y, a) == Path.Apply(x, a).(ring := QueueAfter(q, Path.Stores(x, a)), core1 := k)
    ensures Path.Apply(x, a).core1 == x.core1
  {
    if OfPump(a) {
      PumpIsIndependent(x, q, k, a);
      PumpLeavesGuest(x, a);
    } else {
      GuestIsIndependent(x, q, k, a);
      GuestLeavesMainLoop(x, a);
    }
  }

  lemma MainLoopIsIndependent(x: Path.Sys, q: seq<WriteEntry>, a: Path.Action)
    requires x.WellFormed() && Path.Enabled(x, a) && OfMainLoop(a) && !a.TakeEntry?
    ensures var y := x.(ring := q);
      && y.WellFormed() && Path.Enabled(y, a) && Path.Stores(x, a) == []
      && Path.Apply(y, a) == Path.Apply(x, a).(ring := q)
  {
  }

  lemma WholeStep(c: Split, q: Runs.Atomic, s: Path.Sys, a: Path.Action) returns (b: Runs.Atomic)
    requires Models(c, q, s) && SplitEnabled(c, Whole(a)) && !SecondOverflow(c, Whole(a))
    ensures s.WellFormed() && Path.Enabled(s, a) && Models(SplitApply(c, Whole(a)), b, Path.Apply(s, a))
    ensures Path.Stores(s, a) == Path.Stores(c.sys, a)
  {
    var stores := Path.Stores(c.sys, a);
    if OfMainLoop(a) {
      MainLoopIsIndependent(c.sys, q.queue, a);
      b := q;
    } else {
      OthersAreIndependent(c.sys, q.queue, s.core1, a);
      b := if stores == [] then q else q.Push(stores[0]);
      if stores != [] {
        Runs.PushRefines(c.ring, q, stores[0]);
      }
    }
  }

  lemma BeginStep(c: Split, q: Runs.Atomic, s: Path.Sys)
    requires Models(c, q, s) && SplitEnabled(c, Loop(Runs.Begin))
    ensures s.WellFormed() && Path.Enabled(s, Path.TakeEntry) && q.queue != []
    ensures Models(SplitApply(c, Loop(Runs.Begin)), q.Take(), Path.Apply(s, Path.TakeEntry))
  {
    Runs.BeginRefines(c.ring, q);
  }

  lemma QuietStep(c: Split, q: Runs.Atomic, s: Path.Sys, x: SplitAction)
    requires Models(c, q, s) && x.Loop? && !x.st.Begin? && SplitEnabled(c, x)
    ensures Models(SplitApply(c, x), q, s)
  {
    if x.st.End? {
      Runs.EndRefines(c.ring, q);
    }
  }

  /** The guest stores while the 32 slots are full, no turn of the loop holds the oldest entry, and that is a
      store into the data register. */
  ghost predicate SplitOverwrites(c: Split, x: SplitAction)
  {
    && x.Whole? && c.sys.WellFormed() && Path.Stores(c.sys, x.a) != []
    && c.ring.Valid() && c.ring.drain.Idle?
    && Next(WRITE_RING_SIZE, c.ring.head) == c.ring.tail && c.ring.slots[c.ring.tail].location == DataRegister
  }

  ghost predicate SplitOverwritten(c: Split, xs: seq<SplitAction>)
    decreases |xs|
  {
    xs != [] && SplitEnabled(c, xs[0])
    && (SplitOverwrites(c, xs[0]) || SplitOverwritten(SplitApply(c, xs[0]), xs[1..]))
  }

  lemma FullRing(r: Ring32)
    requires r.Valid()
    ensures Next(WRITE_RING_SIZE, r.head) == r.tail <==> |r.Waiting()| == RING_ROOM
    ensures r.head != r.tail ==> r.Waiting() != [] && r.Waiting()[0] == r.slots[r.tail]
  {
  }

  /** Both paths lose the byte in flight in the same steps. */
  lemma OverwritesAlike(c: Split, q: Runs.Atomic, s: Path.Sys, a: Path.Action)
    requires Models(c, q, s) && SplitEnabled(c, Whole(a)) && !SecondOverflow(c, Whole(a))
    requires s.WellFormed() && Path.Stores(s, a) == Path.Stores(c.sys, a)
    ensures Overwrites(s, a) <==> SplitOverwrites(c, Whole(a))
  {
    FullRing(c.ring);
    if !c.ring.drain.Idle? && Path.Stores(c.sys, a) != [] {
      assert |[q.taken[|q.taken| - 1]] + q.queue| == |c.ring.Waiting()| + c.ring.dropped;
      assert |q.queue| < RING_ROOM;
    }
  }

  /** Every run taken apart, with at most one overflow in a turn, is a run of `SerialPath`. */
  lemma {:induction false} SplitRunIsRun(c: Split, q: Runs.Atomic, s: Path.Sys, xs: seq<SplitAction>, d: Split)
    returns (run: seq<Path.Action>, b: Runs.Atomic, t: Path.Sys)
    requires Models(c, q, s) && SplitLeads(c, xs, d) && AtMostOneOverflowATurn(c, xs)
    ensures Theorems.Leads(s, run, t) && Models(d, b, t)
    ensures Theorems.Overwritten(s, run) <==> SplitOverwritten(c, xs)
    decreases |xs|
  {
    if xs == [] {
      return [], q, s;
    }
    var x, c' := xs[0], SplitApply(c, xs[0]);
    if x.Whole? {
      var b' := WholeStep(c, q, s, x.a);
      OverwritesAlike(c, q, s, x.a);
      run, b, t := SplitRunIsRun(c', b', Path.Apply(s, x.a), xs[1..], d);
      run := [x.a] + run;
    } else if x.st.Begin? {
      BeginStep(c, q, s);
      run, b, t := SplitRunIsRun(c', q.Take(), Path.Apply(s, Path.TakeEntry), xs[1..], d);
      run := [Path.TakeEntry] + run;
    } else {
      QuietStep(c, q, s, x);
      run, b, t := SplitRunIsRun(c', q, s, xs[1..], d);
    }
  }

  function EmptyRing(): Ring32
  {
    Ring32(Copies(WriteEntry(Elsewhere, 0), WRITE_RING_SIZE), 0, 0, Idle, [], [], 0)
  }

  ghost function SplitInitial(): Split
  {
    Split(Theorems.Initial().(ring := []), EmptyRing().Push(WriteEntry(ControlRegister, IQ_RX)))
  }

  lemma SplitRunFromStart(xs: seq<SplitAction>, d: Split)
    returns (run: seq<Path.Action>, b: Runs.Atomic, t: Path.Sys)
    requires SplitLeads(SplitInitial(), xs, d) && AtMostOneOverflowATurn(SplitInitial(), xs)
    ensures Theorems.Leads(Theorems.Initial(), run, t) && Models(d, b, t)
    ensures Theorems.Overwritten(Theorems.Initial(), run) <==> SplitOverwritten(SplitInitial(), xs)
  {
    var e := WriteEntry(ControlRegister, IQ_RX);
    Runs.IdlePush(EmptyRing(), e);
    var q := Runs.Atomic([e], [e], []);
    run, b, t := SplitRunIsRun(SplitInitial(), q, Theorems.Initial(), xs, d);
  }

  /** So the states of the path taken apart are those of `SerialPath`, but for the ring and the main loop. */
  lemma SplitStatesAreReachable(xs: seq<SplitAction>, d: Split) returns (t: Path.Sys)
    requires SplitLeads(SplitInitial(), xs, d) && AtMostOneOverflowATurn(SplitInitial(), xs)
    ensures Theorems.Reachable(t) && t == d.sys.(ring := t.ring, core1 := t.core1)
    ensures d.ring.Valid() && (d.ring.drain.Idle? ==> t.ring == d.ring.Waiting() && t.core1 == d.sys.core1)
  {
    var run, b;
    run, b, t := SplitRunFromStart(xs, d);
  }

  /** Host to guest: no byte is lost, doubled or out of order, however the drain is preempted. */
  lemma SplitHostToGuestExactlyOnce(xs: seq<SplitAction>, d: Split)
    requires SplitLeads(SplitInitial(), xs, d) && AtMostOneOverflowATurn(SplitInitial(), xs)
    ensures d.sys.WellFormed() && !d.sys.cpu.RxLostRead?
    ensures d.sys.hist.usbIn == d.sys.hist.inched + d.sys.port.RxRing() + InRegister(d.sys) + d.sys.device.rx
                                + d.sys.pump.RxRest()
  {
    var t := SplitStatesAreReachable(xs, d);
    Theorems.HostToGuestExactlyOnce(t);
    Theorems.ReceiveNeverOverflows(t);
  }

  /** The bytes for the data register between the guest's store and the device: with the main loop, in the
      slot that the loop is reading, and in the slots behind it. */
  ghost function SplitTransit(c: Split): seq<byte>
    requires c.ring.Valid()
  {
    var r := c.ring;
    if r.drain.Idle? then InTransit(r.Waiting(), c.sys.core1)
    else
      DataOf(r.slots[r.drain.t])
      + DataIn(if r.dropped == 0 && r.Waiting() != [] then r.Waiting()[1..] else r.Waiting())
  }

  lemma TransitAlike(c: Split, q: Runs.Atomic, s: Path.Sys)
    requires Models(c, q, s)
    ensures SplitTransit(c) == InTransit(s.ring, s.core1)
  {
    if !c.ring.drain.Idle? {
      var todo := [q.taken[|q.taken| - 1]] + q.queue;
      assert Window(c.ring, todo) && todo[1..] == q.queue;
    }
  }

  /** What is in the places between OUTCH and USB, from the far end. */
  ghost function SplitOnItsWay(d: Split): seq<byte>
    requires d.sys.WellFormed() && d.ring.Valid()
  {
    d.sys.hist.usbOut + d.sys.pump.TxRest() + d.sys.device.tx + SplitTransit(d) + d.sys.port.TxRing()
  }

  /** Guest to host: the bytes given to OUTCH are those in the places on their way, in order, if and only if no
      store found the 32 slots full between two turns with a data store in the oldest; at most one byte is ever
      missing, what USB has is a prefix in any case, and the transmit queue stays within its bound. */
  lemma SplitGuestToHostExactlyOnce(xs: seq<SplitAction>, d: Split)
    requires SplitLeads(SplitInitial(), xs, d) && AtMostOneOverflowATurn(SplitInitial(), xs)
    ensures d.sys.WellFormed() && d.ring.Valid()
    ensures d.sys.hist.outched == SplitOnItsWay(d) <==> !SplitOverwritten(SplitInitial(), xs)
    ensures |SplitOnItsWay(d)| <= |d.sys.hist.outched| <= |SplitOnItsWay(d)| + 1
    ensures d.sys.hist.usbOut <= d.sys.hist.txWritten <= d.sys.hist.outched && |d.sys.device.tx| <= 801
  {
    var run, b, t := SplitRunFromStart(xs, d);
    Theorems.GuestToHostExactlyOnce(run, t);
    Theorems.TransmitNeverOverflows(t);
    TransitAlike(d, b, t);
    assert SplitOnItsWay(d) == Theorems.OnItsWay(t);
  }
}
