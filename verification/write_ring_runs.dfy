/** The write ring over whole runs: any number of pushes and drain turns, interleaved in any way. */
module WriteRingRuns {
  import opened Bytes
  import opened Ring
  import opened WriteRings
  import opened WriteRingDrain

  // ----- pushes and takes as single steps -----

  /** The ring as a queue, with all that was ever pushed and all that was ever taken. */
  datatype Atomic = Atomic(queue: seq<WriteEntry>, pushed: seq<WriteEntry>, taken: seq<WriteEntry>)
  {
    function Push(e: WriteEntry): Atomic
    {
      Atomic(Pushed(queue, e), pushed + [e], taken)
    }

    function Take(): Atomic
      requires queue != []
    {
      Atomic(queue[1..], pushed, taken + [queue[0]])
    }
  }

  datatype AtomicStep = Store(e: WriteEntry) | Drain

  function AtomicRun(a: Atomic, steps: seq<AtomicStep>): Option<Atomic>
    decreases |steps|
  {
    if steps == [] then Some(a)
    else
      match steps[0]
      case Store(e) => AtomicRun(a.Push(e), steps[1..])
      case Drain => if a.queue == [] then None else AtomicRun(a.Take(), steps[1..])
  }

  /** Some push of the run met a full ring. */
  predicate Overflows(a: Atomic, steps: seq<AtomicStep>)
    decreases |steps|
  {
    steps != []
    && match steps[0]
       case Store(e) => |a.queue| == RING_ROOM || Overflows(a.Push(e), steps[1..])
       case Drain => a.queue != [] && Overflows(a.Take(), steps[1..])
  }

  predicate IsSuffix(q: seq<WriteEntry>, s: seq<WriteEntry>)
  {
    |q| <= |s| && q == s[|s| - |q|..]
  }

  /** What is in the ring are the newest of the pushed entries, at most 31 of them and in order. */
  ghost predicate HoldsNewest(a: Atomic)
  {
    IsSuffix(a.queue, a.pushed) && |a.queue| <= 31 && |a.taken| + |a.queue| <= |a.pushed|
  }

  function Lost(a: Atomic): int { |a.pushed| - |a.taken| - |a.queue| }

  lemma PushHoldsNewest(a: Atomic, e: WriteEntry)
    requires HoldsNewest(a)
    ensures HoldsNewest(a.Push(e)) && Lost(a.Push(e)) == Lost(a) + if |a.queue| == RING_ROOM then 1 else 0
    ensures a.pushed == a.taken + a.queue && |a.queue| < RING_ROOM ==>
      a.Push(e).pushed == a.Push(e).taken + a.Push(e).queue
  {
    Associates(a.taken, a.queue, [e]);
  }

  lemma TakeHoldsNewest(a: Atomic)
    requires HoldsNewest(a) && a.queue != []
    ensures HoldsNewest(a.Take()) && Lost(a.Take()) == Lost(a) && a.taken <= a.Take().taken
    ensures a.pushed == a.taken + a.queue ==> a.Take().pushed == a.Take().taken + a.Take().queue
  {
    Associates(a.taken, [a.queue[0]], a.queue[1..]);
    assert [a.queue[0]] + a.queue[1..] == a.queue;
  }

  /** That holds at any time, however pushes and takes alternate; and nothing was lost if and only if no push
      met a full ring. */
  lemma {:induction false} RingHoldsNewestAlways(a: Atomic, steps: seq<AtomicStep>)
    requires HoldsNewest(a) && AtomicRun(a, steps).Some?
    ensures var b := AtomicRun(a, steps).value;
      && HoldsNewest(b) && a.taken <= b.taken && Lost(b) >= Lost(a)
      && (a.pushed == a.taken + a.queue ==> (b.pushed == b.taken + b.queue <==> !Overflows(a, steps)))
    decreases |steps|
  {
    if steps != [] {
      match steps[0] {
        case Store(e) =>
          PushHoldsNewest(a, e);
          RingHoldsNewestAlways(a.Push(e), steps[1..]);
        case Drain =>
          TakeHoldsNewest(a);
          RingHoldsNewestAlways(a.Take(), steps[1..]);
      }
    }
  }

  // ----- the drain loop preempted between any two of its accesses -----

  datatype Step = Begin | During(a: Action) | End

  ghost predicate CanStep(r: Ring32, st: Step)
  {
    r.Valid()
    && match st
       case Begin => r.drain.Idle? && r.head != r.tail
       case During(a) => Enabled(r, a)
       case End => r.drain.HasBoth?
  }

  ghost function After(r: Ring32, st: Step): Ring32
    requires CanStep(r, st)
  {
    match st
    case Begin => r.LoadTail()
    case During(a) => Apply(r, a)
    case End => r.StoreTail()
  }

  ghost predicate Follows(r: Ring32, steps: seq<Step>, u: Ring32)
    decreases |steps|
  {
    if steps == [] then r == u
    else CanStep(r, steps[0]) && Follows(After(r, steps[0]), steps[1..], u)
  }

  /** A push that meets a full ring. */
  ghost predicate MeetsFull(r: Ring32, st: Step)
  {
    st.During? && st.a.Push? && r.Valid() && Next(WRITE_RING_SIZE, r.head) == r.tail
  }

  ghost predicate NeverMeetsFull(r: Ring32, steps: seq<Step>)
    decreases |steps|
  {
    steps == [] || (!MeetsFull(r, steps[0]) && CanStep(r, steps[0])
                    && NeverMeetsFull(After(r, steps[0]), steps[1..]))
  }

  /** Every entry is delivered or waiting; inside a turn the loop holds the first that waits. */
  ghost predicate Exact(r: Ring32)
  {
    r.Valid() && r.ExactlyOnce() && (r.drain.Idle? || (r.dropped == 0 && Window(r, r.Waiting())))
  }

  lemma IdlePush(r: Ring32, e: WriteEntry)
    requires r.Valid()
    ensures r.Push(e).Valid()
    ensures r.Push(e).Waiting() == Pushed(r.Waiting(), e)
  {
    var u := r.Push(e);
    if Next(WRITE_RING_SIZE, r.head) == r.tail {
      PutContents(r.slots, r.head, u.tail, e);
      assert Contents(r.slots, r.head, u.tail) == r.Waiting()[1..];
    } else {
      PutContents(r.slots, r.head, r.tail, e);
    }
  }

  lemma PushIsExact(r: Ring32, e: WriteEntry)
    requires Exact(r) && !MeetsFull(r, During(Push(e)))
    ensures Exact(r.Push(e))
  {
    IdlePush(r, e);
    assert r.delivered + r.Waiting() + [e] == r.delivered + (r.Waiting() + [e]);
    if !r.drain.Idle? {
      PushWithRoom(r, r.Waiting(), e);
    }
  }

  lemma EndIsExact(r: Ring32)
    requires Exact(r) && r.drain.HasBoth?
    ensures Exact(r.StoreTail())
  {
    var q := r.Waiting();
    StoreTailEnds(r, q);
    assert r.delivered + [q[0]] + q[1..] == r.delivered + q;
  }

  lemma StepIsExact(r: Ring32, st: Step)
    requires Exact(r) && CanStep(r, st) && !MeetsFull(r, st)
    ensures Exact(After(r, st))
  {
    match st {
      case Begin =>
      case During(a) =>
        if a.Push? {
          PushIsExact(r, a.e);
        }
      case End => EndIsExact(r);
    }
  }

  /** With no push on a full ring, however pushes preempt the loop, over any number of turns: every entry is
      delivered or waiting, exactly once and in order, at every moment. */
  lemma {:induction false} RunIsExactlyOnce(r: Ring32, steps: seq<Step>, u: Ring32)
    requires Exact(r) && Follows(r, steps, u) && NeverMeetsFull(r, steps)
    ensures Exact(u)
    decreases |steps|
  {
    if steps != [] {
      StepIsExact(r, steps[0]);
      RunIsExactlyOnce(After(r, steps[0]), steps[1..], u);
    }
  }

  // ----- turns as single takes -----

  /** A second push in one turn that meets a full ring. */
  ghost predicate SecondOverflow(r: Ring32, st: Step)
  {
    MeetsFull(r, st) && !r.drain.Idle? && r.dropped > 0
  }

  ghost predicate AtMostOneOverflowATurn(r: Ring32, steps: seq<Step>)
    decreases |steps|
  {
    steps == [] || (!SecondOverflow(r, steps[0]) && CanStep(r, steps[0])
                    && AtMostOneOverflowATurn(After(r, steps[0]), steps[1..]))
  }

  /** A turn stands for one take, made when the loop loads the tail. */
  function AtomicOf(steps: seq<Step>): seq<AtomicStep>
    decreases |steps|
  {
    if steps == [] then []
    else
      (match steps[0]
       case Begin => [Drain]
       case During(Push(e)) => [Store(e)]
       case _ => [])
      + AtomicOf(steps[1..])
  }

  /** Inside a turn the queue has let go of the entry that the loop holds. */
  ghost predicate StandsFor(r: Ring32, a: Atomic)
  {
    && r.Valid() && a.pushed == r.pushed
    && if r.drain.Idle? then a.queue == r.Waiting() && a.taken == r.delivered
       else a.taken != [] && r.delivered == a.taken[..|a.taken| - 1] && r.dropped <= 1
            && Window(r, [a.taken[|a.taken| - 1]] + a.queue)
  }

  lemma BeginRefines(r: Ring32, a: Atomic)
    requires StandsFor(r, a) && CanStep(r, Begin)
    ensures a.queue != [] && StandsFor(r.LoadTail(), a.Take())
  {
    assert [a.queue[0]] + a.queue[1..] == a.queue;
  }

  lemma PushRefines(r: Ring32, a: Atomic, e: WriteEntry)
    requires StandsFor(r, a) && !SecondOverflow(r, During(Push(e)))
    ensures StandsFor(r.Push(e), a.Push(e))
  {
    if r.drain.Idle? {
      IdlePush(r, e);
    } else {
      var todo := [a.taken[|a.taken| - 1]] + a.queue;
      PushKeepsWindow(r, todo, e);
      assert todo + [e] == [a.taken[|a.taken| - 1]] + (a.queue + [e]);
    }
  }

  lemma EndRefines(r: Ring32, a: Atomic)
    requires StandsFor(r, a) && r.drain.HasBoth?
    ensures StandsFor(r.StoreTail(), a)
  {
    var todo := [a.taken[|a.taken| - 1]] + a.queue;
    StoreTailEnds(r, todo);
    assert todo[1..] == a.queue;
  }

  /** As long as no turn meets a second overflow, the preempted loop does what a loop does whose takes are
      single steps: the same queue, the same entries taken in the same order. */
  lemma {:induction false} TurnsAreTakes(r: Ring32, a: Atomic, steps: seq<Step>, u: Ring32)
    requires StandsFor(r, a) && Follows(r, steps, u) && AtMostOneOverflowATurn(r, steps)
    ensures AtomicRun(a, AtomicOf(steps)).Some? && StandsFor(u, AtomicRun(a, AtomicOf(steps)).value)
    decreases |steps|
  {
    if steps != [] {
      var st, later := steps[0], steps[1..];
      match st {
        case Begin =>
          BeginRefines(r, a);
          TurnsAreTakes(r.LoadTail(), a.Take(), later, u);
          assert AtomicOf(steps)[0] == Drain && AtomicOf(steps)[1..] == AtomicOf(later);
        case During(Push(e)) =>
          PushRefines(r, a, e);
          TurnsAreTakes(r.Push(e), a.Push(e), later, u);
          assert AtomicOf(steps)[0] == Store(e) && AtomicOf(steps)[1..] == AtomicOf(later);
        case During(_) =>
          TurnsAreTakes(Apply(r, st.a), a, later, u);
          assert AtomicOf(steps) == AtomicOf(later);
        case End =>
          EndRefines(r, a);
          TurnsAreTakes(r.StoreTail(), a, later, u);
          assert AtomicOf(steps) == AtomicOf(later);
      }
    }
  }

  // ----- what a second overflow does -----

  lemma FirstIsPushed(q: seq<WriteEntry>, run: seq<Action>)
    requires run != []
    ensures PushedAll(q, Pushes(run))
         == PushedAll(if run[0].Push? then Pushed(q, run[0].e) else q, Pushes(run[1..]))
  {
    var es := Pushes(run[1..]);
    if run[0].Push? {
      assert Pushes(run) == [run[0].e] + es;
      assert ([run[0].e] + es)[1..] == es;
    } else {
      assert Pushes(run) == es;
    }
  }

  lemma StepPushes(r: Ring32, a: Action)
    requires r.Valid() && Enabled(r, a)
    ensures var u := Apply(r, a);
      u.Valid() && u.Waiting() == if a.Push? then Pushed(r.Waiting(), a.e) else r.Waiting()
  {
    if a.Push? {
      IdlePush(r, a.e);
    }
  }

  /** The ring only takes the pushes, whatever the loop has loaded. */
  lemma {:induction false} RingIsPushedAll(r: Ring32, run: seq<Action>, u: Ring32)
    requires r.Valid() && Leads(r, run, u)
    ensures u.Valid() && u.Waiting() == PushedAll(r.Waiting(), Pushes(run))
    decreases |run|
  {
    if run != [] {
      StepPushes(r, run[0]);
      RingIsPushedAll(Apply(r, run[0]), run[1..], u);
      FirstIsPushed(r.Waiting(), run);
    }
  }

  lemma LevelBehind(head: nat, tail: nat, t: nat, d: nat)
    requires head < WRITE_RING_SIZE && t < WRITE_RING_SIZE && tail == (t + d) % WRITE_RING_SIZE
    requires Level(WRITE_RING_SIZE, head, tail) == RING_ROOM
    ensures Level(WRITE_RING_SIZE, head, Next(WRITE_RING_SIZE, t)) == (RING_ROOM + d - 1) % WRITE_RING_SIZE
  {
    var q, e := d / WRITE_RING_SIZE, d % WRITE_RING_SIZE;
    assert d == WRITE_RING_SIZE * q + e;
    assert tail == if t + e < WRITE_RING_SIZE then t + e else t + e - WRITE_RING_SIZE;
    assert (RING_ROOM + d - 1) % WRITE_RING_SIZE == if e < 2 then 30 + e else e - 2;
  }

  /** The loop's store of the tail leaves so many entries, whatever the ring had. */
  lemma StoredTailLevel(u: Ring32, todo: seq<WriteEntry>)
    requires Window(u, todo) && u.drain.HasBoth?
    ensures Level(WRITE_RING_SIZE, u.head, Next(WRITE_RING_SIZE, u.drain.t)) == (|todo| - 1) % WRITE_RING_SIZE
    ensures (|todo| - 1) % WRITE_RING_SIZE <= Level(WRITE_RING_SIZE, u.head, u.tail)
  {
    if u.dropped > 0 {
      LevelBehind(u.head, u.tail, u.drain.t, u.dropped);
    }
  }

  /** The loop's store of the tail leaves the last of the entries that wait, as many as `n` modulo 32. */
  ghost predicate Leaves(u: Ring32, n: nat)
  {
    && u.Valid() && u.drain.HasBoth? && u.StoreTail().Valid()
    && var w, k := u.Waiting(), n % WRITE_RING_SIZE; k <= |w| && u.StoreTail().Waiting() == w[|w| - k..]
  }

  lemma StoredTailWaiting(u: Ring32, todo: seq<WriteEntry>)
    requires Window(u, todo) && u.drain.HasBoth?
    ensures Leaves(u, |todo| - 1)
  {
    StoredTailLevel(u, todo);
    ContentsSuffix(u.slots, u.head, u.tail, Next(WRITE_RING_SIZE, u.drain.t));
  }

  lemma UndeliveredCount(r: Ring32, run: seq<Action>, u: Ring32) returns (todo: seq<WriteEntry>)
    requires r.Valid() && r.drain.Idle? && r.Waiting() != [] && Leads(r.LoadTail(), run, u)
    ensures Window(u, todo) && |todo| == |r.Waiting()| + |Pushes(run)|
  {
    todo := Undelivered(r, run, u);
  }

  lemma TurnLeaves(r: Ring32, run: seq<Action>, u: Ring32)
    requires r.Valid() && r.drain.Idle? && r.Waiting() != []
    requires Leads(r.LoadTail(), run, u) && u.drain.HasBoth?
    ensures Leaves(u, |r.Waiting()| + |Pushes(run)| - 1)
  {
    var todo := UndeliveredCount(r, run, u);
    StoredTailWaiting(u, todo);
  }

  lemma TurnHoldsNewest(r: Ring32, run: seq<Action>, u: Ring32)
    requires r.Valid() && Leads(r.LoadTail(), run, u) && |r.Waiting()| <= RING_ROOM
    ensures u.Valid() && u.Waiting() == Newest(r.Waiting() + Pushes(run), RING_ROOM)
  {
    assert r.LoadTail().Waiting() == r.Waiting();
    RingIsPushedAll(r.LoadTail(), run, u);
    RingHoldsNewest(r.Waiting(), Pushes(run));
  }

  lemma LeavesNewest(u: Ring32, all: seq<WriteEntry>)
    requires all != [] && Leaves(u, |all| - 1) && u.Waiting() == Newest(all, RING_ROOM)
    ensures u.StoreTail().Waiting() == Newest(all, (|all| - 1) % WRITE_RING_SIZE)
  {
  }

  /** After a turn there wait the newest of all the entries that it found or that preempted it, as many as
      their number less one modulo 32. Up to one overflow that is all but the entry taken; the second one
      loses all 31 that wait, and each further one brings back one. */
  lemma TurnLeavesNewest(r: Ring32, run: seq<Action>, u: Ring32)
    requires r.Valid() && r.drain.Idle? && r.Waiting() != []
    requires Leads(r.LoadTail(), run, u) && u.Valid() && u.drain.HasBoth?
    ensures var all := r.Waiting() + Pushes(run);
      u.StoreTail().Waiting() == Newest(all, (|all| - 1) % 32)
  {
    TurnLeaves(r, run, u);
    TurnHoldsNewest(r, run, u);
    LeavesNewest(u, r.Waiting() + Pushes(run));
  }

  lemma {:induction false} ManyPushes(r: Ring32, e: WriteEntry, k: nat) returns (u: Ring32)
    requires r.Valid() && r.drain.HasLocation? && k <= WRITE_RING_SIZE
    requires r.head == Next(WRITE_RING_SIZE, r.drain.t)
    ensures Leads(r, Copies(Push(e), k), u) && u.Valid() && u.drain == r.drain
    ensures u.head == (r.drain.t + 1 + k) % WRITE_RING_SIZE
    ensures u.slots[r.drain.t] == if k == WRITE_RING_SIZE then e else r.slots[r.drain.t]
    decreases k
  {
    if k == 0 {
      u := r;
    } else {
      var v := ManyPushes(r, e, k - 1);
      u := v.Push(e);
      StepKeepsValid(v, Push(e));
      assert Copies(Push(e), k) == Copies(Push(e), k - 1) + [Push(e)];
      LeadsOn(r, Copies(Push(e), k - 1), v, Push(e));
      HeadAdvances(r.drain.t, k, v.head);
    }
  }

  /** The writing index comes to the slot `t` with the last of the pushes. */
  lemma HeadAdvances(t: nat, k: nat, head: nat)
    requires t < WRITE_RING_SIZE && 1 <= k <= WRITE_RING_SIZE && head == (t + k) % WRITE_RING_SIZE
    ensures Next(WRITE_RING_SIZE, head) == (t + 1 + k) % WRITE_RING_SIZE
    ensures head == t <==> k == WRITE_RING_SIZE
  {
  }

  lemma {:induction false} LeadsOn(r: Ring32, run: seq<Action>, v: Ring32, a: Action)
    requires Leads(r, run, v) && v.Valid() && Enabled(v, a)
    ensures Leads(r, run + [a], Apply(v, a))
    decreases |run|
  {
    if run == [] {
      assert run + [a] == [a] && [a][1..] == [];
    } else {
      assert (run + [a])[1..] == run[1..] + [a];
      LeadsOn(Apply(r, run[0]), run[1..], v, a);
    }
  }

  /** Two overflows between the loop's loads make it act on an entry that nobody stored: the place of one
      store with the value of another, so that a data byte can arrive as a control byte. */
  lemma SecondOverflowTears(r: Ring32, e: WriteEntry) returns (u: Ring32)
    requires r.Valid() && r.drain.Idle? && r.head == Next(WRITE_RING_SIZE, r.tail)
    ensures Leads(r.LoadTail(), [Location] + Copies(Push(e), WRITE_RING_SIZE) + [Value], u)
    ensures r.Waiting() == [r.slots[r.tail]]
    ensures u.drain == HasBoth(r.tail, WriteEntry(r.slots[r.tail].location, e.value))
  {
    var l := r.LoadTail().LoadLocation();
    var v := ManyPushes(l, e, WRITE_RING_SIZE);
    u := v.LoadValue();
    LeadsOn(l, Copies(Push(e), WRITE_RING_SIZE), v, Value);
    var run := [Location] + Copies(Push(e), WRITE_RING_SIZE) + [Value];
    assert run[1..] == Copies(Push(e), WRITE_RING_SIZE) + [Value];
    assert Contents(r.slots, r.head, r.head) == [];
  }
}
