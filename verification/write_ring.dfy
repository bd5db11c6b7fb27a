/** The 32-slot ring through which the write interrupt handler hands the guest's stores to the main loop. */
module WriteRings {
  import opened Bytes
  import opened Ring

  const WRITE_RING_SIZE := 32
  const RING_ROOM := 31

  /** One push by the interrupt handler: when the ring is full the oldest entry goes. */
  function Pushed<T>(q: seq<T>, e: T): (r: seq<T>)
    ensures |q| <= RING_ROOM ==> |r| <= RING_ROOM
  {
    if |q| == RING_ROOM then q[1..] + [e] else q + [e]
  }

  function PushedAll<T>(q: seq<T>, es: seq<T>): seq<T>
    decreases |es|
  {
    if es == [] then q else PushedAll(Pushed(q, es[0]), es[1..])
  }

  function Newest<T>(q: seq<T>, n: nat): seq<T>
  {
    if |q| <= n then q else q[|q| - n..]
  }

  /** The ring holds the newest 31 of the undelivered stores, in order. */
  lemma {:induction false} RingHoldsNewest<T>(q: seq<T>, es: seq<T>)
    requires |q| <= RING_ROOM
    ensures PushedAll(q, es) == Newest(q + es, 31)
    decreases |es|
  {
    if es == [] {
      assert q + es == q;
    } else {
      RingHoldsNewest(Pushed(q, es[0]), es[1..]);
      assert q + es == q + [es[0]] + es[1..];
    }
  }

  /** What a store addresses, as far as the serial port is concerned. */
  datatype Location = ControlRegister | DataRegister | Elsewhere

  datatype WriteEntry = WriteEntry(location: Location, value: byte)

  /** The ring as the interrupt handler and the main loop share it. */
  class WriteRing {
    const slots: array<WriteEntry>
    var head: nat
    var tail: nat

    ghost predicate Valid()
      reads this
    {
      slots.Length == WRITE_RING_SIZE && head < WRITE_RING_SIZE && tail < WRITE_RING_SIZE
    }

    ghost function Waiting(): (q: seq<WriteEntry>)
      requires Valid()
      reads this, slots
      ensures |q| <= RING_ROOM
    {
      Contents(slots[..], head, tail)
    }

    constructor ()
      ensures Valid() && Waiting() == [] && fresh(slots)
    {
      slots := new WriteEntry[WRITE_RING_SIZE](_ => WriteEntry(Elsewhere, 0));
      head, tail := 0, 0;
    }

    /** Room for one more: when the ring is full, the oldest entry goes. */
    method MakeRoom()
      requires Valid()
      modifies this`tail
      ensures Valid() && |Waiting()| < RING_ROOM
      ensures Waiting() == if |old(Waiting())| == RING_ROOM then old(Waiting())[1..] else old(Waiting())
    {
      if (head + 1) % WRITE_RING_SIZE == tail {
        tail := (tail + 1) % WRITE_RING_SIZE;
      }
    }

    method StoreAtHead(e: WriteEntry)
      requires Valid() && |Waiting()| < RING_ROOM
      modifies this`head, slots
      ensures Valid() && Waiting() == old(Waiting()) + [e]
    {
      ghost var before := slots[..];
      PutContents(before, head, tail, e);
      slots[head] := e;
      assert slots[..] == before[head := e];
      head := (head + 1) % WRITE_RING_SIZE;
    }

    /** The end of the write interrupt handler. */
    method Push(location: Location, value: byte)
      requires Valid()
      modifies this, slots
      ensures Valid() && Waiting() == Pushed(old(Waiting()), WriteEntry(location, value))
    {
      MakeRoom();
      StoreAtHead(WriteEntry(location, value));
    }

    /** One turn of the drain loop, undisturbed. */
    method Take() returns (e: WriteEntry)
      requires Valid() && Waiting() != []
      modifies this`tail
      ensures Valid() && [e] + Waiting() == old(Waiting())
    {
      var t := tail;
      var location := slots[t].location;
      var value := slots[t].value;
      tail := (t + 1) % WRITE_RING_SIZE;
      e := WriteEntry(location, value);
    }
  }
}

/** The drain loop with the interrupt handler preempting it between any two of its accesses. */
module WriteRingDrain {
  import opened Bytes
  import opened Ring
  import opened WriteRings

  datatype Drain =
    | Idle
    | HasTail(t: nat)
    | HasLocation(t: nat, location: Location)
    | HasBoth(t: nat, entry: WriteEntry)

  /** `pushed` are all stores since the ring was empty, `delivered` the entries that the loop has taken, and
      `dropped` counts the pushes that found the ring full since the loop last loaded the tail. */
  datatype Ring32 = Ring32(
    slots: seq<WriteEntry>,
    head: nat,
    tail: nat,
    drain: Drain,
    pushed: seq<WriteEntry>,
    delivered: seq<WriteEntry>,
    dropped: nat)
  {
    ghost predicate Valid()
    {
      && |slots| == WRITE_RING_SIZE && head < WRITE_RING_SIZE && tail < WRITE_RING_SIZE
      && (!drain.Idle? ==> drain.t < WRITE_RING_SIZE)
    }

    ghost function Waiting(): seq<WriteEntry>
      requires Valid()
    {
      Contents(slots, head, tail)
    }

    ghost predicate ExactlyOnce()
      requires Valid()
    {
      pushed == delivered + Waiting()
    }

    function Push(e: WriteEntry): Ring32
      requires Valid()
    {
      var full := Next(WRITE_RING_SIZE, head) == tail;
      this.(slots := slots[head := e],
            head := Next(WRITE_RING_SIZE, head),
            tail := if full then Next(WRITE_RING_SIZE, tail) else tail,
            pushed := pushed + [e],
            dropped := if full then dropped + 1 else dropped)
    }

    function LoadTail(): Ring32 { this.(drain := HasTail(tail), dropped := 0) }

    function LoadLocation(): Ring32
      requires Valid() && drain.HasTail?
    {
      this.(drain := HasLocation(drain.t, slots[drain.t].location))
    }

    function LoadValue(): Ring32
      requires Valid() && drain.HasLocation?
    {
      this.(drain := HasBoth(drain.t, WriteEntry(drain.location, slots[drain.t].value)))
    }

    function StoreTail(): Ring32
      requires Valid() && drain.HasBoth?
    {
      this.(tail := Next(WRITE_RING_SIZE, drain.t), drain := Idle, delivered := delivered + [drain.entry])
    }
  }

  datatype Action = Push(e: WriteEntry) | Location | Value

  predicate Enabled(r: Ring32, a: Action)
  {
    match a
    case Push(_) => true
    case Location => r.drain.HasTail?
    case Value => r.drain.HasLocation?
  }

  function Apply(r: Ring32, a: Action): Ring32
    requires r.Valid() && Enabled(r, a)
  {
    match a
    case Push(e) => r.Push(e)
    case Location => r.LoadLocation()
    case Value => r.LoadValue()
  }

  /** What happens between loading the tail and storing it: the two loads of the entry, and any pushes. */
  ghost predicate Leads(r: Ring32, run: seq<Action>, u: Ring32)
    decreases |run|
  {
    if run == [] then r == u
    else r.Valid() && Enabled(r, run[0]) && Leads(Apply(r, run[0]), run[1..], u)
  }

  function Pushes(run: seq<Action>): seq<WriteEntry>
    decreases |run|
  {
    if run == [] then []
    else (if run[0].Push? then [run[0].e] else []) + Pushes(run[1..])
  }

  /** Inside the window. `todo` is what was undelivered when the window opened and what was pushed since.
      Up to the first overflowing push the entry that the loop is reading stays in its slot: that push drops
      just this entry. Every further one overwrites entries and moves the tail past the loop's copy of it. */
  ghost predicate Window(r: Ring32, todo: seq<WriteEntry>)
  {
    && r.Valid() && !r.drain.Idle? && todo != []
    && |todo| == Level(WRITE_RING_SIZE, r.head, r.tail) + r.dropped
    && r.tail == (r.drain.t + r.dropped) % WRITE_RING_SIZE
    && (r.dropped > 0 ==> Level(WRITE_RING_SIZE, r.head, r.tail) == RING_ROOM)
    && (r.dropped <= 1 ==>
          && r.slots[r.drain.t] == todo[0]
          && r.Waiting() == todo[r.dropped..]
          && (r.drain.HasLocation? ==> r.drain.location == todo[0].location)
          && (r.drain.HasBoth? ==> r.drain.entry == todo[0]))
  }

  lemma PushWithRoom(r: Ring32, todo: seq<WriteEntry>, e: WriteEntry)
    requires Window(r, todo) && Next(WRITE_RING_SIZE, r.head) != r.tail
    ensures Window(r.Push(e), todo + [e])
  {
    PutContents(r.slots, r.head, r.tail, e);
    assert r.dropped == 0;
    assert todo[0..] == todo && (todo + [e])[0..] == todo + [e];
  }

  lemma FirstOverflow(r: Ring32, todo: seq<WriteEntry>, e: WriteEntry)
    requires Window(r, todo) && Next(WRITE_RING_SIZE, r.head) == r.tail && r.dropped == 0
    ensures Window(r.Push(e), todo + [e])
  {
    var u := r.Push(e);
    assert r.tail == r.drain.t && r.head != r.tail;
    assert Contents(r.slots, r.head, u.tail) == todo[1..];
    assert u.Waiting() == todo[1..] + [e] by {
      PutContents(r.slots, r.head, u.tail, e);
    }
    assert (todo + [e])[1..] == todo[1..] + [e];
  }

  lemma FurtherOverflow(r: Ring32, todo: seq<WriteEntry>, e: WriteEntry)
    requires Window(r, todo) && Next(WRITE_RING_SIZE, r.head) == r.tail && r.dropped > 0
    ensures Window(r.Push(e), todo + [e])
  {
    assert r.Push(e).dropped > 1;
  }

  lemma PushKeepsWindow(r: Ring32, todo: seq<WriteEntry>, e: WriteEntry)
    requires Window(r, todo)
    ensures Window(r.Push(e), todo + [e])
  {
    if Next(WRITE_RING_SIZE, r.head) != r.tail {
      PushWithRoom(r, todo, e);
    } else if r.dropped == 0 {
      FirstOverflow(r, todo, e);
    } else {
      FurtherOverflow(r, todo, e);
    }
  }

  lemma LoadKeepsWindow(r: Ring32, todo: seq<WriteEntry>, a: Action)
    requires Window(r, todo) && Enabled(r, a) && !a.Push?
    ensures Window(Apply(r, a), todo)
  {
  }

  /** `q` and what the action pushes. */
  function With(q: seq<WriteEntry>, a: Action): seq<WriteEntry>
  {
    if a.Push? then q + [a.e] else q
  }

  lemma FirstPush(q: seq<WriteEntry>, run: seq<Action>)
    requires run != []
    ensures q + Pushes(run) == With(q, run[0]) + Pushes(run[1..])
  {
    var rest := Pushes(run[1..]);
    if run[0].Push? {
      assert Pushes(run) == [run[0].e] + rest;
      assert q + [run[0].e] + rest == q + ([run[0].e] + rest);
    } else {
      assert Pushes(run) == rest;
    }
  }

  lemma NoPush(q: seq<WriteEntry>)
    ensures q + Pushes([]) == q
  {
  }

  lemma StepKeepsWindow(r: Ring32, todo: seq<WriteEntry>, a: Action)
    requires Window(r, todo) && Enabled(r, a)
    ensures Window(Apply(r, a), With(todo, a))
  {
    if a.Push? {
      PushKeepsWindow(r, todo, a.e);
    } else {
      LoadKeepsWindow(r, todo, a);
    }
  }

  lemma {:induction false} WindowKeeps(r: Ring32, todo: seq<WriteEntry>, run: seq<Action>, u: Ring32)
    requires Window(r, todo) && Leads(r, run, u)
    ensures Window(u, todo + Pushes(run))
    decreases |run|
  {
    if run == [] {
      NoPush(todo);
    } else {
      StepKeepsWindow(r, todo, run[0]);
      WindowKeeps(Apply(r, run[0]), With(todo, run[0]), run[1..], u);
      FirstPush(todo, run);
    }
  }

  lemma {:induction false} RunOnlyPushes(r: Ring32, run: seq<Action>, u: Ring32)
    requires r.Valid() && Leads(r, run, u)
    ensures u.delivered == r.delivered && u.pushed == r.pushed + Pushes(run)
    decreases |run|
  {
    if run == [] {
      NoPush(r.pushed);
    } else {
      StepKeepsValid(r, run[0]);
      RunOnlyPushes(Apply(r, run[0]), run[1..], u);
      FirstPush(r.pushed, run);
      assert Apply(r, run[0]).pushed == With(r.pushed, run[0]);
    }
  }

  lemma StepKeepsValid(r: Ring32, a: Action)
    requires r.Valid() && Enabled(r, a)
    ensures Apply(r, a).Valid()
  {
  }

  lemma StoreTailEnds(u: Ring32, todo: seq<WriteEntry>)
    requires Window(u, todo) && u.drain.HasBoth?
    ensures u.dropped <= 1 ==>
      u.StoreTail().delivered == u.delivered + [todo[0]] && u.StoreTail().Waiting() == todo[1..]
    ensures u.dropped > 1 ==> |u.delivered + todo| > |u.StoreTail().delivered| + |u.StoreTail().Waiting()|
  {
  }

  lemma FirstOfBoth<T>(q: seq<T>, es: seq<T>)
    requires q != []
    ensures (q + es)[0] == q[0] && (q + es)[1..] == q[1..] + es
  {
  }

  lemma Associates<T>(a: seq<T>, b: seq<T>, c: seq<T>)
    ensures a + b + c == a + (b + c)
  {
  }

  /** What a turn has to account for: the entries that it found and those that preempt it. */
  lemma Undelivered(r: Ring32, run: seq<Action>, u: Ring32) returns (todo: seq<WriteEntry>)
    requires r.Valid() && r.drain.Idle? && r.Waiting() != [] && Leads(r.LoadTail(), run, u)
    ensures Window(u, todo) && |todo| == |r.Waiting()| + |Pushes(run)|
    ensures todo[0] == r.Waiting()[0] && todo[1..] == r.Waiting()[1..] + Pushes(run)
    ensures u.delivered == r.delivered && (r.ExactlyOnce() ==> u.pushed == u.delivered + todo)
  {
    todo := r.Waiting() + Pushes(run);
    OpensWindow(r);
    WindowKeeps(r.LoadTail(), r.Waiting(), run, u);
    RunOnlyPushes(r.LoadTail(), run, u);
    FirstOfBoth(r.Waiting(), Pushes(run));
    Associates(r.delivered, r.Waiting(), Pushes(run));
  }

  lemma OpensWindow(r: Ring32)
    requires r.Valid() && r.drain.Idle? && r.Waiting() != []
    ensures r.LoadTail().Valid() && r.LoadTail().Waiting() == r.Waiting() && Window(r.LoadTail(), r.Waiting())
  {
  }

  lemma EndIsExactIff(u: Ring32, todo: seq<WriteEntry>)
    requires Window(u, todo) && u.drain.HasBoth? && u.pushed == u.delivered + todo
    ensures u.StoreTail().Valid()
    ensures u.StoreTail().ExactlyOnce() <==> |todo| <= WRITE_RING_SIZE
    ensures |todo| <= WRITE_RING_SIZE ==>
      u.StoreTail().delivered == u.delivered + [todo[0]] && u.StoreTail().Waiting() == todo[1..]
  {
    StoreTailEnds(u, todo);
    assert u.delivered + todo == u.delivered + [todo[0]] + todo[1..];
  }

  /** One turn of the drain loop delivers exactly once and in order, however pushes preempt it, if and only
      if the entries waiting and the pushes that preempt it are at most 32 together: a single overflow drops
      the very entry that the loop is holding, a second one makes the loop's store of the tail hide entries. */
  lemma TurnIsExactlyOnceIff(r: Ring32, run: seq<Action>, u: Ring32)
    requires r.Valid() && r.drain.Idle? && r.ExactlyOnce() && r.Waiting() != []
    requires Leads(r.LoadTail(), run, u) && u.Valid() && u.drain.HasBoth?
    ensures u.StoreTail().ExactlyOnce() <==> |r.Waiting()| + |Pushes(run)| <= 32
    ensures |r.Waiting()| + |Pushes(run)| <= 32 ==>
      && u.StoreTail().delivered == r.delivered + [r.Waiting()[0]]
      && u.StoreTail().Waiting() == r.Waiting()[1..] + Pushes(run)
  {
    var todo := Undelivered(r, run, u);
    EndIsExactIff(u, todo);
  }
}
