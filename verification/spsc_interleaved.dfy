/** The SpscQueue of include/mc6850.h under two threads: every load and store of `put`, `get` and the level
    checks is a step of its own, and the two sides interleave freely. */
module SpscInterleaved {
  import opened Bytes
  import opened Ring
  import opened SpscQueues

  /** The producer. `Room(k)`: its last look at the level left room for `k` bytes. */
  datatype Producer =
    | ProducerIdle
    | LoadedHead(h: nat)
    | Room(k: nat)
    | Putting(h: nat, ch: byte, k: nat)
    | Written(h: nat, k: nat)

  /** The consumer. `Available(n)`: its last look at the level showed `n` bytes. */
  datatype Consumer =
    | ConsumerIdle
    | SawHead(h: nat)
    | Available(n: nat)
    | Getting(t: nat, n: nat)
    | Fetched(t: nat, ch: byte, n: nat)

  datatype Queue = Queue(
    buf: seq<byte>,
    head: nat,
    tail: nat,
    producer: Producer,
    consumer: Consumer,
    produced: seq<byte>,
    consumed: seq<byte>)
  {
    ghost predicate Valid()
    {
      && |buf| == CAPACITY && head < CAPACITY && tail < CAPACITY
      && (producer.LoadedHead? ==> producer.h < CAPACITY)
      && (producer.Putting? || producer.Written? ==> producer.h < CAPACITY)
      && (consumer.SawHead? ==> consumer.h < CAPACITY)
      && (consumer.Getting? || consumer.Fetched? ==> consumer.t < CAPACITY)
    }

    ghost function Unread(): seq<byte>
      requires Valid()
    {
      Contents(buf, head, tail)
    }
  }

  datatype Action =
    | LoadHeadForRoom
    | LoadTailForRoom
    | BeginPut(ch: byte)
    | WriteSlot
    | PublishHead
    | LoadHeadForBytes
    | LoadTailForBytes
    | BeginGet
    | ReadSlot
    | PublishTail

  /** A side begins a transfer only within what it saw: the producer within the room, the consumer within
      the bytes. */
  predicate Enabled(q: Queue, a: Action)
  {
    match a
    case LoadHeadForRoom => q.producer.ProducerIdle? || q.producer.Room?
    case LoadTailForRoom => q.producer.LoadedHead?
    case BeginPut(_) => q.producer.Room? && q.producer.k > 0
    case WriteSlot => q.producer.Putting?
    case PublishHead => q.producer.Written?
    case LoadHeadForBytes => q.consumer.ConsumerIdle? || q.consumer.Available?
    case LoadTailForBytes => q.consumer.SawHead?
    case BeginGet => q.consumer.Available? && q.consumer.n > 0
    case ReadSlot => q.consumer.Getting?
    case PublishTail => q.consumer.Fetched?
  }

  function Apply(q: Queue, a: Action): Queue
    requires q.Valid() && Enabled(q, a)
  {
    match a
    case LoadHeadForRoom => q.(producer := LoadedHead(q.head))
    case LoadTailForRoom => q.(producer := Room(CAPACITY - 1 - (q.producer.h - q.tail) % CAPACITY))
    case BeginPut(ch) => q.(producer := Putting(q.head, ch, q.producer.k - 1))
    case WriteSlot =>
      q.(buf := q.buf[q.producer.h := q.producer.ch], producer := Written(q.producer.h, q.producer.k),
         produced := q.produced + [q.producer.ch])
    case PublishHead => q.(head := (q.producer.h + 1) % CAPACITY, producer := Room(q.producer.k))
    case LoadHeadForBytes => q.(consumer := SawHead(q.head))
    case LoadTailForBytes => q.(consumer := Available((q.consumer.h - q.tail) % CAPACITY))
    case BeginGet => q.(consumer := Getting(q.tail, q.consumer.n - 1))
    case ReadSlot => q.(consumer := Fetched(q.consumer.t, q.buf[q.consumer.t], q.consumer.n))
    case PublishTail =>
      q.(tail := (q.consumer.t + 1) % CAPACITY, consumer := Available(q.consumer.n),
         consumed := q.consumed + [q.consumer.ch])
  }

  /** The byte that is in its slot but not published yet. */
  ghost function Unpublished(q: Queue): seq<byte>
    requires q.Valid()
  {
    if q.producer.Written? then [q.buf[q.producer.h]] else []
  }

  ghost predicate ProducerInv(q: Queue)
    requires q.Valid()
  {
    match q.producer
    case ProducerIdle => true
    case LoadedHead(h) => h == q.head
    case Room(k) => |q.Unread()| + k < CAPACITY
    case Putting(h, _, k) => h == q.head && |q.Unread()| + 1 + k < CAPACITY
    case Written(h, k) => h == q.head && |q.Unread()| + 1 + k < CAPACITY
  }

  ghost predicate ConsumerInv(q: Queue)
    requires q.Valid()
  {
    match q.consumer
    case ConsumerIdle => true
    case SawHead(h) => Level(CAPACITY, h, q.tail) <= |q.Unread()|
    case Available(n) => n <= |q.Unread()|
    case Getting(t, n) => t == q.tail && 1 + n <= |q.Unread()|
    case Fetched(t, ch, n) => t == q.tail && 1 + n <= |q.Unread()| && ch == q.Unread()[0]
  }

  ghost predicate Inv(q: Queue)
  {
    && q.Valid() && ProducerInv(q) && ConsumerInv(q)
    && q.produced == q.consumed + q.Unread() + Unpublished(q)
  }

  /** The slot that the producer writes holds no unread byte, so the consumer is never looking at it. */
  lemma WritesAreInvisible(q: Queue)
    requires Inv(q) && q.producer.Putting?
    ensures Apply(q, WriteSlot).Unread() == q.Unread()
    ensures q.consumer.Getting? || q.consumer.Fetched? ==> q.consumer.t != q.producer.h
  {
    OtherSlot(q.buf, q.head, q.tail, q.producer.h, q.producer.ch);
  }

  lemma WriteSlotKeeps(q: Queue)
    requires Inv(q) && q.producer.Putting?
    ensures Inv(Apply(q, WriteSlot))
  {
    WritesAreInvisible(q);
  }

  /** Publishing the byte that stands at the head appends it to what the consumer can see. */
  lemma PublishAppends(q: Queue)
    requires q.Valid() && q.producer.Written? && q.producer.h == q.head && |q.Unread()| + 1 < CAPACITY
    ensures Apply(q, PublishHead).Valid()
    ensures Apply(q, PublishHead).Unread() == q.Unread() + [q.buf[q.head]]
  {
    PutContents(q.buf, q.head, q.tail, q.buf[q.head]);
    assert q.buf[q.head := q.buf[q.head]] == q.buf;
  }

  lemma PublishHeadKeeps(q: Queue)
    requires Inv(q) && q.producer.Written?
    ensures Inv(Apply(q, PublishHead))
  {
    PublishAppends(q);
  }

  predicate OfProducer(a: Action)
  {
    a.LoadHeadForRoom? || a.LoadTailForRoom? || a.BeginPut? || a.WriteSlot? || a.PublishHead?
  }

  lemma ProducerStepKeeps(q: Queue, a: Action)
    requires Inv(q) && Enabled(q, a) && OfProducer(a)
    ensures Inv(Apply(q, a))
  {
    match a
    case WriteSlot => WriteSlotKeeps(q);
    case PublishHead => PublishHeadKeeps(q);
    case _ =>
  }

  lemma PublishTailKeeps(q: Queue)
    requires Inv(q) && q.consumer.Fetched?
    ensures Inv(Apply(q, PublishTail))
  {
    assert Apply(q, PublishTail).Unread() == q.Unread()[1..];
  }

  lemma ConsumerStepKeeps(q: Queue, a: Action)
    requires Inv(q) && Enabled(q, a) && !OfProducer(a)
    ensures Inv(Apply(q, a))
  {
    match a
    case PublishTail => PublishTailKeeps(q);
    case _ =>
  }

  ghost predicate Leads(q: Queue, run: seq<Action>, r: Queue)
    decreases |run|
  {
    if run == [] then q == r
    else q.Valid() && Enabled(q, run[0]) && Leads(Apply(q, run[0]), run[1..], r)
  }

  lemma {:induction false} RunKeeps(q: Queue, run: seq<Action>, r: Queue)
    requires Inv(q) && Leads(q, run, r)
    ensures Inv(r)
    decreases |run|
  {
    if run != [] {
      var a := run[0];
      if OfProducer(a) {
        ProducerStepKeeps(q, a);
      } else {
        ConsumerStepKeeps(q, a);
      }
      RunKeeps(Apply(q, a), run[1..], r);
    }
  }

  function Empty(): Queue
  {
    Queue(Copies<byte>(0, CAPACITY), 0, 0, ProducerIdle, ConsumerIdle, [], [])
  }

  /** However the two sides interleave, the consumer gets a prefix of what the producer put, what is unread is
      exactly the rest, and each side's view of the level errs on the safe side. */
  lemma Linearizable(run: seq<Action>, q: Queue)
    requires Leads(Empty(), run, q)
    ensures q.Valid()
    ensures q.produced == q.consumed + q.Unread() + Unpublished(q)
    ensures q.consumed <= q.produced
    ensures q.producer.Room? ==> |q.Unread()| <= CAPACITY - 1 - q.producer.k
    ensures q.consumer.Available? ==> q.consumer.n <= |q.Unread()|
    ensures q.consumer.Fetched? ==> q.consumed + [q.consumer.ch] <= q.produced
  {
    RunKeeps(Empty(), run, q);
  }
}
