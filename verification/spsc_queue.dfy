/** The single-producer single-consumer byte queue of include/mc6850.h. */
module SpscQueues {
  import opened Bytes
  import opened Ring

  const CAPACITY := 1024

  /** What `put` does to the unread bytes. It has no guard of its own: on a full queue the write index
      catches up with the read index and every unread byte is forgotten. */
  function Appended(q: seq<byte>, ch: byte): seq<byte>
  {
    if |q| < CAPACITY - 1 then q + [ch] else []
  }

  class SpscQueue {
    const buf: array<byte>
    var head: nat
    var tail: nat
    /** The bytes put and not yet got, oldest first. */
    ghost var unread: seq<byte>

    ghost predicate Valid()
      reads this, buf
    {
      && buf.Length == CAPACITY
      && head < CAPACITY && tail < CAPACITY
      && unread == Contents(buf[..], head, tail)
    }

    constructor ()
      ensures Valid() && fresh(buf) && unread == []
    {
      buf := new byte[CAPACITY];
      head, tail, unread := 0, 0, [];
    }

    method IsEmpty() returns (r: bool)
      requires Valid()
      ensures r <==> unread == []
    {
      r := head == tail;
    }

    method IsFull() returns (r: bool)
      requires Valid()
      ensures r <==> |unread| == 1023
    {
      r := (head + 1) % CAPACITY == tail;
    }

    method GetLevel() returns (r: nat)
      requires Valid()
      ensures r == |unread|
    {
      r := (head - tail) % CAPACITY;
    }

    /** The callers look at `has_bytes` first. */
    method Get() returns (ch: byte)
      requires Valid() && unread != []
      modifies this`tail, this`unread
      ensures Valid()
      ensures [ch] + unread == old(unread)
    {
      ch := buf[tail];
      tail := (tail + 1) % CAPACITY;
      unread := unread[1..];
    }

    method Put(ch: byte)
      requires Valid()
      modifies this`head, this`unread, buf
      ensures Valid()
      ensures unread == Appended(old(unread), ch)
    {
      ghost var before, slot := buf[..], head;
      buf[head] := ch;
      head := (head + 1) % CAPACITY;
      assert Contents(buf[..], head, tail) == Appended(unread, ch) by {
        assert buf[..] == before[slot := ch] && head == Next(|before|, slot);
        PutContents(before, slot, tail, ch);
      }
      unread := Appended(unread, ch);
    }

    method Reset()
      requires Valid()
      modifies this`head, this`tail, this`unread
      ensures Valid() && unread == []
    {
      head := 0;
      tail := 0;
      unread := [];
    }
  }
}
