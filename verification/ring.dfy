/** The ring-buffer discipline that every queue of the repository uses: a write index `head`, a read
    index `tail`, empty when they are equal, full when the slot after `head` is `tail`. */
module Ring {

  function Next(n: nat, i: nat): nat
    requires i < n
  {
    if i + 1 == n then 0 else i + 1
  }

  function Level(n: nat, head: nat, tail: nat): nat
    requires head < n && tail < n
  {
    if tail <= head then head - tail else head + n - tail
  }

  /** The unread elements, oldest first. */
  function Contents<T>(buf: seq<T>, head: nat, tail: nat): (c: seq<T>)
    requires head < |buf| && tail < |buf|
    ensures |c| == Level(|buf|, head, tail)
    decreases Level(|buf|, head, tail)
  {
    if head == tail then [] else [buf[tail]] + Contents(buf, head, Next(|buf|, tail))
  }

  /** Storing at `head` and advancing appends; on a full ring it makes the ring empty. */
  lemma {:induction false} PutContents<T>(buf: seq<T>, head: nat, tail: nat, x: T)
    requires head < |buf| && tail < |buf|
    ensures Contents(buf[head := x], Next(|buf|, head), tail)
         == if Level(|buf|, head, tail) + 1 < |buf| then Contents(buf, head, tail) + [x] else []
    decreases Level(|buf|, head, tail)
  {
    if Level(|buf|, head, tail) + 1 < |buf| {
      if head == tail {
        var t := Next(|buf|, tail);
        assert Contents(buf[head := x], t, t) == [];
      } else {
        PutContents(buf, head, Next(|buf|, tail), x);
      }
    }
  }

  /** A slot outside the unread part can change without changing the contents. */
  lemma {:induction false} OtherSlot<T>(buf: seq<T>, head: nat, tail: nat, i: nat, x: T)
    requires head < |buf| && tail < |buf| && i < |buf|
    requires Level(|buf|, i, tail) >= Level(|buf|, head, tail)
    ensures Contents(buf[i := x], head, tail) == Contents(buf, head, tail)
    decreases Level(|buf|, head, tail)
  {
    if head != tail {
      OtherSlot(buf, head, Next(|buf|, tail), i, x);
    }
  }

  /** From a later read index there is the end of the same elements. */
  lemma {:induction false} ContentsSuffix<T>(buf: seq<T>, head: nat, tail: nat, later: nat)
    requires head < |buf| && tail < |buf| && later < |buf|
    requires Level(|buf|, head, later) <= Level(|buf|, head, tail)
    ensures var c := Contents(buf, head, tail);
      Contents(buf, head, later) == c[|c| - Level(|buf|, head, later)..]
    decreases Level(|buf|, head, tail)
  {
    if tail != later {
      ContentsSuffix(buf, head, Next(|buf|, tail), later);
    }
  }
}
