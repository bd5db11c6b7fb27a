/** The two PackBits decoders as they are written, on a blocking serial line. */
module DiskDecoders {
  import opened Bytes
  import opened PackBits
  import opened SerialLines

  lemma BehindControl(a: byte, input: seq<byte>, m: nat)
    requires m <= |input|
    ensures ([a] + input)[1..1 + m] == input[..m] && ([a] + input)[1 + m..] == input[m..]
  {
  }

  /** One turn of either decoder on the way to its goal. */
  lemma TurnC(input: seq<byte>, room: nat, front: seq<byte>, goal: Decoded)
    requires TowardsC(goal, input, room, front)
    ensures match NextTurn(input, room)
      case Marker(rest) => goal == Decoded(front, rest)
      case Wait => goal == Starved
      case Part(bytes, rest, _) => TowardsC(goal, rest, room - |bytes|, front + bytes)
  {
    var t := NextTurn(input, room);
    if t.Part? {
      var d := DecodeC(t.rest, room - |t.bytes|);
      assert DecodeC(input, room) == d.Behind(t.bytes);
      BehindTwice(front, t.bytes, d);
    } else {
      assert front + [] == front;
    }
  }

  lemma TurnAsm(input: seq<byte>, room: nat, front: seq<byte>, goal: Decoded)
    requires TowardsAsm(goal, input, room, front)
    ensures match NextTurn(input, room)
      case Marker(rest) => goal == Decoded(front, rest)
      case Wait => goal == Starved
      case Part(bytes, rest, true) => goal == Decoded(front + bytes, rest)
      case Part(bytes, rest, false) => TowardsAsm(goal, rest, room - |bytes|, front + bytes)
  {
    var t := NextTurn(input, room);
    if t.Part? && !t.cut {
      var d := DecodeAsm(t.rest, room - |t.bytes|);
      assert DecodeAsm(input, room) == d.Behind(t.bytes);
      BehindTwice(front, t.bytes, d);
    } else {
      assert front + [] == front;
    }
  }

  /** The literal loop of the C decoder. */
  method LiteralC(line: Line, dst: array<byte>, start: nat, cap: nat, n: byte) returns (ok: bool, out: nat)
    requires start <= cap <= dst.Length
    modifies line`input, dst
    ensures dst[cap..] == old(dst[cap..])
    ensures var m := Min(n, cap - start);
      if |old(line.input)| < m then !ok
      else ok && out == start + m && line.input == old(line.input)[m..]
           && dst[..out] == old(dst[..start]) + old(line.input)[..m]
  {
    ghost var s, front := line.input, dst[..start];
    out := start;
    var count := n;
    while count > 0 && out < cap
      invariant start <= out <= cap && out - start == n - count <= |s|
      invariant line.input == s[out - start..] && dst[..out] == front + s[..out - start]
      invariant dst[cap..] == old(dst[cap..])
      decreases count
    {
      var c;
      ok, c := line.RxByte();
      if !ok {
        return;
      }
      assert c == s[out - start];
      dst[out] := c;
      out := out + 1;
      count := count - 1;
    }
    ok := true;
  }

  /** The repeat loop of the C decoder. */
  method RepeatC(dst: array<byte>, start: nat, cap: nat, n: byte, val: byte) returns (out: nat)
    requires start <= cap <= dst.Length
    modifies dst
    ensures dst[cap..] == old(dst[cap..])
    ensures out == start + Min(n, cap - start) && dst[..out] == old(dst[..start]) + Stretch(val, out - start)
  {
    ghost var front := dst[..start];
    out := start;
    var count := n;
    while count > 0 && out < cap
      invariant start <= out <= cap && out - start == n - count
      invariant dst[..out] == front + Stretch(val, out - start)
      invariant dst[cap..] == old(dst[cap..])
      decreases count
    {
      dst[out] := val;
      out := out + 1;
      count := count - 1;
    }
  }

  /** One run of the C decoder, behind its control byte `n`. */
  method RunC(line: Line, dst: array<byte>, start: nat, cap: nat, n: byte) returns (ok: bool, out: nat)
    requires start <= cap <= dst.Length && n != END_MARKER
    modifies line`input, dst
    ensures dst[cap..] == old(dst[cap..])
    ensures match NextTurn([n] + old(line.input), cap - start)
      case Part(bytes, rest, _) =>
        ok && out == start + |bytes| && line.input == rest && dst[..out] == old(dst[..start]) + bytes
      case _ => !ok
  {
    ghost var s := [n] + line.input;
    if n < END_MARKER {
      ghost var m := Min(n + 1, cap - start);
      if m <= |line.input| {
        BehindControl(n, line.input, m);
      }
      ok, out := LiteralC(line, dst, start, cap, n + 1);
    } else {
      out := start;
      var val;
      ok, val := line.RxByte();
      if ok {
        assert s == [n, val] + line.input && s[2..] == line.input;
        out := RepeatC(dst, start, cap, 257 - n, val);
      }
    }
  }

  /** One turn of the C decoder's loop. */
  method TakeTurnC(line: Line, dst: array<byte>, start: nat, cap: nat) returns (ok: bool, done: bool, out: nat)
    requires start <= cap <= dst.Length
    modifies line`input, dst
    ensures dst[cap..] == old(dst[cap..])
    ensures match NextTurn(old(line.input), cap - start)
      case Wait => !ok
      case Marker(rest) => ok && done && out == start && line.input == rest && dst[..out] == old(dst[..start])
      case Part(bytes, rest, _) =>
        ok && !done && out == start + |bytes| && line.input == rest && dst[..out] == old(dst[..start]) + bytes
  {
    done, out := false, start;
    var n;
    ok, n := line.RxByte();
    if !ok {
      return;
    }
    if n == END_MARKER {
      done := true;
      assert old(line.input)[1..] == line.input;
      return;
    }
    ok, out := RunC(line, dst, start, cap, n);
  }

  /** The bytes in `front` and what `input` decodes to are together `goal`. */
  predicate TowardsC(goal: Decoded, input: seq<byte>, room: nat, front: seq<byte>)
  {
    DecodeC(input, room).Behind(front) == goal
  }

  /** The same turn, seen from its goal. */
  method AdvanceC(line: Line, dst: array<byte>, start: nat, cap: nat, ghost goal: Decoded)
    returns (ok: bool, done: bool, out: nat)
    requires start <= cap <= dst.Length && TowardsC(goal, line.input, cap - start, dst[..start])
    modifies line`input, dst
    ensures dst[cap..] == old(dst[cap..])
    ensures !ok ==> goal == Starved
    ensures ok ==> out <= cap && |line.input| < |old(line.input)|
    ensures ok && done ==> goal == Decoded(dst[..out], line.input)
    ensures ok && !done ==> TowardsC(goal, line.input, cap - out, dst[..out])
  {
    TurnC(line.input, cap - start, dst[..start], goal);
    ok, done, out := TakeTurnC(line, dst, start, cap);
  }

  /** `packbits_decode`: whatever arrives, nothing is written from `cap` on. */
  method PackBitsDecode(line: Line, dst: array<byte>, cap: nat) returns (ok: bool, count: nat)
    requires cap <= dst.Length
    modifies line`input, dst
    ensures dst[cap..] == old(dst[cap..])
    ensures match DecodeC(old(line.input), cap)
      case Starved => !ok
      case Decoded(out, rest) => ok && count == |out| && dst[..count] == out && line.input == rest
  {
    ghost var goal := DecodeC(line.input, cap);
    BehindNothing(goal);
    count := 0;
    assert dst[..count] == [];
    while true
      invariant count <= cap && dst[cap..] == old(dst[cap..])
      invariant TowardsC(goal, line.input, cap - count, dst[..count])
      decreases |line.input|
    {
      var done;
      ok, done, count := AdvanceC(line, dst, count, cap, goal);
      if !ok || done {
        return;
      }
    }
  }

  /** The literal loop of the assembly decoder; `full` is its exit at Y = 0. X and Y are the registers. */
  method LiteralAsm(line: Line, dst: array<byte>, x0: nat, y0: nat, count: byte)
    returns (ok: bool, full: bool, x: nat, y: nat)
    requires x0 + y0 <= dst.Length && count > 0
    modifies line`input, dst
    ensures dst[x0 + y0..] == old(dst[x0 + y0..])
    ensures var m := Min(count, y0);
      if |old(line.input)| < m then !ok
      else ok && x == x0 + m && y == y0 - m && full == (m < count) && line.input == old(line.input)[m..]
           && dst[..x] == old(dst[..x0]) + old(line.input)[..m]
  {
    ghost var s, front := line.input, dst[..x0];
    full, x, y := false, x0, y0;
    var b := count;
    while true
      invariant x0 <= x && x + y == x0 + y0 && x - x0 == count - b <= |s| && b > 0
      invariant line.input == s[x - x0..] && dst[..x] == front + s[..x - x0]
      invariant dst[x0 + y0..] == old(dst[x0 + y0..])
      decreases b
    {
      if y == 0 {
        return true, true, x, y;
      }
      var a;
      ok, a := line.RxByte();
      if !ok {
        return;
      }
      assert a == s[x - x0];
      dst[x] := a;
      x, y := x + 1, y - 1;
      b := b - 1;
      if b == 0 {
        return true, false, x, y;
      }
    }
  }

  /** The repeat loop of the assembly decoder. */
  method RepeatAsm(dst: array<byte>, x0: nat, y0: nat, count: byte, a: byte) returns (full: bool, x: nat, y: nat)
    requires x0 + y0 <= dst.Length && count > 0
    modifies dst
    ensures dst[x0 + y0..] == old(dst[x0 + y0..])
    ensures var m := Min(count, y0);
      x == x0 + m && y == y0 - m && full == (m < count) && dst[..x] == old(dst[..x0]) + Stretch(a, m)
  {
    ghost var front := dst[..x0];
    x, y := x0, y0;
    var b := count;
    while true
      invariant x0 <= x && x + y == x0 + y0 && x - x0 == count - b && b > 0
      invariant dst[..x] == front + Stretch(a, x - x0)
      invariant dst[x0 + y0..] == old(dst[x0 + y0..])
      decreases b
    {
      if y == 0 {
        return true, x, y;
      }
      dst[x] := a;
      x, y := x + 1, y - 1;
      b := b - 1;
      if b == 0 {
        return false, x, y;
      }
    }
  }

  /** Register A after NEGA and INCA. */
  function NegInc(a: byte): byte
  {
    ((256 - a) % 256 + 1) % 256
  }

  lemma NegIncCounts(a: byte)
    requires a > END_MARKER
    ensures NegInc(a) == RepeatCount(a)
  {
  }

  /** One run of the assembly decoder, behind its control byte in A. */
  method RunAsm(line: Line, dst: array<byte>, x0: nat, y0: nat, a: byte)
    returns (ok: bool, full: bool, x: nat, y: nat)
    requires x0 + y0 <= dst.Length && a != END_MARKER
    modifies line`input, dst
    ensures dst[x0 + y0..] == old(dst[x0 + y0..])
    ensures match NextTurn([a] + old(line.input), y0)
      case Part(bytes, rest, cut) =>
        ok && full == cut && x == x0 + |bytes| && y == y0 - |bytes| && line.input == rest
        && dst[..x] == old(dst[..x0]) + bytes
      case _ => !ok
  {
    ghost var s := [a] + line.input;
    if a < END_MARKER {
      ghost var m := Min(a + 1, y0);
      if m <= |line.input| {
        BehindControl(a, line.input, m);
      }
      ok, full, x, y := LiteralAsm(line, dst, x0, y0, (a + 1) % 256);
    } else {
      NegIncCounts(a);
      full, x, y := false, x0, y0;
      var v;
      ok, v := line.RxByte();
      if ok {
        assert s == [a, v] + line.input && s[2..] == line.input;
        full, x, y := RepeatAsm(dst, x0, y0, NegInc(a), v);
      }
    }
  }

  /** One turn of the assembly decoder's loop; `done` also at its exit at Y = 0. */
  method TakeTurnAsm(line: Line, dst: array<byte>, x0: nat, y0: nat) returns (ok: bool, done: bool, x: nat, y: nat)
    requires x0 + y0 <= dst.Length
    modifies line`input, dst
    ensures dst[x0 + y0..] == old(dst[x0 + y0..])
    ensures match NextTurn(old(line.input), y0)
      case Wait => !ok
      case Marker(rest) =>
        ok && done && x == x0 && y == y0 && line.input == rest && dst[..x] == old(dst[..x0])
      case Part(bytes, rest, cut) =>
        ok && done == cut && x == x0 + |bytes| && y == y0 - |bytes| && line.input == rest
        && dst[..x] == old(dst[..x0]) + bytes
  {
    done, x, y := false, x0, y0;
    var a;
    ok, a := line.RxByte();
    if !ok {
      return;
    }
    if a == END_MARKER {
      done := true;
      assert old(line.input)[1..] == line.input;
      return;
    }
    ok, done, x, y := RunAsm(line, dst, x0, y0, a);
  }

  predicate TowardsAsm(goal: Decoded, input: seq<byte>, room: nat, front: seq<byte>)
  {
    DecodeAsm(input, room).Behind(front) == goal
  }

  method AdvanceAsm(line: Line, dst: array<byte>, x0: nat, y0: nat, ghost goal: Decoded)
    returns (ok: bool, done: bool, x: nat, y: nat)
    requires x0 + y0 <= dst.Length && TowardsAsm(goal, line.input, y0, dst[..x0])
    modifies line`input, dst
    ensures dst[x0 + y0..] == old(dst[x0 + y0..])
    ensures !ok ==> goal == Starved
    ensures ok ==> x + y == x0 + y0 && |line.input| < |old(line.input)|
    ensures ok && done ==> goal == Decoded(dst[..x], line.input)
    ensures ok && !done ==> TowardsAsm(goal, line.input, y, dst[..x])
  {
    ghost var s, front := line.input, dst[..x0];
    ok, done, x, y := TakeTurnAsm(line, dst, x0, y0);
    TurnAsm(s, y0, front, goal);
  }

  /** `PackBits` in chunk/dl.asm: it hands back the capacity that is left, and writes nothing behind it. */
  method PackBitsAsm(line: Line, dst: array<byte>, cap: nat) returns (ok: bool, y: nat)
    requires cap <= dst.Length
    modifies line`input, dst
    ensures dst[cap..] == old(dst[cap..])
    ensures match DecodeAsm(old(line.input), cap)
      case Starved => !ok
      case Decoded(out, rest) => ok && y == cap - |out| && dst[..cap - y] == out && line.input == rest
  {
    ghost var goal := DecodeAsm(line.input, cap);
    BehindNothing(goal);
    var x: nat := 0;
    y := cap;
    assert dst[..x] == [];
    while true
      invariant x + y == cap && dst[cap..] == old(dst[cap..])
      invariant TowardsAsm(goal, line.input, y, dst[..x])
      decreases |line.input|
    {
      var done;
      ok, done, x, y := AdvanceAsm(line, dst, x, y, goal);
      if !ok || done {
        return;
      }
    }
  }
}
