/** The stress test's frame readers and writers as they are written, in Python on the host and in C on the guest. */
module StressFrames {
  import opened Bytes
  import opened FrameFormat
  import opened SerialLines

  /** A serial port with a read timeout: each `Read` takes one tick and brings what has arrived by then, in
      pieces of any size. `arrivals` says how much the line has ready at each tick. */
  class SerialPort {
    const arrivals: nat -> nat
    var stream: seq<byte>
    var output: seq<byte>
    var now: nat

    constructor (stream: seq<byte>, arrivals: nat -> nat)
      ensures this.stream == stream && output == [] && now == 0
    {
      this.stream, this.arrivals, output, now := stream, arrivals, [], 0;
    }

    method Read(n: nat) returns (raw: seq<byte>)
      modifies this`stream, this`now
      ensures |raw| <= n && raw + stream == old(stream) && now == old(now) + 1
    {
      var k := if arrivals(now) < n then arrivals(now) else n;
      k := if k < |stream| then k else |stream|;
      raw, stream := stream[..k], stream[k..];
      now := now + 1;
    }

    method Write(data: seq<byte>)
      modifies this`output
      ensures output == old(output) + data
    {
      output := output + data;
    }
  }

  class BufferedPort {
    const port: SerialPort
    var buf: seq<byte>

    /** Everything that is still to be read. */
    ghost function Pending(): seq<byte>
      reads this, port
    {
      buf + port.stream
    }

    constructor (port: SerialPort)
      ensures this.port == port && buf == []
    {
      this.port, buf := port, [];
    }

    method ReadByte(deadline: nat) returns (r: Option<byte>)
      modifies this`buf, port`stream, port`now
      ensures r.Some? ==> [r.value] + Pending() == old(Pending())
      ensures r.None? ==> buf == [] && Pending() == old(Pending()) && port.now >= deadline
    {
      while true
        invariant Pending() == old(Pending())
        decreases deadline - port.now, if buf == [] then 1 else 0
      {
        if buf != [] {
          var b := buf[0];
          assert buf == [b] + buf[1..];
          buf := buf[1..];
          return Some(b);
        }
        if port.now >= deadline {
          return None;
        }
        var raw := port.Read(64);
        if raw != [] {
          buf := buf + raw;
        }
      }
    }

    method ReadN(n: nat, deadline: nat) returns (r: Option<seq<byte>>)
      modifies this`buf, port`stream, port`now
      ensures r.Some? ==> |r.value| == n && r.value + Pending() == old(Pending())
      ensures r.None? ==> |buf| < n && Pending() == old(Pending()) && port.now >= deadline
    {
      while |buf| < n
        invariant Pending() == old(Pending())
        decreases deadline - port.now
      {
        if port.now >= deadline {
          return None;
        }
        ghost var pending := Pending();
        var raw := port.Read(if n - |buf| < 4096 then n - |buf| else 4096);
        assert buf + raw + port.stream == pending;
        if raw != [] {
          buf := buf + raw;
        }
      }
      var result := buf[..n];
      assert buf == result + buf[n..];
      buf := buf[n..];
      return Some(result);
    }

    method PushBack(data: seq<byte>)
      modifies this`buf
      ensures Pending() == data + old(Pending())
    {
      buf := data + buf;
    }
  }

  datatype Received = Timeout | CheckMismatch | BadEofMarker | Received(id: byte, payload: seq<byte>)

  /** The result that `recv_frame` gives for what is on the line. */
  predicate Reports(r: Received, p: Parsed)
  {
    match p
    case Frame(id, payload, _) => r == Received(id, payload)
    case BadCheck(_) => r == CheckMismatch
    case BadEnd(_) => r == BadEofMarker
    case Short => false
  }

  /** The part of `s` that has come in when `left` is still to arrive. */
  function Arrived(s: seq<byte>, left: seq<byte>): seq<byte>
  {
    if |left| <= |s| then s[..|s| - |left|] else []
  }

  /** What has come in of a frame is short when it ends before the checksum, or behind a good checksum. */
  lemma PrefixIsShort(s: seq<byte>, m: nat)
    requires m <= |s|
    requires m >= 3 ==> var n := LengthField(s[1], s[2]);
      m < 4 + n || (m == 4 + n && s[3 + n] == XorFold(0, s[..3 + n]))
    ensures ParseBody(s[..m]).Short?
  {
    if m >= 3 {
      var n := LengthField(s[1], s[2]);
      if m == 4 + n {
        assert s[..m][..3 + n] == s[..3 + n];
      }
    }
  }

  /** `s` split behind its header and its payload. */
  lemma BodyOf(s: seq<byte>, id: byte, h: byte, l: byte, payload: seq<byte>, rest: seq<byte>)
    requires s == [id, h, l] + payload + rest && |payload| == LengthField(h, l)
    ensures ParseBody(s) ==
      (if rest == [] then Short
       else if rest[0] != XorFold(XorFold(0, [id, h, l]), payload) then BadCheck(rest[1..])
       else if |rest| == 1 then Short
       else if rest[1] != EOF then BadEnd(rest[2..])
       else Frame(id, payload, rest[2..]))
    ensures s[..3 + |payload|] == [id, h, l] + payload && s[3 + |payload|..] == rest
    ensures XorFold(0, s[..3 + |payload|]) == XorFold(XorFold(0, [id, h, l]), payload)
  {
    var n := |payload|;
    XorFoldAppend(0, [id, h, l], payload);
    assert s[..3 + n] == [id, h, l] + payload && s[3 + n..] == rest && s[3..3 + n] == payload;
    assert |rest| >= 1 ==> s[4 + n..] == rest[1..];
    assert |rest| >= 2 ==> s[5 + n..] == rest[2..];
  }

  lemma HeaderFold(a: byte, b: byte, c: byte)
    ensures XorFold(0, [a, b, c]) == Xor(Xor(a, b), c)
  {
    XorZero(a);
    var s := [a, b, c];
    assert s[1..] == [b, c] && s[1..][1..] == [c] && s[1..][1..][1..] == [];
    assert XorFold(Xor(a, b), [c]) == Xor(Xor(a, b), c);
    assert XorFold(a, [b, c]) == XorFold(Xor(a, b), [c]);
  }

  /** The three header bytes, each under the deadline; their fold is the running checksum. */
  method RecvHeader(bp: BufferedPort, deadline: nat) returns (header: Option<seq<byte>>, chk: byte)
    modifies bp`buf, bp.port`stream, bp.port`now
    ensures header.Some? ==> |header.value| == 3 && header.value + bp.Pending() == old(bp.Pending())
                             && chk == XorFold(0, header.value)
    ensures header.None? ==> bp.port.now >= deadline && |bp.port.stream| <= |old(bp.Pending())|
                             && |Arrived(old(bp.Pending()), bp.port.stream)| < 3
  {
    chk := 0;
    var id := bp.ReadByte(deadline);
    if id.None? {
      return None, 0;
    }
    chk := id.value;
    var h := bp.ReadByte(deadline);
    if h.None? {
      return None, 0;
    }
    chk := Xor(chk, h.value);
    var l := bp.ReadByte(deadline);
    if l.None? {
      return None, 0;
    }
    chk := Xor(chk, l.value);
    HeaderFold(id.value, h.value, l.value);
    return Some([id.value, h.value, l.value]), chk;
  }

  method FoldPayload(start: byte, payload: seq<byte>) returns (chk: byte)
    ensures chk == XorFold(start, payload)
  {
    chk := start;
    for i := 0 to |payload|
      invariant chk == XorFold(start, payload[..i])
    {
      assert payload[..i + 1] == payload[..i] + [payload[i]];
      XorFoldAppend(start, payload[..i], [payload[i]]);
      chk := Xor(chk, payload[i]);
    }
    assert payload[..|payload|] == payload;
  }

  /** What comes of the checksum and end marker in `rest`, when `left` of the stream is not there yet and
      `after` is unread, against the checksum `chk` of what came before. */
  ghost predicate Trailed(r: Received, rest: seq<byte>, left: seq<byte>, after: seq<byte>, chk: byte, id: byte,
                          payload: seq<byte>)
  {
    match r
    case Timeout => |left| <= |rest| && (|rest| == |left| || (|rest| == |left| + 1 && rest[0] == chk))
    case CheckMismatch => rest != [] && rest[0] != chk && after == rest[1..]
    case BadEofMarker => |rest| >= 2 && rest[0] == chk && rest[1] != EOF && after == rest[2..]
    case Received(i, p) =>
      |rest| >= 2 && rest[0] == chk && rest[1] == EOF && after == rest[2..] && i == id && p == payload
  }

  method RecvTrailer(bp: BufferedPort, deadline: nat, chk: byte, id: byte, payload: seq<byte>) returns (r: Received)
    modifies bp`buf, bp.port`stream, bp.port`now
    ensures Trailed(r, old(bp.Pending()), bp.port.stream, bp.Pending(), chk, id, payload)
    ensures r.Timeout? ==> bp.port.now >= deadline
  {
    var b := bp.ReadByte(deadline);
    if b.None? {
      return Timeout;
    }
    if b.value != chk {
      return CheckMismatch;
    }
    var e := bp.ReadByte(deadline);
    if e.None? {
      return Timeout;
    }
    if e.value != EOF {
      return BadEofMarker;
    }
    return Received(id, payload);
  }

  /** With the payload read, the trailer decides as the parser does. */
  lemma TrailerDecides(s: seq<byte>, id: byte, h: byte, l: byte, payload: seq<byte>, rest: seq<byte>,
                       left: seq<byte>, after: seq<byte>, r: Received)
    requires s == [id, h, l] + payload + rest && |payload| == LengthField(h, l)
    requires Trailed(r, rest, left, after, XorFold(XorFold(0, [id, h, l]), payload), id, payload)
    ensures r.Timeout? ==> |left| <= |s| && ParseBody(Arrived(s, left)).Short?
    ensures !r.Timeout? ==> var p := ParseBody(s); Reports(r, p) && after == p.rest
  {
    BodyOf(s, id, h, l, payload, rest);
    if r.Timeout? {
      PrefixIsShort(s, |s| - |left|);
    }
  }

  lemma PayloadIsMissing(s: seq<byte>, id: byte, h: byte, l: byte, rest: seq<byte>, left: seq<byte>)
    requires s == [id, h, l] + rest && |left| <= |rest| && |rest| - |left| < LengthField(h, l)
    ensures |left| <= |s| && ParseBody(Arrived(s, left)).Short?
  {
    PrefixIsShort(s, |s| - |left|);
  }

  /** The bytes behind the header of `s`, with its checksum in `chk0`. */
  method RecvPayload(bp: BufferedPort, deadline: nat, id: byte, h: byte, l: byte, chk0: byte, ghost s: seq<byte>)
    returns (r: Received)
    requires s == [id, h, l] + bp.Pending() && chk0 == XorFold(0, [id, h, l])
    modifies bp`buf, bp.port`stream, bp.port`now
    ensures r.Timeout? ==> bp.port.now >= deadline && |bp.port.stream| <= |s|
                           && ParseBody(Arrived(s, bp.port.stream)).Short?
    ensures !r.Timeout? ==> var p := ParseBody(s); Reports(r, p) && bp.Pending() == p.rest
  {
    ghost var body := bp.Pending();
    var payload := bp.ReadN(LengthField(h, l), deadline);
    if payload.None? {
      PayloadIsMissing(s, id, h, l, body, bp.port.stream);
      return Timeout;
    }
    ghost var rest := bp.Pending();
    var chk := FoldPayload(chk0, payload.value);
    r := RecvTrailer(bp, deadline, chk, id, payload.value);
    assert [id, h, l] + body == [id, h, l] + payload.value + rest;
    TrailerDecides(s, id, h, l, payload.value, rest, bp.port.stream, bp.Pending(), r);
  }

  /** The bytes behind the SOF. When the deadline passes, what had come in was not a whole frame. */
  method RecvBody(bp: BufferedPort, deadline: nat) returns (r: Received)
    modifies bp`buf, bp.port`stream, bp.port`now
    ensures r.Timeout? ==> bp.port.now >= deadline && |bp.port.stream| <= |old(bp.Pending())|
                           && ParseBody(Arrived(old(bp.Pending()), bp.port.stream)).Short?
    ensures !r.Timeout? ==> var p := ParseBody(old(bp.Pending())); Reports(r, p) && bp.Pending() == p.rest
  {
    ghost var s := bp.Pending();
    var header, chk := RecvHeader(bp, deadline);
    if header.None? {
      PrefixIsShort(s, |s| - |bp.port.stream|);
      return Timeout;
    }
    var id, h, l := header.value[0], header.value[1], header.value[2];
    assert header.value == [id, h, l];
    r := RecvPayload(bp, deadline, id, h, l, chk, s);
  }

  /** `recv_frame`: however the port cuts the stream into pieces, the answer is that of `ParseFrame` on the
      whole stream and the unread bytes are intact; or the deadline passed before a whole frame had come in. */
  method RecvFrame(bp: BufferedPort, deadline: nat) returns (r: Received)
    modifies bp`buf, bp.port`stream, bp.port`now
    ensures r.Timeout? ==> bp.port.now >= deadline && |bp.port.stream| <= |old(bp.Pending())|
                           && ParseFrame(Arrived(old(bp.Pending()), bp.port.stream)).Short?
    ensures !r.Timeout? ==> var p := ParseFrame(old(bp.Pending())); Reports(r, p) && bp.Pending() == p.rest
  {
    ghost var s, junk: seq<byte> := bp.Pending(), [];
    while true
      invariant s == junk + bp.Pending() && SOF !in junk
      decreases |bp.Pending()|
    {
      var b := bp.ReadByte(deadline);
      if b.None? {
        assert Arrived(s, bp.port.stream) == junk + [];
        JunkIsSkipped(junk, []);
        return Timeout;
      }
      if b.value == SOF {
        ghost var body := bp.Pending();
        assert s == junk + [SOF] + body;
        r := RecvBody(bp, deadline);
        FrameBehindJunk(junk, body, bp.port.stream);
        return;
      }
      junk := junk + [b.value];
    }
  }

  lemma FrameBehindJunk(junk: seq<byte>, body: seq<byte>, left: seq<byte>)
    requires SOF !in junk
    ensures ParseFrame(junk + [SOF] + body) == ParseBody(body)
    ensures |left| <= |body| ==> ParseFrame(Arrived(junk + [SOF] + body, left)) == ParseBody(Arrived(body, left))
  {
    var part := Arrived(body, left);
    JunkIsSkipped(junk, [SOF] + body);
    JunkIsSkipped(junk, [SOF] + part);
    assert ([SOF] + body)[1..] == body && ([SOF] + part)[1..] == part;
    assert junk + [SOF] + body == junk + ([SOF] + body);
    assert |left| <= |body| ==> Arrived(junk + [SOF] + body, left) == junk + ([SOF] + part);
  }

  /** `send_frame` on the host; a payload whose length has no two-byte form raises before anything is written. */
  method SendFrame(port: SerialPort, id: byte, payload: seq<byte>) returns (ok: bool)
    modifies port`output
    ensures ok <==> |payload| < 65536
    ensures port.output == old(port.output) + (if |payload| < 65536 then FrameBytes(id, payload) else [])
  {
    var length := |payload|;
    if length >= 65536 {
      return false;
    }
    var chk := Xor(Xor(id, length / 256), length % 256);
    HeaderFold(id, length / 256, length % 256);
    XorFoldAppend(0, Header(id, length), payload);
    chk := FoldPayload(chk, payload);
    port.Write([SOF] + [id] + [length / 256] + [length % 256] + payload + [chk] + [EOF]);
    assert [SOF] + [id] + [length / 256] + [length % 256] + payload + [chk] + [EOF] == FrameBytes(id, payload);
    return true;
  }

  // ----- the guest's side -----

  function Inc(v: byte): byte
  {
    if v == 255 then 0 else v + 1
  }

  /** `v` after `n` increments. */
  function Stepped(v: byte, n: nat): byte
    decreases n
  {
    if n == 0 then v else Stepped(Inc(v), n - 1)
  }

  /** The test pattern: `n` bytes counting up from `v`. */
  function Counting(v: byte, n: nat): (s: seq<byte>)
    ensures |s| == n
    decreases n
  {
    if n == 0 then [] else [v] + Counting(Inc(v), n - 1)
  }

  lemma {:induction false} CountingAt(v: byte, n: nat, i: nat)
    requires i < n
    ensures Counting(v, n)[i] == (v + i) % 256
    decreases n
  {
    if i > 0 {
      CountingAt(Inc(v), n - 1, i - 1);
    }
  }

  /** The turns of a loop that counts a 16-bit register down at its end: none is skipped, so 0 means 65536. */
  function LoopTurns(len: nat): nat
  {
    if len == 0 then len + 65536 else len
  }

  /** What the guest's `send_frame` puts on the line. */
  function GuestFrame(id: byte, len: nat, v: byte): seq<byte>
    requires len < 65536
  {
    var body := Header(id, len) + Counting(v, LoopTurns(len));
    [SOF] + body + [XorFold(0, body), EOF]
  }

  function Dec16(x: nat): nat
  {
    if x == 0 then 65535 else x - 1
  }

  lemma PatternStep(sent: seq<byte>, chk: byte, sv: byte, left: nat)
    requires left > 0
    ensures sent + [sv] + Counting(Inc(sv), left - 1) == sent + Counting(sv, left)
    ensures XorFold(Xor(chk, sv), Counting(Inc(sv), left - 1)) == XorFold(chk, Counting(sv, left))
    ensures Stepped(Inc(sv), left - 1) == Stepped(sv, left)
  {
    assert Counting(sv, left)[1..] == Counting(Inc(sv), left - 1);
  }

  /** The payload loop: X counts down at its end. */
  method SendPattern(line: Line, len: nat, v: byte, ghost total: nat) returns (sv: byte, chk: byte)
    requires len < 65536 && total == LoopTurns(len)
    modifies line`output
    ensures line.output == old(line.output) + Counting(v, total)
    ensures chk == XorFold(0, Counting(v, total)) && sv == Stepped(v, total)
  {
    var x := len;
    sv, chk := v, 0;
    ghost var sent, left := [], total;
    while true
      invariant 0 < left <= 65536 && x == (if left == 65536 then 0 else left)
      invariant line.output == old(line.output) + sent
      invariant sent + Counting(sv, left) == Counting(v, total)
      invariant XorFold(chk, Counting(sv, left)) == XorFold(0, Counting(v, total))
      invariant Stepped(sv, left) == Stepped(v, total)
      decreases left
    {
      PatternStep(sent, chk, sv, left);
      sent, left := sent + [sv], left - 1;
      chk := Xor(chk, sv);
      line.TxByte(sv);
      sv := Inc(sv);
      x := Dec16(x);
      if x == 0 {
        assert left == 0;
        assert sent + [] == sent;
        return;
      }
    }
  }

  method SendGuestHeader(line: Line, id: byte, len: nat) returns (chk: byte)
    requires len < 65536
    modifies line`output
    ensures line.output == old(line.output) + [SOF] + Header(id, len) && chk == XorFold(0, Header(id, len))
  {
    line.TxByte(SOF);
    chk := id;
    line.TxByte(id);
    chk := Xor(chk, len / 256);
    line.TxByte(len / 256);
    chk := Xor(chk, len % 256);
    line.TxByte(len % 256);
    HeaderFold(id, len / 256, len % 256);
  }

  lemma ChecksumOfFrame(header: seq<byte>, sent: seq<byte>)
    ensures Xor(XorFold(0, header), XorFold(0, sent)) == XorFold(0, header + sent)
  {
    XorFoldAppend(0, header, sent);
    XorFoldShift(XorFold(0, header), sent);
  }

  lemma FrameInParts(before: seq<byte>, header: seq<byte>, sent: seq<byte>, chk: byte)
    ensures before + [SOF] + header + sent + [chk] + [EOF] == before + ([SOF] + (header + sent) + [chk, EOF])
  {
  }

  method SendGuestFrame(line: Line, id: byte, len: nat, v: byte) returns (sv: byte)
    requires len < 65536
    modifies line`output
    ensures line.output == old(line.output) + GuestFrame(id, len, v)
    ensures sv == Stepped(v, LoopTurns(len))
  {
    ghost var before, sent := line.output, Counting(v, LoopTurns(len));
    var chk := SendGuestHeader(line, id, len);
    var payloadChk;
    sv, payloadChk := SendPattern(line, len, v, LoopTurns(len));
    ChecksumOfFrame(Header(id, len), sent);
    chk := Xor(chk, payloadChk);
    FrameInParts(before, Header(id, len), sent, chk);
    line.TxByte(chk);
    line.TxByte(EOF);
  }

  /** The guest's frame is a frame of the format exactly when its length is not 0. */
  lemma GuestFrameIsFrameIff(id: byte, len: nat, v: byte)
    requires len < 65536
    ensures len != 0 <==> exists payload :: |payload| < 65536 && GuestFrame(id, len, v) == FrameBytes(id, payload)
    ensures len != 0 ==> GuestFrame(id, len, v) == FrameBytes(id, Counting(v, len))
  {
    if len != 0 {
      assert GuestFrame(id, len, v) == FrameBytes(id, Counting(v, len));
    } else {
      assert |GuestFrame(id, len, v)| == 65542;
      forall payload | |payload| < 65536
        ensures GuestFrame(id, len, v) != FrameBytes(id, payload)
      {
        assert |FrameBytes(id, payload)| == |payload| + 6;
      }
    }
  }

  /** The pattern errors that the guest counts: it takes up the pattern again from each wrong byte. */
  function Mismatches(payload: seq<byte>, expected: byte): nat
    decreases |payload|
  {
    if payload == [] then 0
    else (if payload[0] == expected then 0 else 1) + Mismatches(payload[1..], Inc(payload[0]))
  }

  lemma {:induction false} NoMismatchIff(payload: seq<byte>, expected: byte)
    ensures Mismatches(payload, expected) == 0 <==> payload == Counting(expected, |payload|)
    decreases |payload|
  {
    if payload != [] {
      NoMismatchIff(payload[1..], Inc(payload[0]));
      assert payload == [payload[0]] + payload[1..];
      assert Counting(expected, |payload|)[1..] == Counting(Inc(expected), |payload| - 1);
    }
  }

  /** The return codes of the guest's `recv_frame`; `Hang` stands for its read loop without a timeout. */
  datatype Code = Pass | NoByte | NotSof | WrongLength | WrongCheck | WrongEnd | Hang

  /** The return value of `recv_frame`; there is none while it waits for a payload byte. */
  function ReturnValue(c: Code): Option<byte>
  {
    match c
    case Pass => Some(0)
    case NoByte => Some(1)
    case NotSof => Some(2)
    case WrongLength => Some(3)
    case WrongCheck => Some(4)
    case WrongEnd => Some(5)
    case Hang => None
  }

  datatype Echo = Echo(code: Code, errors: nat)

  function SeqError(s: seq<byte>, id: byte): nat
    requires |s| >= 2
  {
    if s[1] == id then 0 else 1
  }

  /** How the reading of an echo ends before its payload, if it does. */
  function EarlyEnd(s: seq<byte>, id: byte, len: nat): (e: Option<Echo>)
    ensures e.None? ==> |s| >= 4
  {
    if s == [] then Some(Echo(NoByte, 0))
    else if s[0] != SOF then Some(Echo(NotSof, 1))
    else if |s| < 2 then Some(Echo(NoByte, 0))
    else if |s| < 4 then Some(Echo(NoByte, SeqError(s, id)))
    else if LengthField(s[2], s[3]) != len then Some(Echo(WrongLength, SeqError(s, id) + 1))
    else None
  }

  /** The checksum and the end marker in `s`, against the checksum of what came before. */
  function TrailerCode(s: seq<byte>, chk: byte): Code
  {
    if s == [] then NoByte
    else if s[0] != chk then WrongCheck
    else if |s| == 1 then NoByte
    else if s[1] != EOF then WrongEnd
    else Pass
  }

  /** The payload `s` and what follows, behind a header whose checksum is `head`: `turns` bytes are read, and
      the first `len` of them are looked at. */
  function BodyEcho(s: seq<byte>, head: byte, len: nat, turns: nat, v: byte): Echo
    requires len <= turns
  {
    if |s| < turns then Echo(Hang, 0)
    else
      var code := TrailerCode(s[turns..], XorFold(head, s[..len]));
      Echo(code, Mismatches(s[..len], v) + if code.WrongCheck? || code.WrongEnd? then 1 else 0)
  }

  /** What the guest makes of the echo `s` of a frame that it expects to carry `len` pattern bytes from `v`. */
  function EchoOf(s: seq<byte>, id: byte, len: nat, v: byte): Echo
  {
    match EarlyEnd(s, id, len)
    case Some(e) => e
    case None =>
      var e := BodyEcho(s[4..], Xor(Xor(s[1], s[2]), s[3]), len, LoopTurns(len), v);
      e.(errors := SeqError(s, id) + e.errors)
  }

  /** The echo is the frame that was sent, as far as the receiver looks: of a payload that its read loop takes
      for 65536 bytes it looks at none. */
  predicate Matches(s: seq<byte>, id: byte, len: nat, turns: nat, v: byte)
    requires len <= turns && len < 65536
  {
    && |s| >= 6 + turns
    && s[..4] == [SOF, id, len / 256, len % 256]
    && s[4..4 + len] == Counting(v, len)
    && s[4 + turns] == XorFold(0, Header(id, len) + Counting(v, len))
    && s[5 + turns] == EOF
  }

  lemma EchoMatchesIff(s: seq<byte>, id: byte, len: nat, turns: nat, v: byte)
    requires len < 65536 && turns == LoopTurns(len)
    ensures EchoOf(s, id, len, v) == Echo(Pass, 0) <==> Matches(s, id, len, turns, v)
  {
    if |s| >= 6 + turns {
      var p, c := s[4..][..len], Counting(v, len);
      assert p == s[4..4 + len];
      NoMismatchIff(p, v);
      HeaderFold(s[1], s[2], s[3]);
      XorFoldAppend(0, Header(id, len), c);
      LengthBytes(s[2], s[3]);
    }
  }

  /** An echo of at least one byte passes without an error exactly when it is the frame that was sent. */
  lemma EchoPassesIff(s: seq<byte>, id: byte, len: nat, v: byte)
    requires 1 <= len < 65536
    ensures EchoOf(s, id, len, v) == Echo(Pass, 0)
        <==> |s| >= 6 + len && s[..6 + len] == GuestFrame(id, len, v)
  {
    EchoMatchesIff(s, id, len, len, v);
    if |s| >= 6 + len {
      var p, c := s[4..4 + len], Counting(v, len);
      FramesEqualIff(s[..4], p, [s[4 + len], s[5 + len]],
                     [SOF, id, len / 256, len % 256], c, [XorFold(0, Header(id, len) + c), EOF]);
      assert s[..6 + len] == s[..4] + p + [s[4 + len], s[5 + len]];
      assert GuestFrame(id, len, v)
          == [SOF, id, len / 256, len % 256] + c + [XorFold(0, Header(id, len) + c), EOF];
    }
  }

  lemma ForeignEcho(id: byte, len: nat, turns: nat, v: byte) returns (s: seq<byte>)
    requires len == 0 && turns == LoopTurns(len)
    ensures EchoOf(s, id, len, v) == Echo(Pass, 0) && |s| == 6 + turns && s[5] == v
  {
    var c := Counting(v, len);
    s := [SOF, id, len / 256, len % 256] + Copies(v, turns) + [XorFold(0, Header(id, len) + c), EOF];
    assert s[..4] == [SOF, id, len / 256, len % 256] && s[4..4 + len] == c;
    EchoMatchesIff(s, id, len, turns, v);
  }

  lemma SecondPatternByte(id: byte, len: nat, turns: nat, v: byte)
    requires len < 65536 && turns == LoopTurns(len) && turns > 1
    ensures |GuestFrame(id, len, v)| == 6 + turns && GuestFrame(id, len, v)[5] == (v + 1) % 256
  {
    CountingAt(v, turns, 1);
  }

  /** A pass says that the frame came back exactly when the length is not 0. */
  lemma PassMeansFrameIff(id: byte, len: nat, turns: nat, v: byte)
    requires len < 65536 && turns == LoopTurns(len)
    ensures len != 0 <==> forall s :: EchoOf(s, id, len, v) == Echo(Pass, 0) ==>
                            |s| >= 6 + turns && s[..6 + turns] == GuestFrame(id, len, v)
  {
    if len != 0 {
      forall s | EchoOf(s, id, len, v) == Echo(Pass, 0)
        ensures |s| >= 6 + turns && s[..6 + turns] == GuestFrame(id, len, v)
      {
        EchoPassesIff(s, id, len, v);
      }
    } else {
      var s := ForeignEcho(id, len, turns, v);
      SecondPatternByte(id, len, turns, v);
    }
  }

  lemma FramesEqualIff(a: seq<byte>, p: seq<byte>, z: seq<byte>, a': seq<byte>, p': seq<byte>, z': seq<byte>)
    requires |a| == |a'| && |p| == |p'|
    ensures a + p + z == a' + p' + z' <==> a == a' && p == p' && z == z'
  {
    var s, s' := a + p + z, a' + p' + z';
    assert a == s[..|a|] && p == s[|a|..|a| + |p|] && z == s[|a| + |p|..];
    assert a' == s'[..|a|] && p' == s'[|a|..|a| + |p|] && z' == s'[|a| + |p|..];
  }

  lemma LengthBytes(h: byte, l: byte)
    ensures LengthField(h, l) / 256 == h && LengthField(h, l) % 256 == l
  {
  }

  /** The receive loop without a timeout: Y counts the bytes down at the end of the loop. */
  method ReadPayload(line: Line, rxPayload: array<byte>, len: nat, ghost turns: nat) returns (ok: bool)
    requires len < 65536 && turns == LoopTurns(len) <= rxPayload.Length
    modifies line`input, rxPayload
    ensures ok <==> |old(line.input)| >= turns
    ensures ok ==> rxPayload[..turns] == old(line.input)[..turns] && line.input == old(line.input)[turns..]
  {
    ghost var s, left := line.input, turns;
    var x, y := 0, len;
    while true
      invariant 0 < left <= 65536 && y == (if left == 65536 then 0 else left)
      invariant x + left == turns && x <= |s|
      invariant line.input == s[x..] && rxPayload[..x] == s[..x]
      decreases left
    {
      var a;
      ok, a := line.RxByte();
      if !ok {
        return;
      }
      assert a == s[x];
      rxPayload[x] := a;
      x, y, left := x + 1, Dec16(y), left - 1;
      if y == 0 {
        return;
      }
    }
  }

  /** Where the verification of `p` stands behind its first `i` bytes. */
  ghost predicate Verified(p: seq<byte>, start: byte, v: byte, i: nat, chk: byte, expected: byte, counted: nat)
  {
    && i <= |p| && chk == XorFold(start, p[..i])
    && counted + Mismatches(p[i..], expected) == Mismatches(p, v)
    && expected == if i == 0 then v else Inc(p[i - 1])
  }

  lemma VerifyOne(p: seq<byte>, start: byte, v: byte, i: nat, chk: byte, expected: byte, counted: nat)
    requires i < |p| && Verified(p, start, v, i, chk, expected, counted)
    ensures Verified(p, start, v, i + 1, Xor(chk, p[i]), Inc(p[i]), counted + if p[i] == expected then 0 else 1)
  {
    assert p[..i + 1] == p[..i] + [p[i]] && p[i..][1..] == p[i + 1..];
    XorFoldAppend(start, p[..i], [p[i]]);
  }

  lemma Count16(x: nat)
    ensures (x % 65536 + 1) % 65536 == (x + 1) % 65536
  {
    Split65536(x, x / 65536, x % 65536);
  }

  /** The verification loop: the checksum goes on from `start`, errors are counted in 16 bits. */
  method VerifyPattern(rxPayload: array<byte>, len: nat, start: byte, v: byte, errors0: nat)
    returns (chk: byte, expected: byte, errors: nat)
    requires len <= rxPayload.Length && errors0 < 65536
    ensures chk == XorFold(start, rxPayload[..len])
    ensures errors == (errors0 + Mismatches(rxPayload[..len], v)) % 65536
    ensures expected == if len == 0 then v else Inc(rxPayload[len - 1])
  {
    ghost var p := rxPayload[..len];
    ghost var counted := 0;
    chk, expected, errors := start, v, errors0;
    for i := 0 to len
      invariant Verified(p, start, v, i, chk, expected, counted)
      invariant errors == (errors0 + counted) % 65536
    {
      VerifyOne(p, start, v, i, chk, expected, counted);
      Count16(errors0 + counted);
      chk := Xor(chk, rxPayload[i]);
      if rxPayload[i] != expected {
        errors := (errors + 1) % 65536;
        counted := counted + 1;
        expected := rxPayload[i];
      }
      expected := Inc(expected);
    }
    assert p[..len] == p;
  }

  /** The start of the guest's `recv_frame`; `chk` is the checksum so far. */
  method RecvEchoHeader(line: Line, id: byte, len: nat) returns (end: Option<Code>, errors: nat, chk: byte)
    modifies line`input
    ensures var s := old(line.input);
      match EarlyEnd(s, id, len)
      case Some(e) => end == Some(e.code) && errors == e.errors
      case None => end == None && errors == SeqError(s, id) && chk == Xor(Xor(s[1], s[2]), s[3])
                   && line.input == s[4..]
  {
    errors, chk := 0, 0;
    var ok, b;
    ok, b := line.RxByte();
    if !ok {
      return Some(NoByte), errors, chk;
    }
    if b != SOF {
      return Some(NotSof), errors + 1, chk;
    }
    ok, b := line.RxByte();
    if !ok {
      return Some(NoByte), errors, chk;
    }
    chk := b;
    if b != id {
      errors := errors + 1;
    }
    var h, l;
    ok, h := line.RxByte();
    if !ok {
      return Some(NoByte), errors, chk;
    }
    ok, l := line.RxByte();
    if !ok {
      return Some(NoByte), errors, chk;
    }
    chk := Xor(Xor(chk, h), l);
    assert old(line.input) == [SOF, b, h, l] + line.input;
    if LengthField(h, l) != len {
      return Some(WrongLength), errors + 1, chk;
    }
    return None, errors, chk;
  }

  method RecvEchoTrailer(line: Line, chk: byte) returns (code: Code)
    modifies line`input
    ensures code == TrailerCode(old(line.input), chk)
  {
    var ok, b := line.RxByte();
    if !ok {
      return NoByte;
    }
    if b != chk {
      return WrongCheck;
    }
    ok, b := line.RxByte();
    if !ok {
      return NoByte;
    }
    if b != EOF {
      return WrongEnd;
    }
    return Pass;
  }

  /** The rest of it, with a 16-bit error counter that starts at `errors0`. */
  method RecvEchoBody(line: Line, rxPayload: array<byte>, head: byte, len: nat, v: byte, errors0: nat,
                      ghost turns: nat)
    returns (code: Code, errors: nat)
    requires len < 65536 && turns == LoopTurns(len) <= rxPayload.Length && errors0 < 65536
    modifies line`input, rxPayload
    ensures var e := BodyEcho(old(line.input), head, len, turns, v);
      code == e.code && errors == (errors0 + e.errors) % 65536
  {
    errors := errors0;
    ghost var s := line.input;
    var ok := ReadPayload(line, rxPayload, len, turns);
    if !ok {
      return Hang, errors;
    }
    assert rxPayload[..len] == s[..len] by {
      assert s[..turns][..len] == s[..len] && rxPayload[..turns][..len] == rxPayload[..len];
    }
    var chk, expected;
    chk, expected, errors := VerifyPattern(rxPayload, len, head, v, errors);
    code := RecvEchoTrailer(line, chk);
    if code.WrongCheck? || code.WrongEnd? {
      Count16(errors0 + Mismatches(s[..len], v));
      errors := (errors + 1) % 65536;
    }
  }

  /** `recv_frame` on the guest, with a payload buffer that its read loop does not leave. */
  method RecvEcho(line: Line, rxPayload: array<byte>, id: byte, len: nat, v: byte, errors0: nat)
    returns (rc: Option<byte>, errors: nat)
    requires len < 65536 && LoopTurns(len) <= rxPayload.Length && errors0 < 65536
    modifies line`input, rxPayload
    ensures var e := EchoOf(old(line.input), id, len, v);
      rc == ReturnValue(e.code) && errors == (errors0 + e.errors) % 65536
  {
    var end, first, chk := RecvEchoHeader(line, id, len);
    errors := (errors0 + first) % 65536;
    if end.Some? {
      return ReturnValue(end.value), errors;
    }
    var code;
    code, errors := RecvEchoBody(line, rxPayload, chk, len, v, errors, LoopTurns(len));
    rc := ReturnValue(code);
  }
}
