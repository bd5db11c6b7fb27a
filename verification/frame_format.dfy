/** The packet format of the flow-control stress test, and its reader on a whole byte stream. */
module FrameFormat {
  import opened Bytes

  const SOF: byte := 0x02
  const EOF: byte := 0x03

  function Header(id: byte, n: nat): seq<byte>
    requires n < 65536
  {
    [id, n / 256, n % 256]
  }

  /** What stands between the SOF and the checksum. */
  function Checked(id: byte, payload: seq<byte>): seq<byte>
    requires |payload| < 65536
  {
    Header(id, |payload|) + payload
  }

  function FrameBytes(id: byte, payload: seq<byte>): seq<byte>
    requires |payload| < 65536
  {
    [SOF] + Checked(id, payload) + [XorFold(0, Checked(id, payload)), EOF]
  }

  /** `Short`: the stream ended inside the frame. */
  datatype Parsed =
    | Frame(id: byte, payload: seq<byte>, rest: seq<byte>)
    | BadCheck(rest: seq<byte>)
    | BadEnd(rest: seq<byte>)
    | Short

  function ParseFrame(s: seq<byte>): Parsed
    decreases |s|
  {
    if s == [] then Short
    else if s[0] == SOF then ParseBody(s[1..])
    else ParseFrame(s[1..])
  }

  function LengthField(high: byte, low: byte): nat
  {
    var h: nat := high;
    256 * h + low
  }

  function ParseBody(s: seq<byte>): Parsed
  {
    if |s| < 3 then Short else ParseTail(s, LengthField(s[1], s[2]))
  }

  function ParseTail(s: seq<byte>, n: nat): Parsed
    requires |s| >= 3
  {
    if |s| < 4 + n then Short
    else if s[3 + n] != XorFold(0, s[..3 + n]) then BadCheck(s[4 + n..])
    else if |s| < 5 + n then Short
    else if s[4 + n] != EOF then BadEnd(s[5 + n..])
    else Frame(s[0], s[3..3 + n], s[5 + n..])
  }

  lemma {:induction false} JunkIsSkipped(junk: seq<byte>, s: seq<byte>)
    requires SOF !in junk
    ensures ParseFrame(junk + s) == ParseFrame(s)
    decreases |junk|
  {
    if junk == [] {
      assert junk + s == s;
    } else {
      assert (junk + s)[1..] == junk[1..] + s;
      JunkIsSkipped(junk[1..], s);
    }
  }

  /** A body of the right shape, with any checksum and end marker. */
  lemma BodyParses(id: byte, payload: seq<byte>, chk: byte, end: byte, tail: seq<byte>)
    requires |payload| < 65536
    ensures ParseBody(Checked(id, payload) + [chk, end] + tail)
         == if chk != XorFold(0, Checked(id, payload)) then BadCheck([end] + tail)
            else if end != EOF then BadEnd(tail)
            else Frame(id, payload, tail)
  {
    var n, s := |payload|, Checked(id, payload) + [chk, end] + tail;
    assert LengthField(s[1], s[2]) == n;
    assert s[..3 + n] == Checked(id, payload) && s[3 + n] == chk && s[4 + n] == end;
    assert s[3..3 + n] == payload && s[4 + n..] == [end] + tail && s[5 + n..] == tail;
  }

  /** Reading undoes writing: junk without an SOF is skipped, the frame comes back, and what follows stays. */
  lemma FrameRoundTrip(junk: seq<byte>, id: byte, payload: seq<byte>, tail: seq<byte>)
    requires SOF !in junk && |payload| < 65536
    ensures ParseFrame(junk + FrameBytes(id, payload) + tail) == Frame(id, payload, tail)
  {
    var c := Checked(id, payload);
    var body := c + [XorFold(0, c), EOF] + tail;
    assert junk + FrameBytes(id, payload) + tail == junk + ([SOF] + body);
    JunkIsSkipped(junk, [SOF] + body);
    assert ([SOF] + body)[1..] == body;
    BodyParses(id, payload, XorFold(0, c), EOF, tail);
  }

  /** The SEQ byte, a payload byte or the CHK byte of a frame with `n` payload bytes. */
  predicate Guarded(k: nat, n: nat)
  {
    k == 1 || 4 <= k < 5 + n
  }

  /** A damaged frame is a frame but for its checksum. */
  lemma DamagedParts(id: byte, payload: seq<byte>, k: nat, b: byte)
    requires |payload| < 65536 && Guarded(k, |payload|) && b != FrameBytes(id, payload)[k]
    ensures var n, damaged := |payload|, FrameBytes(id, payload)[k := b];
      var c := Checked(damaged[1], damaged[4..4 + n]);
      damaged == [SOF] + c + [damaged[4 + n], EOF] && damaged[4 + n] != XorFold(0, c)
  {
    var c, n := Checked(id, payload), |payload|;
    var damaged := FrameBytes(id, payload)[k := b];
    var c' := Checked(damaged[1], damaged[4..4 + n]);
    assert damaged == [SOF] + c' + [damaged[4 + n], EOF];
    if k < 4 + n {
      assert c' == c[k - 1 := b] && damaged[4 + n] == XorFold(0, c);
      XorFoldDetects(0, c, k - 1, b);
    } else {
      assert c' == c;
    }
  }

  /** A frame with any one guarded byte changed is rejected, up to and including its checksum byte. */
  lemma DamagedFrameIsRejected(junk: seq<byte>, id: byte, payload: seq<byte>, k: nat, b: byte, tail: seq<byte>)
    requires SOF !in junk && |payload| < 65536 && Guarded(k, |payload|)
    requires b != FrameBytes(id, payload)[k]
    ensures ParseFrame(junk + FrameBytes(id, payload)[k := b] + tail) == BadCheck([EOF] + tail)
  {
    var n := |payload|;
    var damaged := FrameBytes(id, payload)[k := b];
    var id', payload', chk' := damaged[1], damaged[4..4 + n], damaged[4 + n];
    DamagedParts(id, payload, k, b);
    var body := Checked(id', payload') + [chk', EOF] + tail;
    assert junk + damaged + tail == junk + ([SOF] + body);
    JunkIsSkipped(junk, [SOF] + body);
    assert ([SOF] + body)[1..] == body;
    BodyParses(id', payload', chk', EOF, tail);
  }

  // ----- many frames -----

  datatype Packet = Packet(id: byte, payload: seq<byte>)

  datatype Spaced = Spaced(junk: seq<byte>, packet: Packet)
  {
    predicate Valid() { SOF !in junk && |packet.payload| < 65536 }

    function Wire(): seq<byte>
      requires Valid()
    {
      junk + FrameBytes(packet.id, packet.payload)
    }
  }

  predicate AllValid(items: seq<Spaced>)
  {
    forall i :: 0 <= i < |items| ==> items[i].Valid()
  }

  function Wires(items: seq<Spaced>): seq<byte>
    requires AllValid(items)
  {
    if items == [] then [] else items[0].Wire() + Wires(items[1..])
  }

  function Packets(items: seq<Spaced>): seq<Packet>
  {
    if items == [] then [] else [items[0].packet] + Packets(items[1..])
  }

  /** `n` frames read one after the other; None when one of them fails. */
  function ReadMany(s: seq<byte>, n: nat): Option<(seq<Packet>, seq<byte>)>
    decreases n
  {
    if n == 0 then Some(([], s))
    else
      match ParseFrame(s)
      case Frame(id, payload, rest) =>
        (match ReadMany(rest, n - 1)
         case None => None
         case Some(r) => Some(([Packet(id, payload)] + r.0, r.1)))
      case _ => None
  }

  lemma {:induction false} ManyFramesRoundTrip(items: seq<Spaced>, tail: seq<byte>)
    requires AllValid(items)
    ensures ReadMany(Wires(items) + tail, |items|) == Some((Packets(items), tail))
    decreases |items|
  {
    if items == [] {
      assert Wires(items) + tail == tail;
    } else {
      var it, rest := items[0], Wires(items[1..]) + tail;
      assert Wires(items) + tail == it.junk + FrameBytes(it.packet.id, it.packet.payload) + rest;
      FrameRoundTrip(it.junk, it.packet.id, it.packet.payload, rest);
      ManyFramesRoundTrip(items[1..], tail);
    }
  }
}
