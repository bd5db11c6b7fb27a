/** The run-length code of the disk loader: PackBits as in section 9 of TIFF 6.0, but 128 ends the block. Two
    decoders of the repository read it, one in C and one in assembly. */
module PackBits {
  import opened Bytes

  const END_MARKER := 128

  /** `Starved`: the input ended first, so a blocking read waits for ever. */
  datatype Decoded = Decoded(out: seq<byte>, rest: seq<byte>) | Starved
  {
    function Behind(front: seq<byte>): Decoded
    {
      if Decoded? then Decoded(front + out, rest) else Starved
    }
  }

  /** What a repeat run stands for. */
  function Stretch(v: byte, n: nat): (s: seq<byte>)
    ensures |s| == n && forall i :: 0 <= i < n ==> s[i] == v
  {
    Copies(v, n)
  }

  function LiteralCount(control: byte): nat
    requires control < END_MARKER
  {
    control + 1
  }

  function RepeatCount(control: byte): nat
    requires control > END_MARKER
  {
    257 - control
  }

  /** What the next control byte leads to: the marker, a wait for more input, or the part of a run that fits,
      with `cut` telling that it was not the whole run. */
  datatype Turn = Marker(rest: seq<byte>) | Wait | Part(bytes: seq<byte>, rest: seq<byte>, cut: bool)

  function NextTurn(s: seq<byte>, room: nat): (t: Turn)
    ensures t.Part? ==> |t.bytes| <= room && |t.rest| < |s|
    ensures t.Marker? ==> |t.rest| < |s|
  {
    if s == [] then Wait
    else if s[0] == END_MARKER then Marker(s[1..])
    else if s[0] < END_MARKER then
      var n := Min(LiteralCount(s[0]), room);
      if |s| < 1 + n then Wait else Part(s[1..1 + n], s[1 + n..], n < LiteralCount(s[0]))
    else if |s| == 1 then Wait
    else
      var n := Min(RepeatCount(s[0]), room);
      Part(Stretch(s[1], n), s[2..], n < RepeatCount(s[0]))
  }

  /** chunk/diskload.c: a run that does not fit is cut off, and decoding goes on to the marker. */
  function DecodeC(s: seq<byte>, room: nat): (d: Decoded)
    ensures d.Decoded? ==> |d.out| <= room && |d.rest| < |s|
    decreases |s|
  {
    match NextTurn(s, room)
    case Marker(rest) => Decoded([], rest)
    case Wait => Starved
    case Part(bytes, rest, _) => DecodeC(rest, room - |bytes|).Behind(bytes)
  }

  /** chunk/dl.asm: decoding ends at the marker, or at once when a run does not fit. */
  function DecodeAsm(s: seq<byte>, room: nat): (d: Decoded)
    ensures d.Decoded? ==> |d.out| <= room && |d.rest| < |s|
    decreases |s|
  {
    match NextTurn(s, room)
    case Marker(rest) => Decoded([], rest)
    case Wait => Starved
    case Part(bytes, rest, cut) =>
      if cut then Decoded(bytes, rest) else DecodeAsm(rest, room - |bytes|).Behind(bytes)
  }

  /** No run of the block is longer than the room left for it. */
  predicate Fits(s: seq<byte>, room: nat)
    decreases |s|
  {
    match NextTurn(s, room)
    case Marker(_) => true
    case Wait => true
    case Part(bytes, rest, cut) => !cut && Fits(rest, room - |bytes|)
  }

  /** The two decoders agree on a stream exactly when every run fits. */
  lemma {:induction false} DecodersAgreeIff(s: seq<byte>, room: nat)
    ensures DecodeC(s, room) == DecodeAsm(s, room) <==> Fits(s, room)
    decreases |s|
  {
    var t := NextTurn(s, room);
    if t.Part? && t.cut {
      CutRunParts(s, room);
    } else if t.Part? {
      var c, a := DecodeC(t.rest, room - |t.bytes|), DecodeAsm(t.rest, room - |t.bytes|);
      assert DecodeC(s, room) == c.Behind(t.bytes) && DecodeAsm(s, room) == a.Behind(t.bytes);
      DecodersAgreeIff(t.rest, room - |t.bytes|);
      BehindInjective(t.bytes, c, a);
    }
  }

  /** Behind a run that is cut, the assembly decoder stops and the C decoder reads on. */
  lemma CutRunParts(s: seq<byte>, room: nat)
    requires NextTurn(s, room).Part? && NextTurn(s, room).cut
    ensures DecodeC(s, room) != DecodeAsm(s, room)
  {
    var t := NextTurn(s, room);
    var c := DecodeC(t.rest, room - |t.bytes|);
    assert c.Decoded? ==> |c.rest| < |t.rest|;
    assert DecodeC(s, room) == c.Behind(t.bytes);
  }

  lemma BehindInjective(front: seq<byte>, d: Decoded, e: Decoded)
    ensures d.Behind(front) == e.Behind(front) <==> d == e
  {
    if d.Decoded? && e.Decoded? && d.Behind(front) == e.Behind(front) {
      assert (front + d.out)[|front|..] == d.out && (front + e.out)[|front|..] == e.out;
    }
  }

  lemma BehindNothing(d: Decoded)
    ensures d.Behind([]) == d
  {
    if d.Decoded? {
      assert [] + d.out == d.out;
    }
  }

  lemma BehindTwice(a: seq<byte>, b: seq<byte>, d: Decoded)
    ensures d.Behind(b).Behind(a) == d.Behind(a + b)
  {
    if d.Decoded? {
      assert a + (b + d.out) == a + b + d.out;
    }
  }

  // ----- what an encoder produces -----

  datatype Run = Literal(bytes: seq<byte>) | Repeat(n: nat, v: byte)
  {
    predicate Valid()
    {
      match this
      case Literal(bytes) => 1 <= |bytes| <= 128
      case Repeat(n, _) => 2 <= n <= 128
    }

    function Expansion(): seq<byte>
    {
      match this
      case Literal(bytes) => bytes
      case Repeat(n, v) => Stretch(v, n)
    }

    function Code(): seq<byte>
      requires Valid()
    {
      match this
      case Literal(bytes) => [(|bytes| - 1) as byte] + bytes
      case Repeat(n, v) => [(257 - n) as byte, v]
    }
  }

  function Expand(runs: seq<Run>): seq<byte>
  {
    if runs == [] then [] else runs[0].Expansion() + Expand(runs[1..])
  }

  predicate AllValid(runs: seq<Run>)
  {
    forall i :: 0 <= i < |runs| ==> runs[i].Valid()
  }

  /** The runs without the marker. */
  function Codes(runs: seq<Run>): seq<byte>
    requires AllValid(runs)
  {
    if runs == [] then [] else runs[0].Code() + Codes(runs[1..])
  }

  function Encode(runs: seq<Run>): seq<byte>
    requires AllValid(runs)
  {
    Codes(runs) + [END_MARKER]
  }

  lemma RunIsOneTurn(r: Run, rest: seq<byte>, room: nat)
    requires r.Valid() && |r.Expansion()| <= room
    ensures NextTurn(r.Code() + rest, room) == Part(r.Expansion(), rest, false)
  {
    var s := r.Code() + rest;
    match r {
      case Literal(bytes) =>
        assert s[0] == |bytes| - 1 && s[1..1 + |bytes|] == bytes && s[1 + |bytes|..] == rest;
      case Repeat(k, v) =>
        assert s[0] == 257 - k && s[1] == v && s[2..] == rest;
    }
  }

  /** `c` and `a` are what the decoders make of a stream. */
  ghost predicate Yield(s: seq<byte>, room: nat, c: Decoded, a: Decoded)
  {
    DecodeC(s, room) == c && DecodeAsm(s, room) == a
  }

  lemma TurnThen(s: seq<byte>, room: nat, bytes: seq<byte>, rest: seq<byte>, c: Decoded, a: Decoded)
    requires NextTurn(s, room) == Part(bytes, rest, false) && Yield(rest, room - |bytes|, c, a)
    ensures Yield(s, room, c.Behind(bytes), a.Behind(bytes))
  {
  }

  /** A run in front of a stream only puts its bytes in front of what the stream yields. */
  ghost predicate TakesTurns(relation: (seq<byte>, nat, Decoded, Decoded) -> bool)
  {
    forall s, room: nat, left: nat, c, a {:trigger NextTurn(s, room), relation(NextTurn(s, room).rest, left, c, a)} ::
      var t := NextTurn(s, room);
      t.Part? && !t.cut && left == room - |t.bytes| && relation(t.rest, left, c, a) ==>
        relation(s, room, c.Behind(t.bytes), a.Behind(t.bytes))
  }

  lemma RunThen(relation: (seq<byte>, nat, Decoded, Decoded) -> bool, r: Run, rest: seq<byte>, left: nat,
                c: Decoded, a: Decoded)
    requires TakesTurns(relation) && r.Valid() && relation(rest, left, c, a)
    ensures relation(r.Code() + rest, |r.Expansion()| + left, c.Behind(r.Expansion()), a.Behind(r.Expansion()))
  {
    var s, room := r.Code() + rest, |r.Expansion()| + left;
    RunIsOneTurn(r, rest, room);
    assert relation(NextTurn(s, room).rest, left, c, a);
  }

  lemma FirstRun(runs: seq<Run>, tail: seq<byte>)
    requires AllValid(runs) && runs != []
    ensures Codes(runs) + tail == runs[0].Code() + (Codes(runs[1..]) + tail)
    ensures Expand(runs) == runs[0].Expansion() + Expand(runs[1..])
  {
  }

  lemma {:induction false} RunsThen(relation: (seq<byte>, nat, Decoded, Decoded) -> bool, runs: seq<Run>,
                                    tail: seq<byte>, left: nat, c: Decoded, a: Decoded)
    requires TakesTurns(relation) && AllValid(runs) && relation(tail, left, c, a)
    ensures relation(Codes(runs) + tail, |Expand(runs)| + left, c.Behind(Expand(runs)), a.Behind(Expand(runs)))
    decreases |runs|
  {
    if runs == [] {
      assert Codes(runs) + tail == tail;
      BehindNothing(c);
      BehindNothing(a);
    } else {
      var r, later := runs[0], runs[1..];
      RunsThen(relation, later, tail, left, c, a);
      RunThen(relation, r, Codes(later) + tail, |Expand(later)| + left,
              c.Behind(Expand(later)), a.Behind(Expand(later)));
      FirstRun(runs, tail);
      BehindTwice(r.Expansion(), Expand(later), c);
      BehindTwice(r.Expansion(), Expand(later), a);
    }
  }

  /** Behind runs that fit, both decoders go on with what follows. */
  lemma DecodersTakeRuns(runs: seq<Run>, tail: seq<byte>, left: nat, c: Decoded, a: Decoded)
    requires AllValid(runs) && Yield(tail, left, c, a)
    ensures Yield(Codes(runs) + tail, |Expand(runs)| + left, c.Behind(Expand(runs)), a.Behind(Expand(runs)))
  {
    DecodersTakeTurns();
    RunsThen(Yield, runs, tail, left, c, a);
  }

  lemma DecodersTakeTurns()
    ensures TakesTurns(Yield)
  {
    forall s, room: nat, left: nat, c, a | var t := NextTurn(s, room);
        t.Part? && !t.cut && left == room - |t.bytes| && Yield(t.rest, left, c, a)
      ensures Yield(s, room, c.Behind(NextTurn(s, room).bytes), a.Behind(NextTurn(s, room).bytes))
    {
      var t := NextTurn(s, room);
      TurnThen(s, room, t.bytes, t.rest, c, a);
    }
  }

  lemma MarkerEnds(tail: seq<byte>, room: nat)
    ensures Yield([END_MARKER] + tail, room, Decoded([], tail), Decoded([], tail))
  {
    assert ([END_MARKER] + tail)[1..] == tail;
  }

  lemma EncodeThen(runs: seq<Run>, tail: seq<byte>, room: nat)
    requires AllValid(runs) && |Expand(runs)| <= room
    ensures var d := Decoded(Expand(runs), tail); Yield(Codes(runs) + ([END_MARKER] + tail), room, d, d)
  {
    var d, left := Decoded([], tail), room - |Expand(runs)|;
    MarkerEnds(tail, left);
    DecodersTakeRuns(runs, [END_MARKER] + tail, left, d, d);
    assert Expand(runs) + [] == Expand(runs);
  }

  lemma EncodeEnds(runs: seq<Run>, tail: seq<byte>)
    requires AllValid(runs)
    ensures Encode(runs) + tail == Codes(runs) + ([END_MARKER] + tail)
  {
  }

  /** Either decoder inverts the encoding of any valid run list that fits: it consumes exactly through the
      marker and produces the expansion. */
  lemma DecodeInvertsEncode(runs: seq<Run>, tail: seq<byte>, room: nat)
    requires AllValid(runs) && |Expand(runs)| <= room
    ensures DecodeC(Encode(runs) + tail, room) == DecodeAsm(Encode(runs) + tail, room) == Decoded(Expand(runs), tail)
  {
    EncodeThen(runs, tail, room);
    EncodeEnds(runs, tail);
  }

  lemma OneMoreRun(r: Run, rest: seq<Run>, runs: seq<Run>)
    requires runs == [r] + rest && AllValid(runs)
    ensures AllValid(rest) && r.Valid()
    ensures Encode(runs) == r.Code() + Encode(rest) && Expand(runs) == r.Expansion() + Expand(rest)
  {
    assert runs[1..] == rest && runs[0].Valid();
    forall i | 0 <= i < |rest|
      ensures rest[i].Valid()
    {
      assert runs[i + 1].Valid();
    }
    assert Codes(runs) == r.Code() + Codes(rest);
  }

  /** Blocks byte by byte: 0xFE stands for three times the next byte, 0x81 for 128 times, 0x02 for the three bytes
      behind it, and 0x80 ends the block. */
  lemma KnownRuns(v: byte, a: byte, b: byte, c: byte, rest: seq<Run>)
    requires AllValid(rest)
    ensures Encode([]) == [0x80]
    ensures Encode([Repeat(3, v)] + rest) == [0xFE, v] + Encode(rest)
    ensures Encode([Repeat(128, v)] + rest) == [0x81, v] + Encode(rest)
    ensures Encode([Literal([a, b, c])] + rest) == [0x02, a, b, c] + Encode(rest)
  {
    OneMoreRun(Repeat(3, v), rest, [Repeat(3, v)] + rest);
    OneMoreRun(Repeat(128, v), rest, [Repeat(128, v)] + rest);
    OneMoreRun(Literal([a, b, c]), rest, [Literal([a, b, c])] + rest);
  }

  /** The run that does not fit. */
  function Excess(n: nat, v: byte, tail: seq<byte>): seq<byte>
    requires Repeat(n, v).Valid()
  {
    [257 - n, v, END_MARKER] + tail
  }

  lemma CutRepeat(n: nat, v: byte, tail: seq<byte>, room: nat)
    requires Repeat(n, v).Valid() && room < n
    ensures var out := Stretch(v, room);
      Yield(Excess(n, v, tail), room, Decoded(out, tail), Decoded(out, [END_MARKER] + tail))
  {
    var s := Excess(n, v, tail);
    assert s[2..] == [END_MARKER] + tail;
    assert NextTurn(s, room) == Part(Stretch(v, room), [END_MARKER] + tail, true);
    MarkerEnds(tail, 0);
    assert Stretch(v, room) + [] == Stretch(v, room);
  }

  /** Where they part: behind any runs that fit, a repeat run that does not leaves the assembly decoder before
      the marker and the C decoder behind it. What they have written is the same. */
  lemma OverlongBlockParts(runs: seq<Run>, n: nat, v: byte, tail: seq<byte>, left: nat)
    requires AllValid(runs) && Repeat(n, v).Valid() && left < n
    ensures
      var s, room := Codes(runs) + Excess(n, v, tail), |Expand(runs)| + left;
      var out := Expand(runs) + Stretch(v, left);
      DecodeC(s, room) == Decoded(out, tail) && DecodeAsm(s, room) == Decoded(out, [END_MARKER] + tail)
  {
    CutRepeat(n, v, tail, left);
    var c, a := Decoded(Stretch(v, left), tail), Decoded(Stretch(v, left), [END_MARKER] + tail);
    DecodersTakeRuns(runs, Excess(n, v, tail), left, c, a);
  }
}
