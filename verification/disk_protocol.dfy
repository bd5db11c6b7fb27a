/** The disk-image receiver: what it answers to a byte stream and what it leaves on the disk. */
module DiskProtocol {
  import opened Bytes
  import opened PackBits

  const SOH := 0x01
  const EOT := 0x04
  const ACK := 0x06
  const NAK := 0x15
  const SECTOR_SIZE := 512

  type Disk = map<nat, seq<byte>>

  datatype Decoder = InC | InAssembly

  function Decode(how: Decoder, s: seq<byte>): (d: Decoded)
    ensures d.Decoded? ==> |d.rest| < |s|
  {
    if how.InC? then DecodeC(s, SECTOR_SIZE) else DecodeAsm(s, SECTOR_SIZE)
  }

  function Address(high: byte, middle: byte, low: byte): nat
  {
    65536 * high + 256 * middle + low
  }

  /** One turn of the frame loop. `Waiting`: the stream ended inside the frame. */
  datatype Turn = Waiting | Finished | Answered(reply: byte, rest: seq<byte>, disk: Disk)

  function NextFrame(s: seq<byte>, disk: Disk, how: Decoder): (t: Turn)
    ensures t.Answered? ==> |t.rest| < |s|
  {
    if s == [] then Waiting
    else if s[0] == EOT then Finished
    else if s[0] != SOH then Answered(NAK, s[1..], disk)
    else if |s| < 4 then Waiting
    else Judged(Decode(how, s[4..]), disk, Address(s[1], s[2], s[3]))
  }

  /** The frame behind its decoded payload. */
  function Judged(d: Decoded, disk: Disk, lba: nat): (t: Turn)
    ensures t.Answered? ==> d.Decoded? && |t.rest| <= |d.rest|
  {
    match d
    case Starved => Waiting
    case Decoded(out, rest) =>
      if |out| != SECTOR_SIZE then Answered(NAK, rest, disk)
      else if rest == [] then Waiting
      else if rest[0] != XorFold(0, out) then Answered(NAK, rest[1..], disk)
      else Answered(ACK, rest[1..], disk[lba := out])
  }

  datatype Session = Session(replies: seq<byte>, disk: Disk, ended: bool)
  {
    function After(earlier: seq<byte>): Session
    {
      this.(replies := earlier + replies)
    }
  }

  /** The receiver on the stream `s`, up to EOT or to the end of what arrives. */
  function Serve(s: seq<byte>, disk: Disk, how: Decoder): Session
    decreases |s|
  {
    match NextFrame(s, disk, how)
    case Waiting => Session([], disk, false)
    case Finished => Session([ACK], disk, true)
    case Answered(reply, rest, d) => Serve(rest, d, how).After([reply])
  }

  // ----- what the host sends -----

  datatype Frame = Frame(lba: nat, runs: seq<Run>, check: byte)
  {
    /** A 24-bit address and a payload of exactly one sector; the checksum may be anything. */
    predicate Valid()
    {
      lba < 0x1000000 && AllValid(runs) && |Expand(runs)| == SECTOR_SIZE
    }

    predicate Good()
    {
      check == XorFold(0, Expand(runs))
    }

    function Wire(): seq<byte>
      requires Valid()
    {
      [SOH, lba / 65536, lba / 256 % 256, lba % 256] + Encode(runs) + [check]
    }

    function Reply(): byte
    {
      if Good() then ACK else NAK
    }

    function StoredOn(disk: Disk): Disk
    {
      if Good() then disk[lba := Expand(runs)] else disk
    }
  }

  predicate AllFramesValid(frames: seq<Frame>)
  {
    forall i :: 0 <= i < |frames| ==> frames[i].Valid()
  }

  function Transmission(frames: seq<Frame>): seq<byte>
    requires AllFramesValid(frames)
  {
    if frames == [] then [EOT] else frames[0].Wire() + Transmission(frames[1..])
  }

  function Replies(frames: seq<Frame>): (r: seq<byte>)
    ensures |r| == |frames| && forall i :: 0 <= i < |r| ==> r[i] == frames[i].Reply()
  {
    seq(|frames|, i requires 0 <= i < |frames| => frames[i].Reply())
  }

  /** The good frames, in their order, over what was on the disk. */
  function Stored(frames: seq<Frame>, disk: Disk): Disk
  {
    if frames == [] then disk else Stored(frames[1..], frames[0].StoredOn(disk))
  }

  lemma FrameIsOneTurn(f: Frame, tail: seq<byte>, disk: Disk, how: Decoder)
    requires f.Valid()
    ensures NextFrame(f.Wire() + tail, disk, how) == Answered(f.Reply(), tail, f.StoredOn(disk))
  {
    var s, behind := f.Wire() + tail, [f.check] + tail;
    assert s[4..] == Encode(f.runs) + behind;
    assert Address(s[1], s[2], s[3]) == f.lba;
    DecodeInvertsEncode(f.runs, behind, SECTOR_SIZE);
    assert Decode(how, s[4..]) == Decoded(Expand(f.runs), behind);
    assert behind[1..] == tail;
  }

  lemma TransmissionSplits(frames: seq<Frame>, tail: seq<byte>)
    requires AllFramesValid(frames) && frames != []
    ensures Transmission(frames) + tail == frames[0].Wire() + (Transmission(frames[1..]) + tail)
  {
  }

  lemma ReplyGoesFirst(frames: seq<Frame>, disk: Disk)
    requires frames != []
    ensures Session(Replies(frames[1..]) + [ACK], disk, true).After([frames[0].Reply()])
         == Session(Replies(frames) + [ACK], disk, true)
  {
    assert Replies(frames) == [frames[0].Reply()] + Replies(frames[1..]);
    assert [frames[0].Reply()] + (Replies(frames[1..]) + [ACK]) == Replies(frames) + [ACK];
  }

  lemma FirstFrameServed(f: Frame, rest: seq<byte>, disk: Disk, how: Decoder)
    requires f.Valid()
    ensures Serve(f.Wire() + rest, disk, how) == Serve(rest, f.StoredOn(disk), how).After([f.Reply()])
  {
    FrameIsOneTurn(f, rest, disk, how);
  }

  /** The whole transfer, with either receiver: one ACK for each good frame, one NAK for each bad one, ACK for
      the EOT, and the disk is the in-order fold of the good frames. */
  lemma {:induction false} TransferIsExact(frames: seq<Frame>, tail: seq<byte>, disk: Disk, how: Decoder)
    requires AllFramesValid(frames)
    ensures Serve(Transmission(frames) + tail, disk, how)
         == Session(Replies(frames) + [ACK], Stored(frames, disk), true)
    decreases |frames|
  {
    if frames == [] {
      assert Replies(frames) == [];
    } else {
      var f, disk' := frames[0], frames[0].StoredOn(disk);
      TransmissionSplits(frames, tail);
      FirstFrameServed(f, Transmission(frames[1..]) + tail, disk, how);
      TransferIsExact(frames[1..], tail, disk', how);
      ReplyGoesFirst(frames, Stored(frames[1..], disk'));
    }
  }

  /** The last good frame for an address decides what is there; other sectors are untouched. */
  lemma {:induction false} LastGoodFrameWins(frames: seq<Frame>, disk: Disk, lba: nat, k: nat)
    requires k < |frames| && frames[k].Good() && frames[k].lba == lba
    requires forall i :: k < i < |frames| && frames[i].lba == lba ==> !frames[i].Good()
    ensures lba in Stored(frames, disk) && Stored(frames, disk)[lba] == Expand(frames[k].runs)
    decreases |frames|
  {
    if k == 0 {
      UntouchedUnlessGood(frames[1..], frames[0].StoredOn(disk), lba);
    } else {
      assert frames[1..][k - 1] == frames[k];
      LastGoodFrameWins(frames[1..], frames[0].StoredOn(disk), lba, k - 1);
    }
  }

  lemma {:induction false} UntouchedUnlessGood(frames: seq<Frame>, disk: Disk, lba: nat)
    requires forall i :: 0 <= i < |frames| && frames[i].lba == lba ==> !frames[i].Good()
    ensures lba in Stored(frames, disk) <==> lba in disk
    ensures lba in disk ==> Stored(frames, disk)[lba] == disk[lba]
    decreases |frames|
  {
    if frames != [] {
      UntouchedUnlessGood(frames[1..], frames[0].StoredOn(disk), lba);
    }
  }

  /** A sector with one byte damaged under the checksum of the true sector is refused, and nothing is stored. */
  lemma DamagedSectorIsRefused(f: Frame, sector: seq<byte>, k: nat, tail: seq<byte>, disk: Disk, how: Decoder)
    requires f.Valid() && |sector| == SECTOR_SIZE && k < SECTOR_SIZE && sector[k] != Expand(f.runs)[k]
    requires f.check == XorFold(0, sector) && sector == Expand(f.runs)[k := sector[k]]
    ensures NextFrame(f.Wire() + tail, disk, how) == Answered(NAK, tail, disk)
  {
    XorFoldDetects(0, Expand(f.runs), k, sector[k]);
    FrameIsOneTurn(f, tail, disk, how);
  }

  // ----- any stream at all -----

  /** What one turn answers, on any stream: 0x01 opens a frame with a 24-bit address, high byte first. It is
      answered 0x06 if and only if its block decodes to exactly 512 bytes and the byte behind it is their
      exclusive or, and exactly then those bytes are stored at the address. Every other answered turn replies
      0x15 and leaves the disk alone: a block of another length, a wrong checksum, and any stray byte. */
  lemma TurnIsExact(s: seq<byte>, disk: Disk, how: Decoder)
    requires s != []
    ensures var t := NextFrame(s, disk, how);
      && (t.Finished? <==> s[0] == 0x04)
      && (t.Answered? ==> t.reply == if Accepts(s, how).Some? then 0x06 else 0x15)
      && (t.Answered? ==> t.disk == match Accepts(s, how) case Some(w) => disk[w.0 := w.1] case None => disk)
      && (Accepts(s, how).Some? ==> t.Answered?)
      && (s[0] != 0x01 && s[0] != 0x04 ==> t.Answered? && t.rest == s[1..])
  {
  }

  /** The sector and its address, if `s` begins with a frame to accept. */
  function Accepts(s: seq<byte>, how: Decoder): (w: Option<(nat, seq<byte>)>)
    ensures w.Some? ==> w.value.0 < 0x1000000 && |w.value.1| == 512
  {
    if |s| < 4 || s[0] != 0x01 then None
    else
      match if how.InC? then DecodeC(s[4..], 512) else DecodeAsm(s[4..], 512)
      case Starved => None
      case Decoded(out, rest) =>
        if |out| == 512 && rest != [] && rest[0] == XorFold(0, out)
        then Some((s[1] as nat * 0x10000 + s[2] as nat * 0x100 + s[3], out)) else None
  }

  /** Which byte is the checksum: the one behind a block of a whole sector. Behind any other block the checksum is not
      read and is a stray byte of the next turn. */
  lemma BlockDecides(s: seq<byte>, disk: Disk, how: Decoder, out: seq<byte>, rest: seq<byte>)
    requires |s| >= 4 && s[0] == 0x01
    requires (if how.InC? then DecodeC(s[4..], 512) else DecodeAsm(s[4..], 512)) == Decoded(out, rest)
    ensures var t := NextFrame(s, disk, how);
      && (|out| != 512 ==> t == Answered(0x15, rest, disk))
      && (|out| == 512 ==> (t.Waiting? <==> rest == []) && (rest != [] ==> t.Answered? && t.rest == rest[1..]))
  {
  }

  /** What a session writes: the sectors of the frames accepted, in their order. */
  function Written(s: seq<byte>, disk: Disk, how: Decoder): seq<(nat, seq<byte>)>
    decreases |s|
  {
    match NextFrame(s, disk, how)
    case Answered(_, rest, d) => AsSeq(Accepts(s, how)) + Written(rest, d, how)
    case _ => []
  }

  function AsSeq(w: Option<(nat, seq<byte>)>): seq<(nat, seq<byte>)>
  {
    match w case Some(x) => [x] case None => []
  }

  function StoredAll(ws: seq<(nat, seq<byte>)>, disk: Disk): Disk
    decreases |ws|
  {
    if ws == [] then disk else StoredAll(ws[1..], disk[ws[0].0 := ws[0].1])
  }

  function Acknowledged(replies: seq<byte>): nat
  {
    if replies == [] then 0 else (if replies[0] == 0x06 then 1 else 0) + Acknowledged(replies[1..])
  }

  lemma WrittenFirst(w: Option<(nat, seq<byte>)>, ws: seq<(nat, seq<byte>)>, disk: Disk)
    ensures |AsSeq(w) + ws| == (if w.Some? then 1 else 0) + |ws|
    ensures StoredAll(AsSeq(w) + ws, disk)
         == StoredAll(ws, match w case Some(x) => disk[x.0 := x.1] case None => disk)
  {
    if w.Some? {
      assert ([w.value] + ws)[1..] == ws;
    } else {
      assert [] + ws == ws;
    }
  }

  lemma AcknowledgedFirst(reply: byte, replies: seq<byte>)
    ensures Acknowledged([reply] + replies) == (if reply == 0x06 then 1 else 0) + Acknowledged(replies)
  {
    assert ([reply] + replies)[1..] == replies;
  }

  /** On any stream: the disk at the end is what the accepted frames wrote, each of them was acknowledged, nothing
      else was, except the end of the transfer, and every other answer is 0x15. */
  lemma {:induction false} SessionIsExact(s: seq<byte>, disk: Disk, how: Decoder)
    ensures var r, ws := Serve(s, disk, how), Written(s, disk, how);
      && r.disk == StoredAll(ws, disk)
      && Acknowledged(r.replies) == |ws| + (if r.ended then 1 else 0)
      && forall i :: 0 <= i < |r.replies| ==> r.replies[i] == 0x06 || r.replies[i] == 0x15
    decreases |s|
  {
    var t := NextFrame(s, disk, how);
    if s != [] {
      TurnIsExact(s, disk, how);
    }
    match t {
      case Waiting =>
      case Finished => AcknowledgedFirst(ACK, []);
      case Answered(reply, rest, d) =>
        SessionIsExact(rest, d, how);
        AcknowledgedFirst(reply, Serve(rest, d, how).replies);
        WrittenFirst(Accepts(s, how), Written(rest, d, how), disk);
    }
  }

  /** Every block of the stream fits the sector buffer, as the C receiver meets them. */
  predicate BlocksFit(s: seq<byte>, disk: Disk)
    decreases |s|
  {
    && (|s| >= 4 && s[0] == SOH ==> Fits(s[4..], SECTOR_SIZE))
    && match NextFrame(s, disk, InC)
       case Answered(_, rest, d) => BlocksFit(rest, d)
       case _ => true
  }

  /** On an arbitrary stream, broken or not, the two receivers answer alike as long as no block overflows. */
  lemma {:induction false} ReceiversAgree(s: seq<byte>, disk: Disk)
    requires BlocksFit(s, disk)
    ensures Serve(s, disk, InC) == Serve(s, disk, InAssembly)
    decreases |s|
  {
    if |s| >= 4 && s[0] == SOH {
      DecodersAgreeIff(s[4..], SECTOR_SIZE);
    }
    var t := NextFrame(s, disk, InC);
    assert t == NextFrame(s, disk, InAssembly);
    if t.Answered? {
      ReceiversAgree(t.rest, t.disk);
    }
  }

  /** A good frame whose block goes on with a repeat run too many, and then EOT. */
  function Overlong(f: Frame, n: nat, v: byte): seq<byte>
    requires f.Valid() && Repeat(n, v).Valid()
  {
    [SOH, f.lba / 65536, f.lba / 256 % 256, f.lba % 256]
    + (Codes(f.runs) + Excess(n, v, [f.check, EOT]))
  }

  lemma BehindHeader(header: seq<byte>, block: seq<byte>)
    requires |header| == 4
    ensures (header + block)[4..] == block
    ensures forall i :: 0 <= i < 4 ==> (header + block)[i] == header[i]
  {
  }

  lemma OverlongBlock(f: Frame, n: nat, v: byte)
    requires f.Valid() && Repeat(n, v).Valid()
    ensures var s := Codes(f.runs) + Excess(n, v, [f.check, EOT]);
      && Decode(InC, s) == Decoded(Expand(f.runs), [f.check, EOT])
      && Decode(InAssembly, s) == Decoded(Expand(f.runs), [END_MARKER, f.check, EOT])
  {
    OverlongBlockParts(f.runs, n, v, [f.check, EOT], 0);
    NothingMore(Expand(f.runs), v, f.check);
  }

  lemma NothingMore(out: seq<byte>, v: byte, check: byte)
    ensures out + Stretch(v, 0) == out
    ensures [END_MARKER] + [check, EOT] == [END_MARKER, check, EOT]
  {
  }

  /** The assembly receiver takes the marker for the checksum, and the checksum for the next frame. */
  lemma MisreadTail(chk: byte, disk: Disk, reply: byte)
    ensures chk != EOT ==> Serve([chk, EOT], disk, InAssembly).After([reply]) != Session([ACK, ACK], disk, true)
    ensures chk == EOT ==> Serve([chk, EOT], disk, InAssembly) == Session([ACK], disk, true)
    ensures Serve([chk, EOT], disk, InAssembly).disk == disk
  {
    var s: seq<byte> := [chk, EOT];
    assert s[1..] == [EOT];
    assert Serve([EOT], disk, InAssembly) == Session([ACK], disk, true);
  }

  lemma StoredByC(f: Frame, n: nat, v: byte, disk: Disk)
    requires f.Valid() && f.Good() && Repeat(n, v).Valid()
    ensures Serve(Overlong(f, n, v), disk, InC) == Session([ACK, ACK], f.StoredOn(disk), true)
  {
    var s := Overlong(f, n, v);
    OverlongBlock(f, n, v);
    BehindHeader([SOH, f.lba / 65536, f.lba / 256 % 256, f.lba % 256], Codes(f.runs) + Excess(n, v, [f.check, EOT]));
    assert [f.check, EOT][1..] == [EOT];
    assert NextFrame(s, disk, InC) == Answered(ACK, [EOT], f.StoredOn(disk));
    assert Serve([EOT], f.StoredOn(disk), InC) == Session([ACK], f.StoredOn(disk), true);
  }

  lemma MisreadByAssembly(f: Frame, n: nat, v: byte, disk: Disk)
    requires f.Valid() && f.Good() && Repeat(n, v).Valid()
    ensures NextFrame(Overlong(f, n, v), disk, InAssembly)
         == if f.check == END_MARKER then Answered(ACK, [f.check, EOT], f.StoredOn(disk))
            else Answered(NAK, [f.check, EOT], disk)
  {
    OverlongBlock(f, n, v);
    BehindHeader([SOH, f.lba / 65536, f.lba / 256 % 256, f.lba % 256], Codes(f.runs) + Excess(n, v, [f.check, EOT]));
    var m: seq<byte> := [END_MARKER, f.check, EOT];
    assert m[1..] == [f.check, EOT];
  }

  /** On every such frame the receivers part: the one in C acknowledges and stores it. */
  lemma OverlongFrameParts(f: Frame, n: nat, v: byte, disk: Disk)
    requires f.Valid() && f.Good() && Repeat(n, v).Valid()
    ensures Serve(Overlong(f, n, v), disk, InC) == Session([ACK, ACK], f.StoredOn(disk), true)
    ensures Serve(Overlong(f, n, v), disk, InAssembly) != Serve(Overlong(f, n, v), disk, InC)
  {
    StoredByC(f, n, v, disk);
    MisreadByAssembly(f, n, v, disk);
    if f.check == END_MARKER {
      MisreadTail(f.check, f.StoredOn(disk), ACK);
    } else {
      assert Serve(Overlong(f, n, v), disk, InAssembly).replies[0] == NAK;
    }
  }
}
