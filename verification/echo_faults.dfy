/** What a single fault in a frame does to the reader, byte by byte: the layout of the packet format and where the
    guest's `recv_frame` puts the blame. */
module EchoFaults {
  import opened Bytes
  import opened FrameFormat
  import opened StressFrames

  /** The layout: 0x02, the sequence number, the length with its high byte first, the payload, a byte that brings the
      exclusive or of all before it down to 0, and 0x03. */
  lemma FrameLayout(id: byte, payload: seq<byte>)
    requires |payload| < 65536
    ensures var f, n := FrameBytes(id, payload), |payload|;
      && |f| == n + 6 && f[0] == 0x02 && f[1] == id && 256 * f[2] as nat + f[3] == n
      && f[4..4 + n] == payload && XorFold(0, f[1..5 + n]) == 0 && f[5 + n] == 0x03
  {
    var f, c := FrameBytes(id, payload), Checked(id, payload);
    assert f[1..5 + |payload|] == c + [XorFold(0, c)];
    XorFoldAppend(0, c, [XorFold(0, c)]);
    XorSelf(XorFold(0, c));
  }

  lemma XorSelf(a: byte)
    ensures XorFold(a, [a]) == 0
  {
    XorNatSelf(a);
    assert [a][1..] == [];
  }

  /** The host's reader on a frame with another end marker: the frame is consumed and refused. */
  lemma WrongEndIsRejected(junk: seq<byte>, id: byte, payload: seq<byte>, b: byte, tail: seq<byte>)
    requires 0x02 !in junk && |payload| < 65536 && b != 0x03
    ensures ParseFrame(junk + FrameBytes(id, payload)[5 + |payload| := b] + tail) == BadEnd(tail)
  {
    var c := Checked(id, payload);
    var body := c + [XorFold(0, c), b] + tail;
    assert junk + FrameBytes(id, payload)[5 + |payload| := b] + tail == junk + ([0x02] + body);
    JunkIsSkipped(junk, [0x02] + body);
    assert ([0x02] + body)[1..] == body;
    BodyParses(id, payload, XorFold(0, c), b, tail);
  }

  /** And on a frame that stops early: there is no frame yet. */
  lemma CutFrameIsShort(junk: seq<byte>, id: byte, payload: seq<byte>, m: nat)
    requires 0x02 !in junk && |payload| < 65536 && m < 6 + |payload|
    ensures ParseFrame(junk + FrameBytes(id, payload)[..m]) == Short
  {
    var c := Checked(id, payload);
    var body := c + [XorFold(0, c), 0x03];
    var cut := FrameBytes(id, payload)[..m];
    JunkIsSkipped(junk, cut);
    if m > 0 {
      assert cut[1..] == body[..m - 1];
      BodyParses(id, payload, XorFold(0, c), 0x03, []);
      assert body + [] == body && body[..3 + |payload|] == c;
      PrefixIsShort(body, m - 1);
    }
  }

  function One(wrong: bool): nat { if wrong then 1 else 0 }

  /** An echo of the right length, with any sequence number, payload, checksum and end marker. */
  lemma WholeEcho(s: seq<byte>, front: seq<byte>, p: seq<byte>, chk: byte, end: byte, tail: seq<byte>, id: byte,
                  len: nat, v: byte)
    requires 1 <= len < 65536 && |p| == len && |front| == 4 && s == front + p + [chk, end] + tail
    requires front[0] == 0x02 && LengthField(front[2], front[3]) == len
    ensures var errors := One(front[1] != id) + Mismatches(p, v);
      EchoOf(s, id, len, v) ==
        if chk != XorFold(0, front[1..] + p) then Echo(WrongCheck, errors + 1)
        else if end != 0x03 then Echo(WrongEnd, errors + 1)
        else Echo(Pass, errors)
  {
    assert s[4..] == p + [chk, end] + tail && s[4..][..len] == p && s[4..][len..] == [chk, end] + tail;
    HeaderFold(s[1], s[2], s[3]);
    assert front[1..] == [s[1], s[2], s[3]];
    XorFoldAppend(0, front[1..], p);
  }

  // ----- one wrong byte in the pattern -----

  lemma FirstByte(x: byte, rest: seq<byte>, expected: byte)
    ensures Mismatches([x] + rest, expected) == One(x != expected) + Mismatches(rest, Inc(x))
  {
    assert ([x] + rest)[1..] == rest;
  }

  lemma ChangedParts(v: byte, rest: seq<byte>, j: nat, b: byte)
    requires j <= |rest|
    ensures ([v] + rest)[j := b] == if j == 0 then [b] + rest else [v] + rest[j - 1 := b]
    ensures j > 0 ==> rest[j - 1] == ([v] + rest)[j]
  {
  }

  lemma {:induction false} OneWrongByte(v: byte, n: nat, j: nat, b: byte)
    requires j < n && b != Counting(v, n)[j]
    ensures Mismatches(Counting(v, n)[j := b], v) == 1 + One(j + 1 < n)
    decreases n
  {
    var rest := Counting(Inc(v), n - 1);
    ChangedParts(v, rest, j, b);
    if j == 0 {
      FirstByte(b, rest, v);
      OtherStart(Inc(b), Inc(v), n - 1);
    } else {
      FirstByte(v, rest[j - 1 := b], v);
      OneWrongByte(Inc(v), n - 1, j - 1, b);
    }
  }

  /** A pattern that starts elsewhere is one mismatch: the receiver takes it up. */
  lemma OtherStart(expected: byte, v: byte, n: nat)
    ensures Mismatches(Counting(v, n), expected) == One(v != expected && n > 0)
  {
    if n > 0 {
      var rest := Counting(Inc(v), n - 1);
      assert Counting(v, n)[1..] == rest;
      NoMismatchIff(rest, Inc(v));
    }
  }

  // ----- where the blame goes -----

  function Verdict(s: seq<byte>, id: byte, len: nat, v: byte): (Option<byte>, nat)
  {
    (ReturnValue(EchoOf(s, id, len, v).code), EchoOf(s, id, len, v).errors)
  }

  /** The guest's frame in its parts. */
  lemma FrameParts(id: byte, len: nat, v: byte) returns (front: seq<byte>, c: seq<byte>, chk: byte)
    requires 1 <= len < 65536
    ensures front == [0x02, id, len / 256, len % 256] && c == Counting(v, len) && chk == XorFold(0, front[1..] + c)
    ensures GuestFrame(id, len, v) == front + c + [chk, 0x03] && LengthField(front[2], front[3]) == len
  {
    front, c := [0x02, id, len / 256, len % 256], Counting(v, len);
    chk := XorFold(0, front[1..] + c);
    assert front[1..] == Header(id, len);
    assert GuestFrame(id, len, v) == front + c + [chk, 0x03];
  }

  lemma PayloadChanged(front: seq<byte>, c: seq<byte>, k: nat, b: byte)
    requires k < |c| && b != c[k]
    ensures XorFold(0, front + c[k := b]) != XorFold(0, front + c)
  {
    assert front + c[k := b] == (front + c)[|front| + k := b];
    XorFoldDetects(0, front + c, |front| + k, b);
  }

  lemma FrontChanged(front: seq<byte>, c: seq<byte>, k: nat, b: byte)
    requires k < |front| && b != front[k]
    ensures XorFold(0, front[k := b] + c) != XorFold(0, front + c)
  {
    assert front[k := b] + c == (front + c)[k := b];
    XorFoldDetects(0, front + c, k, b);
  }

  /** A length that is not the expected one ends the echo. */
  lemma OtherLength(s: seq<byte>, front: seq<byte>, id: byte, len: nat, v: byte)
    requires |front| == 4 <= |s| && s[..4] == front && front[0] == 0x02 && LengthField(front[2], front[3]) != len
    ensures Verdict(s, id, len, v) == (Some(3), One(front[1] != id) + 1)
  {
    assert s[0] == s[..4][0] && s[1] == s[..4][1] && s[2] == s[..4][2] && s[3] == s[..4][3];
  }

  lemma DamagedFront(front: seq<byte>, rest: seq<byte>, k: nat, b: byte, tail: seq<byte>, id: byte, len: nat, v: byte)
    requires front == [0x02, id, len / 256, len % 256] && len < 65536 && (k == 0 || k == 2 || k == 3) && b != front[k]
    ensures Verdict((front + rest)[k := b] + tail, id, len, v) == (Some(if k == 0 then 2 else 3), 1)
  {
    LengthBytes(front[2], b);
    LengthBytes(b, front[3]);
  }

  /** A frame in its parts with one byte changed, as parts again. */
  lemma ChangedFront(a: seq<byte>, c: seq<byte>, z: seq<byte>, k: nat, b: byte, tail: seq<byte>)
    requires k < |a|
    ensures (a + c + z)[k := b] + tail == a[k := b] + c + z + tail
  {
    assert (a + c + z)[k := b] == a[k := b] + c + z;
  }

  lemma ChangedMiddle(a: seq<byte>, c: seq<byte>, z: seq<byte>, j: nat, b: byte, tail: seq<byte>)
    requires j < |c|
    ensures (a + c + z)[|a| + j := b] + tail == a + c[j := b] + z + tail
  {
    assert (a + c + z)[|a| + j := b] == a + c[j := b] + z;
  }

  lemma ChangedEnd(a: seq<byte>, c: seq<byte>, x: byte, y: byte, j: nat, b: byte, tail: seq<byte>)
    requires j < 2
    ensures (a + c + [x, y])[|a| + |c| + j := b] + tail
         == a + c + [if j == 0 then b else x, if j == 0 then y else b] + tail
  {
    assert (a + c + [x, y])[|a| + |c| + j := b] == a + c + [if j == 0 then b else x, if j == 0 then y else b];
  }

  lemma DamagedId(front: seq<byte>, c: seq<byte>, chk: byte, b: byte, tail: seq<byte>, id: byte, len: nat, v: byte)
    requires front == [0x02, id, len / 256, len % 256] && c == Counting(v, len) && 1 <= len < 65536 && b != id
    requires chk == XorFold(0, front[1..] + c)
    ensures Verdict((front + c + [chk, 0x03])[1 := b] + tail, id, len, v) == (Some(4), 2)
  {
    var s := (front + c + [chk, 0x03])[1 := b] + tail;
    NoMismatchIff(c, v);
    assert front[1 := b][1..] == front[1..][0 := b];
    FrontChanged(front[1..], c, 0, b);
    ChangedFront(front, c, [chk, 0x03], 1, b, tail);
    WholeEcho(s, front[1 := b], c, chk, 0x03, tail, id, len, v);
  }

  lemma DamagedPayload(front: seq<byte>, c: seq<byte>, chk: byte, j: nat, b: byte, tail: seq<byte>, id: byte, len: nat,
                       v: byte)
    requires front == [0x02, id, len / 256, len % 256] && c == Counting(v, len) && 1 <= len < 65536
    requires j < len && b != c[j] && chk == XorFold(0, front[1..] + c)
    ensures Verdict((front + c + [chk, 0x03])[4 + j := b] + tail, id, len, v) == (Some(4), if j + 1 < len then 3 else 2)
  {
    var s := (front + c + [chk, 0x03])[4 + j := b] + tail;
    PayloadChanged(front[1..], c, j, b);
    OneWrongByte(v, len, j, b);
    ChangedMiddle(front, c, [chk, 0x03], j, b, tail);
    WholeEcho(s, front, c[j := b], chk, 0x03, tail, id, len, v);
  }

  lemma DamagedTrailer(front: seq<byte>, c: seq<byte>, chk: byte, j: nat, b: byte, tail: seq<byte>, id: byte, len: nat,
                       v: byte)
    requires front == [0x02, id, len / 256, len % 256] && c == Counting(v, len) && 1 <= len < 65536
    requires j < 2 && b != [chk, 0x03][j] && chk == XorFold(0, front[1..] + c)
    ensures Verdict((front + c + [chk, 0x03])[4 + len + j := b] + tail, id, len, v)
         == (Some(if j == 0 then 4 else 5), 1)
  {
    var s := (front + c + [chk, 0x03])[4 + len + j := b] + tail;
    NoMismatchIff(c, v);
    ChangedEnd(front, c, chk, 0x03, j, b, tail);
    WholeEcho(s, front, c, if j == 0 then b else chk, if j == 0 then 0x03 else b, tail, id, len, v);
  }

  /** One byte of the echo changed: the return value and the errors counted. A wrong first byte ends the frame with
      2, a wrong length byte with 3, a wrong end marker with 5, each as one error. Any other wrong byte ends it with 4,
      as one error more than are counted before the checksum: one for a sequence number or for the last payload byte,
      two for any other payload byte, as the pattern is taken up again behind it. */
  lemma DamagedEcho(id: byte, len: nat, v: byte, k: nat, b: byte, tail: seq<byte>)
    requires 1 <= len < 65536 && k < len + 6 && b != GuestFrame(id, len, v)[k]
    ensures Verdict(GuestFrame(id, len, v)[k := b] + tail, id, len, v) ==
      if k == 0 then (Some(2), 1)
      else if k == 1 then (Some(4), 2)
      else if k <= 3 then (Some(3), 1)
      else if k < 3 + len then (Some(4), 3)
      else if k == 3 + len then (Some(4), 2)
      else if k == 4 + len then (Some(4), 1)
      else (Some(5), 1)
  {
    var front, c, chk := FrameParts(id, len, v);
    var g := front + c + [chk, 0x03];
    if k == 1 {
      DamagedId(front, c, chk, b, tail, id, len, v);
    } else if k < 4 {
      assert g == front + (c + [chk, 0x03]);
      DamagedFront(front, c + [chk, 0x03], k, b, tail, id, len, v);
    } else if k < 4 + len {
      assert g[k] == c[k - 4];
      DamagedPayload(front, c, chk, k - 4, b, tail, id, len, v);
    } else {
      assert g[k] == [chk, 0x03][k - 4 - len];
      DamagedTrailer(front, c, chk, k - 4 - len, b, tail, id, len, v);
    }
  }

  /** The echo of another frame: with the right length it passes, and only the counter tells that its sequence number
      or its pattern is another; with another length it ends with 3. */
  lemma ForeignFrame(id: byte, len: nat, v: byte, id': byte, len': nat, v': byte, tail: seq<byte>)
    requires 1 <= len < 65536 && 1 <= len' < 65536
    ensures Verdict(GuestFrame(id', len', v') + tail, id, len, v) ==
      if len' == len then (Some(0), One(id' != id) + One(v' != v)) else (Some(3), One(id' != id) + 1)
  {
    var front, c, chk := FrameParts(id', len', v');
    var s := GuestFrame(id', len', v') + tail;
    if len' == len {
      OtherStart(v, v', len);
      WholeEcho(s, front, c, chk, 0x03, tail, id, len, v);
    } else {
      assert s[..4] == front;
      OtherLength(s, front, id, len, v);
    }
  }

  /** An echo that stops early: inside the payload the receiver waits for good, anywhere else it gives up with 1, in
      either case without an error. */
  lemma CutEcho(id: byte, len: nat, v: byte, m: nat)
    requires 1 <= len < 65536 && m < len + 6
    ensures Verdict(GuestFrame(id, len, v)[..m], id, len, v) == (if 4 <= m < 4 + len then None else Some(1), 0)
  {
    var front, c, chk := FrameParts(id, len, v);
    var s := GuestFrame(id, len, v)[..m];
    if m >= 4 + len {
      var t := [chk, 0x03][..m - 4 - len];
      assert s == front + c + t;
      assert s[4..] == c + t && s[4..][..len] == c && s[4..][len..] == t;
      NoMismatchIff(c, v);
      HeaderFold(s[1], s[2], s[3]);
      assert front[1..] == [s[1], s[2], s[3]];
      XorFoldAppend(0, front[1..], c);
    }
  }
}
