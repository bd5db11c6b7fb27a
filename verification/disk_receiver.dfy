/** The two disk-image receivers as they are written: chunk/diskload.c with chunk/ide_lib.c, and chunk/dl.asm. */
module DiskReceiver {
  import opened Bytes
  import opened PackBits
  import opened SerialLines
  import opened DiskDecoders
  import opened DiskProtocol

  const READY: byte := 0x52
  const WRITE_SECTORS := 0x30

  /** The drive behind its task-file registers. It takes the words of one sector after a write command and
      commits them at the address in the registers. */
  class Drive {
    var devHead: byte
    var lba0: byte
    var lba1: byte
    var lba2: byte
    var writing: bool
    var data: seq<byte>
    var sectors: Disk

    constructor (sectors: Disk)
      ensures this.sectors == sectors && !writing
    {
      devHead, lba0, lba1, lba2, writing, data := 0, 0, 0, 0, false, [];
      this.sectors := sectors;
    }

    function SelectedLba(): nat
      reads this
    {
      0x1000000 * (devHead % 16) + Address(lba2, lba1, lba0)
    }

    method Select(devHead: byte, lba0: byte, lba1: byte, lba2: byte)
      modifies this`devHead, this`lba0, this`lba1, this`lba2
      ensures SelectedLba() == 0x1000000 * (devHead % 16) + Address(lba2, lba1, lba0)
    {
      this.devHead, this.lba0, this.lba1, this.lba2 := devHead, lba0, lba1, lba2;
    }

    method Command(c: byte)
      modifies this`writing, this`data
      ensures c == 0x30 ==> writing && data == []
    {
      if c == WRITE_SECTORS {
        writing, data := true, [];
      }
    }

    method StoreWord(high: byte, low: byte)
      modifies this`writing, this`data, this`sectors
      ensures var d := old(data) + [high, low];
        if !old(writing) then !writing && data == old(data) && sectors == old(sectors)
        else if |d| < SECTOR_SIZE then writing && data == d && sectors == old(sectors)
        else !writing && sectors == old(sectors)[SelectedLba() := d]
    {
      if writing {
        data := data + [high, low];
        if |data| >= SECTOR_SIZE {
          sectors := sectors[SelectedLba() := data];
          writing := false;
        }
      }
    }
  }

  lemma AddressOfParts(lba: nat)
    ensures Address(lba / 65536 % 256, lba / 256 % 256, lba % 256) == lba % 0x1000000
    ensures 0x1000000 * (lba / 0x1000000 % 16) + lba % 0x1000000 == lba % 0x10000000
  {
    var a := lba / 256;
    var b := a / 256;
    var c := b / 256;
    assert lba == 256 * a + lba % 256 && a == 256 * b + a % 256 && b == 256 * c + b % 256;
    Split65536(lba, b, 256 * (a % 256) + lba % 256);
    assert lba == 0x1000000 * c + Address(b % 256, a % 256, lba % 256);
    SplitLba(lba, c, Address(b % 256, a % 256, lba % 256));
  }

  lemma SplitLba(lba: nat, c: nat, r: nat)
    requires lba == 0x1000000 * c + r && r < 0x1000000
    ensures lba / 0x1000000 == c && lba % 0x1000000 == r
    ensures 0x1000000 * (c % 16) + r == lba % 0x10000000
  {
    assert c == 16 * (c / 16) + c % 16;
    assert lba == 0x10000000 * (c / 16) + (0x1000000 * (c % 16) + r);
  }

  /** The words of a sector on their way to the drive: `y` bytes are there. */
  ghost predicate Transferring(drive: Drive, at: nat, sector: seq<byte>, y: nat, before: Disk)
    reads drive
    requires |sector| == SECTOR_SIZE && y <= SECTOR_SIZE
  {
    && drive.SelectedLba() == at
    && (if y < SECTOR_SIZE then drive.writing && drive.data == sector[..y] && drive.sectors == before
        else drive.sectors == before[at := sector])
  }

  method TransferWord(drive: Drive, buf: array<byte>, y: nat, ghost at: nat, ghost before: Disk)
    requires buf.Length == SECTOR_SIZE && y + 2 <= SECTOR_SIZE
    requires Transferring(drive, at, buf[..], y, before)
    modifies drive`writing, drive`data, drive`sectors
    ensures Transferring(drive, at, buf[..], y + 2, before)
  {
    assert buf[..][..y] + [buf[y], buf[y + 1]] == buf[..][..y + 2];
    assert y + 2 == SECTOR_SIZE ==> buf[..][..y + 2] == buf[..];
    drive.StoreWord(buf[y], buf[y + 1]);
  }

  /** `ide_write_sector`. */
  method IdeWriteSector(drive: Drive, lba: nat, buf: array<byte>)
    requires buf.Length == SECTOR_SIZE
    modifies drive
    ensures drive.sectors == old(drive.sectors)[lba % 0x10000000 := buf[..]]
  {
    ghost var at, sector, before := lba % 0x10000000, buf[..], drive.sectors;
    SelectC(drive, lba);
    drive.Command(WRITE_SECTORS);
    for i := 0 to 256
      invariant buf[..] == sector && Transferring(drive, at, sector, 2 * i, before)
    {
      TransferWord(drive, buf, 2 * i, at, before);
    }
  }

  method SelectC(drive: Drive, lba: nat)
    modifies drive`devHead, drive`lba0, drive`lba1, drive`lba2
    ensures drive.SelectedLba() == lba % 0x10000000
  {
    AddressOfParts(lba);
    var high := lba / 0x1000000 % 16;
    Split16(0xE0 + high, 14, high);
    drive.Select(0xE0 + high, lba % 256, lba / 256 % 256, lba / 65536 % 256);
  }

  method SelectAsm(drive: Drive, high: byte, middle: byte, low: byte)
    modifies drive`devHead, drive`lba0, drive`lba1, drive`lba2
    ensures drive.SelectedLba() == Address(high, middle, low)
  {
    Split16(0xE0, 14, 0);
    drive.Select(0xE0, low, middle, high);
  }

  /** `IdeWrite`: Y walks over the buffer while U counts the words down. */
  method IdeWriteAsm(drive: Drive, lba: array<byte>, buf: array<byte>)
    requires lba.Length == 3 && buf.Length == SECTOR_SIZE
    modifies drive
    ensures drive.sectors == old(drive.sectors)[Address(lba[0], lba[1], lba[2]) := buf[..]]
  {
    ghost var at, sector, before := Address(lba[0], lba[1], lba[2]), buf[..], drive.sectors;
    SelectAsm(drive, lba[0], lba[1], lba[2]);
    drive.Command(WRITE_SECTORS);
    var y, u := 0, 256;
    while true
      invariant 1 <= u <= 256 && y == 2 * (256 - u)
      invariant buf[..] == sector && Transferring(drive, at, sector, y, before)
      decreases u
    {
      TransferWord(drive, buf, y, at, before);
      y, u := y + 2, u - 1;
      if u == 0 {
        return;
      }
    }
  }

  lemma FoldOneMore(s: seq<byte>, i: nat)
    requires i < |s|
    ensures XorFold(0, s[..i + 1]) == Xor(XorFold(0, s[..i]), s[i])
  {
    assert s[..i + 1] == s[..i] + [s[i]];
    XorFoldAppend(0, s[..i], [s[i]]);
    assert XorFold(XorFold(0, s[..i]), [s[i]]) == Xor(XorFold(0, s[..i]), s[i]);
  }

  method ChecksumC(buf: array<byte>) returns (chk: byte)
    requires buf.Length == SECTOR_SIZE
    ensures chk == XorFold(0, buf[..])
  {
    chk := 0;
    for i := 0 to SECTOR_SIZE
      invariant chk == XorFold(0, buf[..i])
    {
      FoldOneMore(buf[..], i);
      assert buf[..][..i] == buf[..i] && buf[..][..i + 1] == buf[..i + 1];
      chk := Xor(chk, buf[i]);
    }
    assert buf[..SECTOR_SIZE] == buf[..];
  }

  method ChecksumAsm(buf: array<byte>) returns (b: byte)
    requires buf.Length == SECTOR_SIZE
    ensures b == XorFold(0, buf[..])
  {
    var x, y := 0, SECTOR_SIZE;
    b := 0;
    while true
      invariant y > 0 && x + y == SECTOR_SIZE && b == XorFold(0, buf[..x])
      decreases y
    {
      FoldOneMore(buf[..], x);
      assert buf[..][..x] == buf[..x] && buf[..][..x + 1] == buf[..x + 1];
      b := Xor(b, buf[x]);
      x, y := x + 1, y - 1;
      if y == 0 {
        assert buf[..x] == buf[..];
        return;
      }
    }
  }

  method ReadThree(line: Line) returns (ok: bool, a: byte, b: byte, c: byte)
    modifies line`input
    ensures ok <==> |old(line.input)| >= 3
    ensures ok ==> old(line.input) == [a, b, c] + line.input
  {
    a, b, c := 0, 0, 0;
    ok, a := line.RxByte();
    if ok {
      ok, b := line.RxByte();
    }
    if ok {
      ok, c := line.RxByte();
    }
  }

  /** What one turn of either frame loop does to the line and the drive. */
  twostate predicate FollowsTurn(line: Line, drive: Drive, how: Decoder, ok: bool, ended: bool)
    reads line, drive
  {
    match NextFrame(old(line.input), old(drive.sectors), how)
    case Waiting => !ok && !ended && line.output == old(line.output) && drive.sectors == old(drive.sectors)
    case Finished => ok && ended && line.output == old(line.output) + [ACK] && drive.sectors == old(drive.sectors)
    case Answered(reply, rest, disk) =>
      ok && !ended && line.output == old(line.output) + [reply] && line.input == rest && drive.sectors == disk
  }

  /** The end of a frame, from the address on, as C handles it. */
  method PayloadC(line: Line, drive: Drive, buf: array<byte>, lba: nat) returns (ok: bool)
    requires buf.Length == SECTOR_SIZE && lba < 0x1000000
    modifies line, drive, buf
    ensures match Judged(Decode(InC, old(line.input)), old(drive.sectors), lba)
      case Answered(reply, rest, disk) =>
        ok && line.output == old(line.output) + [reply] && line.input == rest && drive.sectors == disk
      case _ => !ok && line.output == old(line.output) && drive.sectors == old(drive.sectors)
  {
    var decoded;
    ok, decoded := PackBitsDecode(line, buf, SECTOR_SIZE);
    if !ok {
      return;
    }
    if decoded != SECTOR_SIZE {
      line.TxByte(NAK);
      return;
    }
    assert buf[..decoded] == buf[..];
    var chk := ChecksumC(buf);
    var got;
    ok, got := line.RxByte();
    if !ok {
      return;
    }
    if got != chk {
      line.TxByte(NAK);
      return;
    }
    IdeWriteSector(drive, lba, buf);
    line.TxByte(ACK);
  }

  method FrameC(line: Line, drive: Drive, buf: array<byte>) returns (ok: bool, ended: bool)
    requires buf.Length == SECTOR_SIZE
    modifies line, drive, buf
    ensures FollowsTurn(line, drive, InC, ok, ended)
  {
    ended := false;
    var c;
    ok, c := line.RxByte();
    if !ok {
      return;
    }
    if c == EOT {
      line.TxByte(ACK);
      ended := true;
    } else if c != SOH {
      line.TxByte(NAK);
    } else {
      var high, middle, low;
      ok, high, middle, low := ReadThree(line);
      if ok {
        assert old(line.input) == [c, high, middle, low] + line.input && old(line.input)[4..] == line.input;
        ok := PayloadC(line, drive, buf, Address(high, middle, low));
      }
    }
  }

  /** The end of a frame, from the address on, as the assembly handles it. */
  method PayloadAsm(line: Line, drive: Drive, secbuf: array<byte>, lba: array<byte>) returns (ok: bool)
    requires secbuf.Length == SECTOR_SIZE && lba.Length == 3 && lba != secbuf
    modifies line, drive, secbuf
    ensures match Judged(Decode(InAssembly, old(line.input)), old(drive.sectors), Address(lba[0], lba[1], lba[2]))
      case Answered(reply, rest, disk) =>
        ok && line.output == old(line.output) + [reply] && line.input == rest && drive.sectors == disk
      case _ => !ok && line.output == old(line.output) && drive.sectors == old(drive.sectors)
  {
    var y;
    ok, y := PackBitsAsm(line, secbuf, SECTOR_SIZE);
    if !ok {
      return;
    }
    if y != 0 {
      line.TxByte(NAK);
      return;
    }
    assert secbuf[..SECTOR_SIZE] == secbuf[..];
    var b := ChecksumAsm(secbuf);
    var a;
    ok, a := line.RxByte();
    if !ok {
      return;
    }
    if a != b {
      line.TxByte(NAK);
      return;
    }
    IdeWriteAsm(drive, lba, secbuf);
    line.TxByte(ACK);
  }

  method FrameAsm(line: Line, drive: Drive, secbuf: array<byte>, lba: array<byte>) returns (ok: bool, ended: bool)
    requires secbuf.Length == SECTOR_SIZE && lba.Length == 3 && lba != secbuf
    modifies line, drive, secbuf, lba
    ensures FollowsTurn(line, drive, InAssembly, ok, ended)
  {
    ended := false;
    var a;
    ok, a := line.RxByte();
    if !ok {
      return;
    }
    if a == EOT {
      line.TxByte(ACK);
      ended := true;
    } else if a != SOH {
      line.TxByte(NAK);
    } else {
      var high, middle, low;
      ok, high, middle, low := ReadThree(line);
      if ok {
        lba[0], lba[1], lba[2] := high, middle, low;
        assert old(line.input) == [a, high, middle, low] + line.input && old(line.input)[4..] == line.input;
        ok := PayloadAsm(line, drive, secbuf, lba);
      }
    }
  }

  lemma AfterTwice(a: seq<byte>, b: seq<byte>, r: Session)
    ensures r.After(b).After(a) == r.After(a + b)
  {
    assert a + (b + r.replies) == a + b + r.replies;
  }

  /** The receiver in C, from its ready signal on: any stream is answered as `Serve` says. */
  method DiskLoadC(line: Line, drive: Drive) returns (ended: bool)
    modifies line, drive
    ensures var r := Serve(old(line.input), old(drive.sectors), InC);
      line.output == old(line.output) + [0x52] + r.replies && drive.sectors == r.disk && ended == r.ended
  {
    var buf := new byte[SECTOR_SIZE];
    ghost var s, disk := line.input, drive.sectors;
    line.TxByte(READY);
    ghost var before, replies: seq<byte> := line.output, [];
    ended := false;
    while !ended
      invariant line.output == before + replies
      invariant if ended then Serve(s, disk, InC) == Session(replies, drive.sectors, true)
                else Serve(s, disk, InC) == Serve(line.input, drive.sectors, InC).After(replies)
      decreases !ended, |line.input|
    {
      ghost var t := NextFrame(line.input, drive.sectors, InC);
      ghost var rest := if t.Answered? then Serve(t.rest, t.disk, InC) else Session([], drive.sectors, false);
      ghost var reply := if t.Answered? then [t.reply] else [];
      AfterTwice(replies, reply, rest);
      var ok;
      ok, ended := FrameC(line, drive, buf);
      if !ok {
        return;
      }
      replies := replies + (if ended then [ACK] else reply);
    }
  }

  /** The receiver in assembly, up to its restart. */
  method DiskLoadAsm(line: Line, drive: Drive) returns (ended: bool)
    modifies line, drive
    ensures var r := Serve(old(line.input), old(drive.sectors), InAssembly);
      line.output == old(line.output) + [0x52] + r.replies && drive.sectors == r.disk && ended == r.ended
  {
    var secbuf, lba := new byte[SECTOR_SIZE], new byte[3];
    ghost var s, disk := line.input, drive.sectors;
    line.TxByte(READY);
    ghost var before, replies: seq<byte> := line.output, [];
    ended := false;
    while !ended
      invariant line.output == before + replies
      invariant if ended then Serve(s, disk, InAssembly) == Session(replies, drive.sectors, true)
                else Serve(s, disk, InAssembly) == Serve(line.input, drive.sectors, InAssembly).After(replies)
      decreases !ended, |line.input|
    {
      ghost var t := NextFrame(line.input, drive.sectors, InAssembly);
      ghost var rest := if t.Answered? then Serve(t.rest, t.disk, InAssembly) else Session([], drive.sectors, false);
      ghost var reply := if t.Answered? then [t.reply] else [];
      AfterTwice(replies, reply, rest);
      var ok;
      ok, ended := FrameAsm(line, drive, secbuf, lba);
      if !ok {
        return;
      }
      replies := replies + (if ended then [ACK] else reply);
    }
  }
}
