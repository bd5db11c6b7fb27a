/** The S-record reader of src/srec.cpp. */
module SRecords {
  import opened Bytes

  const UINT: nat := 0x1_0000_0000
  const HEX_ERROR: nat := 0xFFFF_FFFF

  function DigitValue(c: char): (d: Option<nat>)
    ensures d.Some? ==> d.value < 16
  {
    if '0' <= c <= '9' then Some((c as int) - ('0' as int))
    else if 'A' <= c <= 'F' then Some((c as int) - ('A' as int) + 10)
    else if 'a' <= c <= 'f' then Some((c as int) - ('a' as int) + 10)
    else None
  }

  /** The value of the first `n` characters of `s`, when they are hex digits. */
  function HexPrefix(s: seq<char>, n: nat): Option<nat>
  {
    if n == 0 then Some(0)
    else if n > |s| then None
    else
      match (HexPrefix(s, n - 1), DigitValue(s[n - 1]))
      case (Some(v), Some(d)) => Some(16 * v + d)
      case _ => None
  }

  lemma {:induction false} BadDigitStays(s: seq<char>, m: nat, n: nat)
    requires m <= n && HexPrefix(s, m) == None
    ensures HexPrefix(s, n) == None
    decreases n
  {
    if m < n {
      BadDigitStays(s, m, n - 1);
    }
  }

  lemma HexBound(s: seq<char>)
    ensures HexPrefix(s, 2).Some? ==> HexPrefix(s, 2).value < 256
    ensures HexPrefix(s, 4).Some? ==> HexPrefix(s, 4).value < 65536
  {
    assert HexPrefix(s, 1).Some? ==> HexPrefix(s, 1).value < 16;
    assert HexPrefix(s, 2).Some? ==> HexPrefix(s, 2).value < 256;
    assert HexPrefix(s, 3).Some? ==> HexPrefix(s, 3).value < 4096;
  }

  /** A C string: its only NUL is the last character. */
  predicate Terminated(s: seq<char>)
  {
    |s| > 0 && s[|s| - 1] == '\0' && forall i :: 0 <= i < |s| - 1 ==> s[i] != '\0'
  }

  /** The number of characters that `hex` looks at: `count` of them, or with 0 all up to the terminator. */
  function HexLength(s: seq<char>, count: nat): nat
  {
    if count != 0 then count else if |s| <= 1 then 1 else |s| - 1
  }

  function HexResult(s: seq<char>, count: nat): nat
  {
    match HexPrefix(s, HexLength(s, count))
    case None => HEX_ERROR
    case Some(v) => v % UINT
  }

  lemma SplitUint(x: nat, q: nat, r: nat)
    requires x == UINT * q + r && r < UINT
    ensures x % UINT == r
  {
  }

  lemma ShiftedMod(v: nat, d: nat)
    requires d < 16
    ensures (16 * (v % UINT)) % UINT + d == (16 * v + d) % UINT
  {
    var q, r := v / UINT, v % UINT;
    var a, b := r / 0x1000_0000, r % 0x1000_0000;
    assert r == 0x1000_0000 * a + b && v == UINT * q + r;
    SplitUint(16 * r, a, 16 * b);
    SplitUint(16 * v + d, 16 * q + a, 16 * b + d);
  }

  /** `hex`: it never reads behind the terminator. */
  method Hex(s: seq<char>, count: nat) returns (r: nat)
    requires Terminated(s)
    ensures r == HexResult(s, count)
  {
    var val, tally := 0, 0;
    while true
      invariant tally < |s| && tally < HexLength(s, count)
      invariant HexPrefix(s, tally).Some? && val == HexPrefix(s, tally).value % UINT
      decreases |s| - tally
    {
      ghost var v := HexPrefix(s, tally).value;
      val := (16 * val) % UINT;
      var c := s[tally];
      var d := 0;
      if '0' <= c <= '9' {
        d := (c as int) - ('0' as int);
      } else if 'A' <= c <= 'F' {
        d := (c as int) - ('A' as int) + 10;
      } else if 'a' <= c <= 'f' {
        d := (c as int) - ('a' as int) + 10;
      } else {
        BadDigitStays(s, tally + 1, HexLength(s, count));
        return HEX_ERROR;
      }
      ShiftedMod(v, d);
      val := val + d;
      tally := tally + 1;
      if count != 0 && tally == count {
        return val;
      }
      if count == 0 && s[tally] == '\0' {
        return val;
      }
    }
  }

  // ----- records -----

  datatype Record = Record(count: byte, address: nat, data: seq<byte>, checksum: byte)
  {
    predicate Valid()
    {
      address < 65536 && |data| == DataBytes(count)
    }

    /** All that the checksum covers, without any wrap-around. */
    function Total(): nat
    {
      count + address / 256 % 256 + address % 256 + Sum(data)
    }

    predicate Good()
    {
      (Total() + checksum) % 256 == 0xFF
    }
  }

  /** The 8-bit `index`: what the count field leaves for data, behind the address and the checksum. */
  function DataBytes(count: byte): (n: nat)
    ensures n < 256
  {
    (count + 253) % 256
  }

  function Sum(s: seq<byte>): nat
  {
    if s == [] then 0 else Sum(s[..|s| - 1]) + s[|s| - 1]
  }

  function HexByte(s: seq<char>, at: nat): (r: Option<byte>)
    requires at <= |s|
  {
    HexBound(s[at..]);
    match HexPrefix(s[at..], 2)
    case None => None
    case Some(v) => Some(v)
  }

  function HexData(s: seq<char>, at: nat, n: nat): (r: Option<seq<byte>>)
    ensures r.Some? ==> |r.value| == n && at + 2 * n <= |s|
  {
    if n == 0 then if at <= |s| then Some([]) else None
    else
      match HexData(s, at, n - 1)
      case None => None
      case Some(d) =>
        (match HexByte(s, at + 2 * (n - 1))
         case None => None
         case Some(b) => BytesLeft(s, at + 2 * (n - 1)); Some(d + [b]))
  }

  lemma BytesLeft(s: seq<char>, at: nat)
    requires at <= |s| && HexByte(s, at).Some?
    ensures at + 2 <= |s|
  {
  }

  /** The count and the address of a line. */
  function Header(s: seq<char>): (h: Option<(byte, nat)>)
    requires |s| >= 2
    ensures h.Some? ==> h.value.1 < 65536
  {
    match HexByte(s, 2)
    case None => None
    case Some(count) =>
      BytesLeft(s, 2);
      HexBound(s[4..]);
      match HexPrefix(s[4..], 4)
      case None => None
      case Some(address) => Some((count, address))
  }

  /** The data and the checksum of a line. */
  function Body(s: seq<char>, n: nat): (b: Option<(seq<byte>, byte)>)
    ensures b.Some? ==> |b.value.0| == n
  {
    match HexData(s, 8, n)
    case None => None
    case Some(data) =>
      match HexByte(s, 8 + 2 * n)
      case None => None
      case Some(checksum) => Some((data, checksum))
  }

  /** The fields of a line, when all of its hex digits are valid. */
  function Fields(s: seq<char>): (r: Option<Record>)
    requires |s| >= 2
    ensures r.Some? ==> r.value.Valid()
  {
    match Header(s)
    case None => None
    case Some(h) =>
      match Body(s, DataBytes(h.0))
      case None => None
      case Some(b) => Some(Record(h.0, h.1, b.0, b.1))
  }

  lemma TailTerminated(s: seq<char>, at: nat)
    requires Terminated(s) && at < |s|
    ensures Terminated(s[at..])
  {
  }

  /** A field of valid digits ends before the terminator. */
  lemma FieldInside(s: seq<char>, at: nat, n: nat)
    requires Terminated(s) && at < |s| && n > 0 && HexPrefix(s[at..], n).Some?
    ensures at + n < |s|
  {
    assert DigitValue(s[at..][n - 1]).Some?;
    assert s[at + n - 1] != '\0';
  }

  /** Once a data byte is bad, there is no record. */
  lemma {:induction false} BadDataStays(s: seq<char>, at: nat, m: nat, n: nat)
    requires m <= n && HexData(s, at, m) == None
    ensures HexData(s, at, n) == None
    decreases n
  {
    if m < n {
      BadDataStays(s, at, m, n - 1);
    }
  }

  /** The 16-bit sum of a record with a sensible count never wraps. */
  lemma {:induction false} SumBound(s: seq<byte>)
    ensures Sum(s) <= 255 * |s|
    decreases |s|
  {
    if s != [] {
      SumBound(s[..|s| - 1]);
    }
  }

  lemma TotalBound(r: Record)
    requires r.Valid() && r.count >= 3
    ensures r.Total() <= 65025
  {
    SumBound(r.data);
  }

  /** A two-digit field, with the error value in place of None. */
  method HexTwo(s: seq<char>, at: nat) returns (ok: bool, b: byte)
    requires Terminated(s) && at < |s|
    ensures HexByte(s, at) == if ok then Some(b) else None
    ensures ok ==> at + 2 < |s|
  {
    TailTerminated(s, at);
    HexBound(s[at..]);
    var hexnum := Hex(s[at..], 2);
    if hexnum > 0xFF {
      return false, 0;
    }
    FieldInside(s, at, 2);
    return true, hexnum;
  }

  lemma DataStep(s: seq<char>, at: nat, i: nat, front: seq<byte>)
    requires HexData(s, at, i) == Some(front)
    ensures HexData(s, at, i + 1)
         == match HexByte(s, at + 2 * i) case None => None case Some(b) => Some(front + [b])
  {
  }

  /** The 16-bit sum of `s` on top of `sum0`. */
  function Sum16(sum0: nat, s: seq<byte>): nat
  {
    (sum0 + Sum(s)) % 65536
  }

  method AddByte(sum: nat, b: byte, ghost sum0: nat, ghost front: seq<byte>) returns (r: nat)
    requires sum == Sum16(sum0, front)
    ensures r == Sum16(sum0, front + [b])
  {
    assert (front + [b])[..|front|] == front;
    r := (sum + b) % 65536;
  }

  /** The data loop, with the 16-bit sum that starts at `sum0`. */
  method ReadData(s: seq<char>, at: nat, index: byte, data: array<byte>, sum0: nat) returns (ok: bool, sum: nat)
    requires Terminated(s) && at < |s| && index <= data.Length && sum0 < 65536
    modifies data
    ensures HexData(s, at, index) == if ok then Some(data[..index]) else None
    ensures ok ==> at + 2 * index < |s| && sum == Sum16(sum0, data[..index])
    ensures data[index..] == old(data[index..])
  {
    sum := sum0;
    ghost var front: seq<byte> := [];
    var i, pos := 0, at;
    while i < index
      invariant 0 <= i <= index && pos == at + 2 * i && pos < |s|
      invariant data[..i] == front && HexData(s, at, i) == Some(front)
      invariant sum == Sum16(sum0, front)
      invariant data[index..] == old(data[index..])
    {
      var val;
      DataStep(s, at, i, front);
      ok, val := HexTwo(s, pos);
      if !ok {
        BadDataStays(s, at, i + 1, index);
        return;
      }
      sum := AddByte(sum, val, sum0, front);
      data[i] := val;
      front := front + [val];
      i, pos := i + 1, pos + 2;
    }
    ok := true;
  }

  method ReadHeader(buf: seq<char>) returns (ok: bool, count: byte, address: nat)
    requires Terminated(buf) && |buf| >= 3
    ensures Header(buf) == if ok then Some((count, address)) else None
    ensures ok ==> |buf| > 8
  {
    address := 0;
    ok, count := HexTwo(buf, 2);
    if !ok {
      return;
    }
    TailTerminated(buf, 4);
    HexBound(buf[4..]);
    var hexnum := Hex(buf[4..], 4);
    if hexnum > 0xFFFF {
      return false, count, address;
    }
    FieldInside(buf, 4, 4);
    address := hexnum;
  }

  method ReadBody(buf: seq<char>, index: byte, data: array<byte>, sum0: nat)
    returns (ok: bool, checksum: byte, sum: nat)
    requires Terminated(buf) && |buf| > 8 && data.Length == 256 && sum0 < 65536
    modifies data
    ensures Body(buf, index) == if ok then Some((data[..index], checksum)) else None
    ensures ok ==> sum == Sum16(sum0, data[..index])
    ensures data[index..] == old(data[index..])
  {
    checksum := 0;
    ok, sum := ReadData(buf, 8, index, data, sum0);
    if ok {
      ok, checksum := HexTwo(buf, 8 + 2 * index);
    }
  }

  /** `process_srecord`: it accepts a line exactly when all its hex digits are valid and the bytes of the
      record, checksum included, add up to 0xFF modulo 256. */
  method ProcessSrecord(buf: seq<char>, data: array<byte>)
    returns (ok: bool, count: byte, address: nat, checksum: byte)
    requires Terminated(buf) && |buf| >= 3 && data.Length == 256
    modifies data
    ensures ok <==> Fields(buf).Some? && Fields(buf).value.Good()
    ensures Fields(buf).Some? ==>
      Fields(buf).value == Record(count, address, data[..DataBytes(count)], checksum)
  {
    checksum := 0;
    ok, count, address := ReadHeader(buf);
    if !ok {
      return;
    }
    var index := (count + 253) % 256;
    var sum := count + address / 256 % 256 + address % 256;
    ok, checksum, sum := ReadBody(buf, index, data, sum);
    if !ok {
      return;
    }
    GoodByChecksum(Record(count, address, data[..index], checksum), sum);
    ok := checksum == 0xFF - sum % 256;
  }

  lemma GoodByChecksum(r: Record, sum: nat)
    requires sum == Sum16(r.count + r.address / 256 % 256 + r.address % 256, r.data)
    ensures r.Good() <==> r.checksum == 0xFF - sum % 256
  {
    ChecksumCondition(r.Total(), r.checksum);
  }

  lemma ChecksumCondition(total: nat, checksum: byte)
    ensures checksum == 0xFF - total % 65536 % 256 <==> (total + checksum) % 256 == 0xFF
  {
    var m := total % 65536;
    var k, r := 256 * (total / 65536) + m / 256, m % 256;
    assert total == 256 * k + r;
    if r + checksum < 256 {
      Split256(total + checksum, k, r + checksum);
    } else {
      Split256(total + checksum, k + 1, r + checksum - 256);
    }
  }

  // ----- writing records -----

  function HexDigit(d: nat): (c: char)
    requires d < 16
    ensures DigitValue(c) == Some(d)
  {
    if d < 10 then '0' + d as char else 'A' + (d - 10) as char
  }

  function ByteText(b: byte): seq<char>
  {
    [HexDigit(b / 16), HexDigit(b % 16)]
  }

  function DataText(data: seq<byte>): (s: seq<char>)
    ensures |s| == 2 * |data|
  {
    if data == [] then [] else DataText(data[..|data| - 1]) + ByteText(data[|data| - 1])
  }

  /** A line of the given type; `r` may carry any checksum. */
  function Text(kind: char, r: Record): seq<char>
    requires r.Valid()
  {
    ['S', kind] + ByteText(r.count) + ByteText(r.address / 256) + ByteText(r.address % 256)
    + DataText(r.data) + ByteText(r.checksum)
  }

  /** The text `t` stands in `s` at `at`. */
  predicate Holds(s: seq<char>, at: nat, t: seq<char>)
  {
    at + |t| <= |s| && s[at..at + |t|] == t
  }

  lemma ByteReads(s: seq<char>, at: nat, b: byte)
    requires Holds(s, at, ByteText(b))
    ensures HexByte(s, at) == Some(b)
  {
    var t := s[at..];
    assert t[0] == s[at..at + 2][0] == HexDigit(b / 16) && t[1] == s[at..at + 2][1] == HexDigit(b % 16);
    assert HexPrefix(t, 1) == Some(b / 16);
  }

  lemma WordReads(s: seq<char>, at: nat, w: nat)
    requires w < 65536 && Holds(s, at, ByteText(w / 256)) && Holds(s, at + 2, ByteText(w % 256))
    ensures HexPrefix(s[at..], 4) == Some(w)
  {
    var t, h, l := s[at..], w / 256, w % 256;
    assert t[0] == s[at..at + 2][0] == HexDigit(h / 16) && t[1] == s[at..at + 2][1] == HexDigit(h % 16);
    assert t[2] == s[at + 2..at + 4][0] == HexDigit(l / 16) && t[3] == s[at + 2..at + 4][1] == HexDigit(l % 16);
    assert HexPrefix(t, 1) == Some(h / 16);
    assert HexPrefix(t, 2) == Some(h);
    assert HexPrefix(t, 3) == Some(16 * h + l / 16);
  }

  lemma HoldsFront(s: seq<char>, at: nat, t: seq<char>, t': seq<char>)
    requires Holds(s, at, t + t')
    ensures Holds(s, at, t) && Holds(s, at + |t|, t')
  {
    var both := s[at..at + |t + t'|];
    assert s[at..at + |t|] == both[..|t|] && s[at + |t|..at + |t| + |t'|] == both[|t|..];
  }

  lemma OneMoreReads(s: seq<char>, at: nat, init: seq<byte>, last: byte)
    requires HexData(s, at, |init|) == Some(init) && Holds(s, at + 2 * |init|, ByteText(last))
    ensures HexData(s, at, |init| + 1) == Some(init + [last])
  {
    ByteReads(s, at + 2 * |init|, last);
    DataStep(s, at, |init|, init);
  }

  lemma {:induction false} DataReads(s: seq<char>, at: nat, data: seq<byte>)
    requires Holds(s, at, DataText(data))
    ensures HexData(s, at, |data|) == Some(data)
    decreases |data|
  {
    if data != [] {
      var n := |data| - 1;
      var init, last := data[..n], data[n];
      HoldsFront(s, at, DataText(init), ByteText(last));
      DataReads(s, at, init);
      OneMoreReads(s, at, init, last);
      assert data == init + [last];
    }
  }

  lemma FiveParts(a: seq<char>, b: seq<char>, c: seq<char>, d: seq<char>, e: seq<char>, f: seq<char>, g: seq<char>)
    ensures Holds(a + b + c + d + e + f + g, |a|, b + (c + (d + (e + (f + g)))))
  {
    assert a + b + c + d + e + f + g == a + (b + (c + (d + (e + (f + g)))));
  }

  /** What is held is held in parts. */
  predicate HoldsRecord(s: seq<char>, r: Record)
    requires r.Valid()
  {
    && Holds(s, 2, ByteText(r.count)) && Holds(s, 4, ByteText(r.address / 256))
    && Holds(s, 6, ByteText(r.address % 256)) && Holds(s, 8, DataText(r.data))
    && Holds(s, 8 + 2 * |r.data|, ByteText(r.checksum))
  }

  /** Where the fields of a formatted line stand. */
  lemma TextLayout(kind: char, r: Record, tail: seq<char>)
    requires r.Valid()
    ensures HoldsRecord(Text(kind, r) + tail, r)
  {
    var s, c, h, l := Text(kind, r) + tail, ByteText(r.count), ByteText(r.address / 256), ByteText(r.address % 256);
    var d, k, lead := DataText(r.data), ByteText(r.checksum), ['S', kind];
    FiveParts(lead, c, h, l, d, k, tail);
    HoldsFront(s, |lead|, c, h + (l + (d + (k + tail))));
    HoldsFront(s, |lead| + |c|, h, l + (d + (k + tail)));
    HoldsFront(s, |lead| + |c| + |h|, l, d + (k + tail));
    HoldsFront(s, |lead| + |c| + |h| + |l|, d, k + tail);
    HoldsFront(s, |lead| + |c| + |h| + |l| + |d|, k, tail);
  }

  lemma RecordReads(s: seq<char>, r: Record)
    requires r.Valid() && HoldsRecord(s, r)
    ensures |s| >= 2 && Fields(s) == Some(r)
  {
    ByteReads(s, 2, r.count);
    WordReads(s, 4, r.address);
    DataReads(s, 8, r.data);
    ByteReads(s, 8 + 2 * |r.data|, r.checksum);
  }

  /** Reading a formatted line gives the record back, whatever its checksum and whatever follows. */
  lemma TextReads(kind: char, r: Record, tail: seq<char>)
    requires r.Valid()
    ensures Fields(Text(kind, r) + tail) == Some(r)
  {
    TextLayout(kind, r, tail);
    RecordReads(Text(kind, r) + tail, r);
  }

  lemma ChecksumFits(total: nat)
    ensures (total + (0xFF - total % 256)) % 256 == 0xFF
  {
    Split256(total + (0xFF - total % 256), total / 256, 0xFF);
  }

  /** The record that a writer makes of up to 252 data bytes. */
  function Made(address: nat, data: seq<byte>): (r: Record)
    requires address < 65536 && |data| <= 252
    ensures r.Valid() && r.Good() && r.count == |data| + 3 && r.address == address && r.data == data
  {
    var r := Record(|data| + 3, address, data, 0);
    ChecksumFits(r.Total());
    r.(checksum := 0xFF - r.Total() % 256)
  }

  /** Writing and reading a record with up to 252 data bytes: it is accepted and comes back. */
  lemma RecordRoundTrip(kind: char, address: nat, data: seq<byte>, tail: seq<char>)
    requires address < 65536 && |data| <= 252
    ensures var r := Made(address, data); Fields(Text(kind, r) + tail) == Some(r) && r.Good()
  {
    TextReads(kind, Made(address, data), tail);
  }

  lemma {:induction false} SumOfChanged(s: seq<byte>, k: nat, b: byte)
    requires k < |s|
    ensures Sum(s[k := b]) == Sum(s) - s[k] + b
    decreases |s|
  {
    var n := |s| - 1;
    if k == n {
      assert s[k := b][..n] == s[..n];
    } else {
      assert s[k := b][..n] == s[..n][k := b];
      SumOfChanged(s[..n], k, b);
    }
  }

  lemma ChangedTotalIsBad(total: nat, total': nat, checksum: byte)
    requires (total + checksum) % 256 == 0xFF && total != total' && -256 < total - total' < 256
    ensures (total' + checksum) % 256 != 0xFF
  {
    var k, d := (total + checksum) / 256, total - total';
    if d > 0 {
      Split256(total' + checksum, k, 255 - d);
    } else {
      Split256(total' + checksum, k + 1, -1 - d);
    }
  }

  /** A good record with any one data byte changed is rejected. */
  lemma ChangedDataIsRejected(kind: char, r: Record, k: nat, b: byte, tail: seq<char>)
    requires r.Valid() && r.Good() && k < |r.data| && b != r.data[k]
    ensures var f := Fields(Text(kind, r.(data := r.data[k := b])) + tail); f.Some? && !f.value.Good()
  {
    var r' := r.(data := r.data[k := b]);
    TextReads(kind, r', tail);
    SumOfChanged(r.data, k, b);
    ChangedTotalIsBad(r.Total(), r'.Total(), r.checksum);
  }

  lemma OtherAddressIsBad(r: Record, address: nat)
    requires r.Valid() && r.Good() && address < 65536 && address != r.address
    requires address / 256 == r.address / 256 || address % 256 == r.address % 256
    ensures r.(address := address).Valid() && !r.(address := address).Good()
  {
    var r' := r.(address := address);
    AddressSums(r.address, address);
    ChangedTotalIsBad(r.Total(), r'.Total(), r.checksum);
  }

  /** A good record with one byte of its address changed is rejected. */
  lemma ChangedAddressIsRejected(kind: char, r: Record, address: nat, tail: seq<char>)
    requires r.Valid() && r.Good() && address < 65536 && address != r.address
    requires address / 256 == r.address / 256 || address % 256 == r.address % 256
    ensures var f := Fields(Text(kind, r.(address := address)) + tail); f.Some? && !f.value.Good()
  {
    OtherAddressIsBad(r, address);
    TextReads(kind, r.(address := address), tail);
  }

  lemma AddressSums(a: nat, b: nat)
    requires a != b && a < 65536 && b < 65536 && (a / 256 == b / 256 || a % 256 == b % 256)
    ensures var x, y := a / 256 % 256 + a % 256, b / 256 % 256 + b % 256; x != y && -256 < x - y < 256
  {
  }
}
