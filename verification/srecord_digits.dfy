/** The digits of an S-record: either case, the checksum as the ones' complement of a sum, and known records. */
module SRecordDigits {
  import opened Bytes
  import opened SRecords

  /** A character is the digit `n` exactly when it stands for it in one of the two alphabets. */
  lemma DigitMeans(c: char, n: nat)
    requires n < 16
    ensures DigitValue(c) == Some(n) <==> c == "0123456789ABCDEF"[n] || c == "0123456789abcdef"[n]
  {
  }

  function Sixteen(k: nat): nat
  {
    if k == 0 then 1 else 16 * Sixteen(k - 1)
  }

  lemma {:induction false} PrefixBound(s: seq<char>, k: nat)
    requires HexPrefix(s, k).Some?
    ensures k <= |s| && HexPrefix(s, k).value < Sixteen(k)
    decreases k
  {
    if k > 0 {
      PrefixBound(s, k - 1);
    }
  }

  lemma ShiftInto(a: nat, p: nat, w: nat, d: nat)
    ensures 16 * (p * a + w) + d == (16 * p) * a + (16 * w + d)
  {
  }

  lemma {:induction false} PrefixSplits(s: seq<char>, n: nat, k: nat)
    requires n <= |s| && HexPrefix(s, n).Some?
    ensures HexPrefix(s, n + k) == match HexPrefix(s[n..], k)
                                   case None => None
                                   case Some(w) => Some(Sixteen(k) * HexPrefix(s, n).value + w)
    decreases k
  {
    if k > 0 {
      PrefixSplits(s, n, k - 1);
      if n + k <= |s| && HexPrefix(s[n..], k).Some? {
        var d := DigitValue(s[n..][k - 1]).value;
        assert s[n..][k - 1] == s[n + k - 1];
        ShiftInto(HexPrefix(s, n).value, Sixteen(k - 1), HexPrefix(s[n..], k - 1).value, d);
      }
    }
  }

  lemma EightDigits(a: nat, w: nat)
    requires w < Sixteen(8)
    ensures (Sixteen(8) * a + w) % 0x1_0000_0000 == w && w % 0x1_0000_0000 == w
  {
    assert Sixteen(4) == 0x1_0000 by { assert Sixteen(2) == 0x100; }
    assert Sixteen(6) == 0x100_0000;
    SplitUint(Sixteen(8) * a + w, a, w);
    SplitUint(w, 0, w);
  }

  /** Of more than eight digits the last eight count; up to eight are read in full. */
  lemma LastEightDigitsCount(s: seq<char>, count: nat, n: nat)
    requires n <= |s| && HexPrefix(s, HexLength(s, count)).Some?
    ensures HexLength(s, count) == n + 8 ==> HexPrefix(s[n..], 8) == Some(HexResult(s, count))
    ensures HexLength(s, count) <= 8 ==> HexPrefix(s, HexLength(s, count)) == Some(HexResult(s, count))
  {
    var l := HexLength(s, count);
    if l == n + 8 {
      if HexPrefix(s, n) == None {
        BadDigitStays(s, n, l);
      } else {
        PrefixSplits(s, n, 8);
        PrefixBound(s[n..], 8);
        EightDigits(HexPrefix(s, n).value, HexPrefix(s[n..], 8).value);
      }
    }
    if l <= 8 {
      PrefixBound(s, l);
      SixteenGrows(l, 8);
      EightDigits(0, HexPrefix(s, l).value);
    }
  }

  /** The error value is told from a number exactly while the number has fewer than eight digits. */
  lemma ErrorIsClear(s: seq<char>, count: nat)
    ensures HexLength(s, count) < 8 ==>
      (HexResult(s, count) == 0xFFFF_FFFF <==> HexPrefix(s, HexLength(s, count)) == None)
    ensures HexResult("FFFFFFFF", 8) == 0xFFFF_FFFF && HexPrefix("FFFFFFFF", 8).Some?
  {
    if HexPrefix(s, HexLength(s, count)).Some? {
      LastEightDigitsCount(s, count, 0);
      PrefixBound(s, HexLength(s, count));
      if HexLength(s, count) < 8 {
        SixteenGrows(HexLength(s, count), 7);
        assert Sixteen(7) == 0x1000_0000 by { assert Sixteen(4) == 0x1_0000; }
      }
    }
    AllOnes("FFFFFFFF");
  }

  lemma AllOnes(t: seq<char>)
    requires |t| == 8 && forall i :: 0 <= i < 8 ==> t[i] == 'F'
    ensures HexPrefix(t, 8) == Some(0xFFFF_FFFF) && HexResult(t, 8) == 0xFFFF_FFFF
  {
    assert HexPrefix(t, 1) == Some(0xF);
    assert HexPrefix(t, 2) == Some(0xFF);
    assert HexPrefix(t, 3) == Some(0xFFF);
    assert HexPrefix(t, 4) == Some(0xFFFF);
    assert HexPrefix(t, 5) == Some(0xF_FFFF);
    assert HexPrefix(t, 6) == Some(0xFF_FFFF);
    assert HexPrefix(t, 7) == Some(0xFFF_FFFF);
  }

  lemma {:induction false} SixteenGrows(j: nat, k: nat)
    requires j <= k
    ensures Sixteen(j) <= Sixteen(k)
    decreases k
  {
    if j < k {
      SixteenGrows(j, k - 1);
    }
  }

  function Lower(c: char): char
  {
    if 'A' <= c <= 'F' then ((c as int) + 32) as char else c
  }

  function LowerCase(s: seq<char>): (t: seq<char>)
    ensures |t| == |s| && forall i :: 0 <= i < |s| ==> t[i] == Lower(s[i])
  {
    seq(|s|, i requires 0 <= i < |s| => Lower(s[i]))
  }

  lemma {:induction false} SameDigits(s: seq<char>, t: seq<char>, n: nat)
    requires |s| == |t| && forall i :: 0 <= i < |s| ==> t[i] == Lower(s[i])
    ensures HexPrefix(t, n) == HexPrefix(s, n)
    decreases n
  {
    if n > 0 {
      SameDigits(s, t, n - 1);
    }
  }

  lemma {:induction false} SameData(s: seq<char>, at: nat, n: nat)
    ensures HexData(LowerCase(s), at, n) == HexData(s, at, n)
    decreases n
  {
    if n > 0 {
      SameData(s, at, n - 1);
      var i := at + 2 * (n - 1);
      if i <= |s| {
        SameDigits(s[i..], LowerCase(s)[i..], 2);
      }
    }
  }

  lemma SameHeader(s: seq<char>)
    requires |s| >= 2
    ensures Header(LowerCase(s)) == Header(s)
  {
    SameDigits(s[2..], LowerCase(s)[2..], 2);
    if |s| >= 4 {
      SameDigits(s[4..], LowerCase(s)[4..], 4);
    }
  }

  lemma SameBody(s: seq<char>, n: nat)
    ensures Body(LowerCase(s), n) == Body(s, n)
  {
    SameData(s, 8, n);
    if 8 + 2 * n <= |s| {
      SameDigits(s[8 + 2 * n..], LowerCase(s)[8 + 2 * n..], 2);
    }
  }

  /** Lower case means what upper case means: the same fields, the same acceptance, the same number. */
  lemma CaseIsIgnored(s: seq<char>, count: nat)
    ensures |s| >= 2 ==> Fields(LowerCase(s)) == Fields(s)
    ensures HexResult(LowerCase(s), count) == HexResult(s, count)
  {
    SameDigits(s, LowerCase(s), HexLength(s, count));
    if |s| >= 2 {
      SameHeader(s);
      if Header(s).Some? {
        SameBody(s, DataBytes(Header(s).value.0));
      }
    }
  }

  /** The eight-bit count wraps: below 3 it stands for 253 to 255 data bytes, and the line must hold them. */
  lemma DataIsCounted(s: seq<char>)
    requires |s| >= 2 && Fields(s).Some?
    ensures var r := Fields(s).value;
      && |r.data| == (if r.count >= 3 then r.count - 3 else r.count + 253)
      && |s| >= 10 + 2 * |r.data|
  {
    BytesLeft(s, 8 + 2 * DataBytes(Header(s).value.0));
  }

  lemma ComplementIff(total: nat, checksum: byte)
    ensures (total + checksum) % 256 == 0xFF <==> checksum == 255 - total % 256
  {
    var k, r := total / 256, total % 256;
    if r + checksum < 256 {
      Split256(total + checksum, k, r + checksum);
    } else {
      Split256(total + checksum, k + 1, r + checksum - 256);
    }
  }

  lemma TotalOf(r: Record)
    requires r.Valid()
    ensures r.Total() == r.count + r.address / 256 + r.address % 256 + Sum(r.data)
  {
    Split256(r.address / 256, 0, r.address / 256);
  }

  /** A formatted line is accepted exactly when its checksum is the ones' complement of the low byte of the sum of
      count, address bytes and data. */
  lemma AcceptedIff(kind: char, r: Record, tail: seq<char>)
    requires r.Valid()
    ensures Fields(Text(kind, r) + tail) == Some(r)
    ensures r.Good() <==> r.checksum == 255 - (r.count + r.address / 256 + r.address % 256 + Sum(r.data)) % 256
  {
    TextReads(kind, r, tail);
    TotalOf(r);
    ComplementIff(r.Total(), r.checksum);
  }

  lemma TwoBytesText(a: byte, b: byte)
    ensures DataText([a, b]) == ByteText(a) + ByteText(b) && Sum([a, b]) == a + b
  {
    assert [a, b][..1] == [a] && [a][..0] == [];
    assert DataText([a]) == ByteText(a) && Sum([a]) == a;
  }

  lemma LastRecord()
    ensures Text('9', Record(3, 0, [], 0xFC)) == "S9030000FC" && Record(3, 0, [], 0xFC).Good()
  {
    assert ByteText(3) == "03" && ByteText(0) == "00" && ByteText(0xFC) == "FC";
  }

  lemma DataRecord(data: seq<byte>, text: seq<char>)
    requires data == [0x8E, 0x12] && text == "8E12"
    requires DataText(data) == text && Sum(data) == 0xA0
    ensures Text('1', Record(5, 0xFE00, data, 0x5C)) == "S105FE00" + text + "5C"
    ensures Record(5, 0xFE00, data, 0x5C).Good()
  {
    Split256(0xFE00, 0xFE, 0);
    assert ByteText(5) == "05" && ByteText(0xFE) == "FE" && ByteText(0) == "00" && ByteText(0x5C) == "5C";
    TotalOf(Record(5, 0xFE00, data, 0x5C));
  }

  /** The usual last line of a file, and a line with data. */
  lemma KnownRecords()
    ensures Text('9', Record(3, 0, [], 0xFC)) == "S9030000FC" && Record(3, 0, [], 0xFC).Good()
    ensures Text('1', Record(5, 0xFE00, [0x8E, 0x12], 0x5C)) == "S105FE00" + "8E12" + "5C"
    ensures Record(5, 0xFE00, [0x8E, 0x12], 0x5C).Good()
  {
    LastRecord();
    TwoBytesText(0x8E, 0x12);
    assert ByteText(0x8E) == "8E" && ByteText(0x12) == "12";
    DataRecord([0x8E, 0x12], "8E12");
  }
}
