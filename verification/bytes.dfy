/** Eight-bit values, shared by every component of the model. */
module Bytes {

  type byte = n: int | 0 <= n < 256

  datatype Option<+T> = None | Some(value: T)

  function Copies<T>(v: T, n: nat): (s: seq<T>)
    ensures |s| == n && forall i :: 0 <= i < n ==> s[i] == v
  {
    seq(n, _ => v)
  }

  function Min(a: nat, b: nat): nat { if a < b then a else b }

  function Power2(k: nat): nat
  {
    if k == 0 then 1 else 2 * Power2(k - 1)
  }

  lemma Split256(x: nat, q: nat, r: nat)
    requires x == 256 * q + r && r < 256
    ensures x / 256 == q && x % 256 == r
  {
  }

  lemma Split65536(x: nat, q: nat, r: nat)
    requires x == 65536 * q + r && r < 65536
    ensures x / 65536 == q && x % 65536 == r
  {
  }

  lemma Split16(x: nat, q: nat, r: nat)
    requires x == 16 * q + r && r < 16
    ensures x / 16 == q && x % 16 == r
  {
  }

  /** Exclusive or, bit by bit from the least significant end. */
  function XorNat(a: nat, b: nat): nat
    decreases a + b
  {
    if a == 0 && b == 0 then 0
    else (if a % 2 == b % 2 then 0 else 1) + 2 * XorNat(a / 2, b / 2)
  }

  lemma {:induction false} XorNatBound(a: nat, b: nat, k: nat)
    requires a < Power2(k) && b < Power2(k)
    ensures XorNat(a, b) < Power2(k)
    decreases k
  {
    if k > 0 {
      XorNatBound(a / 2, b / 2, k - 1);
    }
  }

  lemma {:induction false} XorNatZero(a: nat)
    ensures XorNat(a, 0) == a
  {
    if a > 0 {
      XorNatZero(a / 2);
    }
  }

  lemma {:induction false} XorNatCommutes(a: nat, b: nat)
    ensures XorNat(a, b) == XorNat(b, a)
    decreases a + b
  {
    if a != 0 || b != 0 {
      XorNatCommutes(a / 2, b / 2);
    }
  }

  lemma {:induction false} XorNatAssociates(a: nat, b: nat, c: nat)
    ensures XorNat(XorNat(a, b), c) == XorNat(a, XorNat(b, c))
    decreases a + b + c
  {
    if a != 0 || b != 0 || c != 0 {
      XorNatAssociates(a / 2, b / 2, c / 2);
      var p, q := XorNat(a, b), XorNat(b, c);
      assert p / 2 == XorNat(a / 2, b / 2) && p % 2 == if a % 2 == b % 2 then 0 else 1;
      assert q / 2 == XorNat(b / 2, c / 2) && q % 2 == if b % 2 == c % 2 then 0 else 1;
    }
  }

  lemma {:induction false} XorNatSelf(a: nat)
    ensures XorNat(a, a) == 0
  {
    if a > 0 {
      XorNatSelf(a / 2);
    }
  }

  /** Exclusive or of two bytes, as every checksum of the repository computes it. */
  function Xor(a: byte, b: byte): byte
  {
    assert Power2(8) == 256 by { assert Power2(4) == 16; }
    XorNatBound(a, b, 8);
    XorNat(a, b)
  }

  lemma XorCancels(a: byte, b: byte)
    ensures Xor(Xor(a, b), b) == a
    ensures Xor(a, b) == Xor(b, a)
  {
    XorNatAssociates(a, b, b);
    XorNatSelf(b);
    XorNatZero(a);
    XorNatCommutes(a, b);
  }

  lemma XorAssociates(a: byte, b: byte, c: byte)
    ensures Xor(Xor(a, b), c) == Xor(a, Xor(b, c))
  {
    XorNatAssociates(a, b, c);
  }

  lemma XorZero(a: byte)
    ensures Xor(0, a) == a == Xor(a, 0)
  {
    XorNatZero(a);
    XorNatCommutes(a, 0);
  }

  /** Folding the bytes of `s` into an accumulator, left to right. */
  function XorFold(acc: byte, s: seq<byte>): byte
    decreases |s|
  {
    if s == [] then acc else XorFold(Xor(acc, s[0]), s[1..])
  }

  lemma {:induction false} XorFoldAppend(acc: byte, s: seq<byte>, t: seq<byte>)
    ensures XorFold(acc, s + t) == XorFold(XorFold(acc, s), t)
    decreases |s|
  {
    if s == [] {
      assert s + t == t;
    } else {
      assert (s + t)[1..] == s[1..] + t;
      XorFoldAppend(Xor(acc, s[0]), s[1..], t);
    }
  }

  /** The accumulator only shifts the result: folding is a sum in the group of bytes under exclusive or. */
  lemma {:induction false} XorFoldShift(acc: byte, s: seq<byte>)
    ensures XorFold(acc, s) == Xor(acc, XorFold(0, s))
    decreases |s|
  {
    if s == [] {
      XorZero(acc);
    } else {
      XorFoldShift(Xor(acc, s[0]), s[1..]);
      XorZero(s[0]);
      XorFoldShift(s[0], s[1..]);
      XorAssociates(acc, s[0], XorFold(0, s[1..]));
    }
  }

  /** Changing one byte changes the fold, whatever the accumulator. */
  lemma {:induction false} XorFoldDetects(acc: byte, s: seq<byte>, k: nat, b: byte)
    requires k < |s| && b != s[k]
    ensures XorFold(acc, s[k := b]) != XorFold(acc, s)
  {
    var before, after := s[..k], s[k + 1..];
    assert s == before + [s[k]] + after && s[k := b] == before + [b] + after;
    XorFoldAppend(acc, before + [s[k]], after);
    XorFoldAppend(acc, before + [b], after);
    XorFoldAppend(acc, before, [s[k]]);
    XorFoldAppend(acc, before, [b]);
    var x := XorFold(acc, before);
    var p, q := Xor(x, s[k]), Xor(x, b);
    assert XorFold(x, [s[k]]) == p && XorFold(x, [b]) == q;
    XorCancels(s[k], x);
    XorCancels(b, x);
    assert p != q;
    XorFoldShift(p, after);
    XorFoldShift(q, after);
    XorCancels(p, XorFold(0, after));
    XorCancels(q, XorFold(0, after));
  }
}
