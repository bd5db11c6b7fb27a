/** Shift-and-add-3 conversion (double dabble) on packed decimal bytes, and the decimal printer built on it. */
module PutDecimal {
  import opened Bytes
  import opened SerialLines

  // ----- packed decimal numbers, two digits a byte, most significant byte first -----

  predicate IsPacked(a: byte)
  {
    a / 16 <= 9 && a % 16 <= 9
  }

  function Pair(a: byte): nat
  {
    10 * (a / 16) + a % 16
  }

  predicate AllPacked(s: seq<byte>)
  {
    forall i :: 0 <= i < |s| ==> IsPacked(s[i])
  }

  function Number(s: seq<byte>): nat
  {
    if s == [] then 0 else 100 * Number(s[..|s| - 1]) + Pair(s[|s| - 1])
  }

  function Hundred(n: nat): nat
  {
    if n == 0 then 1 else 100 * Hundred(n - 1)
  }

  function Add3Low(a: byte): byte
  {
    if a % 16 < 5 then a else (a + 0x03) % 256
  }

  function Add3High(a: byte): byte
  {
    if a / 16 * 16 < 0x50 then a else (a + 0x30) % 256
  }

  /** The add-3 pass over one byte: low nibble first, then the high nibble of the result. */
  function Add3(a: byte): byte
  {
    Add3High(Add3Low(a))
  }

  function Rol(a: byte, carry: nat): byte
  {
    (2 * a + (if carry == 0 then 0 else 1)) % 256
  }

  function Three(d: nat): nat
  {
    if d < 5 then d else d + 3
  }

  /** In a byte of two decimal digits no nibble of the add-3 pass carries into its neighbour. */
  lemma Add3IsPerNibble(a: byte)
    requires IsPacked(a)
    ensures Add3(a) == 16 * Three(a / 16) + Three(a % 16)
    ensures Add3(a) / 16 == Three(a / 16) && Add3(a) % 16 == Three(a % 16)
  {
    var h, l := a / 16, a % 16;
    Split16(16 * h + Three(l), h, Three(l));
    Split16(16 * Three(h) + Three(l), Three(h), Three(l));
    assert a == 16 * h + l && Add3Low(a) == 16 * h + Three(l);
  }

  lemma RolNibbles(h: nat, l: nat, carry: nat)
    requires h < 16 && l < 16 && carry <= 1
    ensures Rol(16 * h + l, carry)
         == 16 * ((if h < 8 then 2 * h else 2 * h - 16) + (if l < 8 then 0 else 1))
            + (if l < 8 then 2 * l else 2 * l - 16) + carry
    ensures (16 * h + l) / 128 == if h < 8 then 0 else 1
  {
    var a := 16 * h + l;
    if h < 8 {
      Split256(2 * a + carry, 0, 2 * a + carry);
    } else {
      Split256(2 * a + carry, 1, 2 * a + carry - 256);
    }
  }

  /** Three more before a doubling is ten less behind it, with a carry. */
  lemma ThreeDoubles(d: nat)
    requires d <= 9
    ensures var t := Three(d); var up := if t < 8 then 0 else 1;
      0 <= 2 * t - 16 * up <= 8 && 2 * t - 6 * up == 2 * d
  {
  }

  /** The shift that follows doubles the pair; the carry is worth a hundred. */
  lemma Add3ThenShift(a: byte, carry: nat)
    requires IsPacked(a) && carry <= 1
    ensures IsPacked(Rol(Add3(a), carry))
    ensures Pair(Rol(Add3(a), carry)) + 100 * (Add3(a) / 128) == 2 * Pair(a) + carry
  {
    Add3IsPerNibble(a);
    var h, l := Three(a / 16), Three(a % 16);
    ThreeDoubles(a / 16);
    ThreeDoubles(a % 16);
    RolNibbles(h, l, carry);
    var up, down := (if h < 8 then 0 else 1), (if l < 8 then 0 else 1);
    var h', l' := 2 * h - 16 * up + down, 2 * l - 16 * down + carry;
    PairOf(Rol(Add3(a), carry), h', l');
  }

  lemma PairOf(a: byte, h: nat, l: nat)
    requires a == 16 * h + l && h <= 9 && l <= 9
    ensures IsPacked(a) && Pair(a) == 10 * h + l
  {
    Split16(a, h, l);
  }

  /** The whole register shifted left through its bytes, from the last to the first. */
  function Shifted(s: seq<byte>, carry: nat): (r: seq<byte>)
    ensures |r| == |s|
  {
    if s == [] then []
    else Shifted(s[..|s| - 1], s[|s| - 1] / 128) + [Rol(s[|s| - 1], carry)]
  }

  function Adjusted(s: seq<byte>): (r: seq<byte>)
    ensures |r| == |s| && forall i :: 0 <= i < |s| ==> r[i] == Add3(s[i])
  {
    seq(|s|, i requires 0 <= i < |s| => Add3(s[i]))
  }

  function CarryOut(s: seq<byte>, carry: nat): nat
  {
    if s == [] then carry else Add3(s[0]) / 128
  }

  /** One round on a register of any width: it stays decimal, and its number is doubled and takes in the bit. */
  lemma {:induction false} RoundDoubles(s: seq<byte>, carry: nat)
    requires AllPacked(s) && carry <= 1
    ensures AllPacked(Shifted(Adjusted(s), carry))
    ensures Number(Shifted(Adjusted(s), carry)) + (if CarryOut(s, carry) == 0 then 0 else Hundred(|s|))
         == 2 * Number(s) + carry
    decreases |s|
  {
    if s != [] {
      var n := |s| - 1;
      var init, last := s[..n], s[n];
      Add3ThenShift(last, carry);
      assert Adjusted(s)[..n] == Adjusted(init);
      var c := Add3(last) / 128;
      RoundDoubles(init, c);
      var r := Shifted(Adjusted(init), c);
      assert Shifted(Adjusted(s), carry) == r + [Rol(Add3(last), carry)];
      assert (r + [Rol(Add3(last), carry)])[..n] == r;
    }
  }

  // ----- any number of shifts -----

  function BitsValue(bits: seq<bool>): nat
  {
    if bits == [] then 0 else 2 * BitsValue(bits[..|bits| - 1]) + (if bits[|bits| - 1] then 1 else 0)
  }

  /** A zeroed register of `n` bytes after the bits have been shifted in. */
  function Dabbled(bits: seq<bool>, n: nat): (r: seq<byte>)
    ensures |r| == n
    decreases |bits|
  {
    if bits == [] then Copies<byte>(0, n)
    else Shifted(Adjusted(Dabbled(bits[..|bits| - 1], n)), if bits[|bits| - 1] then 1 else 0)
  }

  lemma {:induction false} ZerosAreZero(n: nat)
    ensures Number(Copies<byte>(0, n)) == 0
  {
    if n > 0 {
      assert Copies<byte>(0, n)[..n - 1] == Copies<byte>(0, n - 1);
      ZerosAreZero(n - 1);
    }
  }

  lemma {:induction false} NumberBound(s: seq<byte>)
    requires AllPacked(s)
    ensures Number(s) < Hundred(|s|)
    decreases |s|
  {
    if s != [] {
      NumberBound(s[..|s| - 1]);
    }
  }

  /** Double dabble for any number of shifts: as long as the digits suffice, the register is decimal and
      denotes the bits that have gone in. */
  lemma {:induction false} DabbleIsExact(bits: seq<bool>, n: nat)
    requires BitsValue(bits) < Hundred(n)
    ensures AllPacked(Dabbled(bits, n)) && Number(Dabbled(bits, n)) == BitsValue(bits)
    decreases |bits|
  {
    if bits == [] {
      ZerosAreZero(n);
    } else {
      var init, c := bits[..|bits| - 1], if bits[|bits| - 1] then 1 else 0;
      DabbleIsExact(init, n);
      RoundDoubles(Dabbled(init, n), c);
    }
  }

  /** The `w` low bits of `d`, the highest first: the order in which the shifts take them in. */
  function Bits(d: nat, w: nat): (bits: seq<bool>)
    ensures |bits| == w
    decreases w
  {
    if w == 0 then [] else Bits(d / 2, w - 1) + [d % 2 == 1]
  }

  lemma {:induction false} BitsDenote(d: nat, w: nat)
    requires d < Power2(w)
    ensures BitsValue(Bits(d, w)) == d
    decreases w
  {
    if w > 0 {
      BitsDenote(d / 2, w - 1);
      assert Bits(d, w)[..w - 1] == Bits(d / 2, w - 1);
    }
  }

  /** `d` without its `n` low bits. */
  function Halved(d: nat, n: nat): nat
    decreases n
  {
    if n == 0 then d else Halved(d / 2, n - 1)
  }

  lemma {:induction false} TopBitsOf(d: nat, w: nat, k: nat)
    requires k <= w && d < Power2(w)
    ensures Bits(d, w)[..k] == Bits(Halved(d, w - k), k) && Halved(d, w - k) < Power2(k)
    decreases w
  {
    if k < w {
      TopBitsOf(d / 2, w - 1, k);
      assert Bits(d, w)[..k] == Bits(d / 2, w - 1)[..k];
    } else {
      assert Bits(d, w)[..k] == Bits(d, w);
    }
  }

  lemma {:induction false} HalvedDivides(d: nat, n: nat)
    ensures Power2(n) > 0 && Halved(d, n) * Power2(n) <= d < (Halved(d, n) + 1) * Power2(n)
    decreases n
  {
    if n > 0 {
      HalvedDivides(d / 2, n - 1);
      var h, p := Halved(d / 2, n - 1), Power2(n - 1);
      Redouble(h, p);
      Redouble(h + 1, p);
      HalfBetween(d, h * p, (h + 1) * p);
    }
  }

  lemma HalfBetween(d: nat, x: nat, y: nat)
    requires x <= d / 2 < y
    ensures 2 * x <= d < 2 * y
  {
  }

  /** After `k` shifts of a `w`-bit number, with enough digits, the register is decimal and denotes its top
      `k` bits. */
  lemma DabbledTopBits(d: nat, w: nat, k: nat, n: nat)
    requires k <= w && d < Power2(w) && Halved(d, w - k) < Hundred(n)
    ensures var r := Dabbled(Bits(d, w)[..k], n); AllPacked(r) && Number(r) == Halved(d, w - k)
  {
    TopBitsOf(d, w, k);
    BitsDenote(Halved(d, w - k), k);
    DabbleIsExact(Bits(d, w)[..k], n);
  }

  /** A packed number has one spelling at a given width. */
  lemma {:induction false} PackedIsUnique(s: seq<byte>, t: seq<byte>)
    requires AllPacked(s) && AllPacked(t) && |s| == |t| && Number(s) == Number(t)
    ensures s == t
    decreases |s|
  {
    if s != [] {
      var n := |s| - 1;
      assert Pair(s[n]) == Pair(t[n]) && Number(s[..n]) == Number(t[..n]) && s[n] == t[n] by {
        LastPair(Number(s[..n]), s[n], Number(t[..n]), t[n]);
      }
      PackedIsUnique(s[..n], t[..n]);
      assert s == s[..n] + [s[n]] && t == t[..n] + [t[n]];
    }
  }

  lemma LastPair(x: nat, a: byte, y: nat, b: byte)
    requires IsPacked(a) && IsPacked(b) && 100 * x + Pair(a) == 100 * y + Pair(b)
    ensures x == y && a == b
  {
    assert Pair(a) < 100 && Pair(b) < 100;
    assert a == 16 * (a / 16) + a % 16 && b == 16 * (b / 16) + b % 16;
  }

  // ----- numerals -----

  function Digit(d: nat): byte
    requires d <= 9
  {
    0x30 + d
  }

  /** The decimal numeral of `n`. */
  function Numeral(n: nat): (s: seq<byte>)
    ensures s != []
  {
    if n < 10 then [Digit(n)] else Numeral(n / 10) + [Digit(n % 10)]
  }

  function Parsed(s: seq<byte>): int
  {
    if s == [] then 0 else 10 * Parsed(s[..|s| - 1]) + (s[|s| - 1] as int) - 0x30
  }

  /** A numeral parses back, and only that of 0 starts with a zero. */
  lemma {:induction false} NumeralParses(n: nat)
    ensures Parsed(Numeral(n)) == n
    ensures n != 0 ==> Numeral(n)[0] != Digit(0)
  {
    if n < 10 {
      assert Numeral(n)[..0] == [];
    } else {
      NumeralParses(n / 10);
      assert Numeral(n)[..|Numeral(n)| - 1] == Numeral(n / 10);
    }
  }

  predicate AllDigits(ds: seq<nat>)
  {
    forall i :: 0 <= i < |ds| ==> ds[i] <= 9
  }

  function DigitsValue(ds: seq<nat>): nat
  {
    if ds == [] then 0 else 10 * DigitsValue(ds[..|ds| - 1]) + ds[|ds| - 1]
  }

  function Spelled(ds: seq<nat>): (s: seq<byte>)
    requires AllDigits(ds)
    ensures |s| == |ds| && forall i :: 0 <= i < |ds| ==> s[i] == Digit(ds[i])
  {
    seq(|ds|, i requires 0 <= i < |ds| => Digit(ds[i]))
  }

  lemma {:induction false} SpelledIsNumeral(ds: seq<nat>)
    requires AllDigits(ds) && ds != [] && (|ds| == 1 || ds[0] != 0)
    ensures Spelled(ds) == Numeral(DigitsValue(ds))
    ensures ds[0] != 0 ==> DigitsValue(ds) > 0
    decreases |ds|
  {
    var n := |ds| - 1;
    if n == 0 {
      assert ds[..0] == [];
    } else {
      SpelledIsNumeral(ds[..n]);
      assert Spelled(ds) == Spelled(ds[..n]) + [Digit(ds[n])];
    }
  }

  lemma {:induction false} LeadingZero(ds: seq<nat>)
    ensures DigitsValue([0] + ds) == DigitsValue(ds)
    decreases |ds|
  {
    if ds == [] {
      assert ([0] + ds)[..0] == [];
    } else {
      assert ([0] + ds)[..|ds|] == [0] + ds[..|ds| - 1];
      LeadingZero(ds[..|ds| - 1]);
    }
  }

  /** What is printed of the digits: zeros are left out until a digit has been printed; the last one never. */
  function Suppressed(ds: seq<nat>, started: bool): seq<byte>
    requires AllDigits(ds)
  {
    if |ds| <= 1 || started || ds[0] != 0 then Spelled(ds) else Suppressed(ds[1..], false)
  }

  lemma {:induction false} SuppressedIsNumeral(ds: seq<nat>)
    requires AllDigits(ds) && ds != []
    ensures Suppressed(ds, false) == Numeral(DigitsValue(ds))
    decreases |ds|
  {
    if |ds| == 1 || ds[0] != 0 {
      SpelledIsNumeral(ds);
    } else {
      assert ds == [0] + ds[1..];
      LeadingZero(ds[1..]);
      SuppressedIsNumeral(ds[1..]);
    }
  }

  // ----- the assembly -----

  /** The add-3 pass over the shift register: the first byte holds one digit, the next two hold two each. */
  method AddThrees(r: array<byte>)
    requires r.Length == 5 && r[0] <= 9 && AllPacked(r[..3])
    modifies r
    ensures r[..3] == Adjusted(old(r[..3])) && r[3..] == old(r[3..])
  {
    assert AllPacked(r[..3]) ==> IsPacked(r[..3][0]) && IsPacked(r[..3][1]) && IsPacked(r[..3][2]);
    Add3ThenShift(r[0], 0);
    r[0] := Add3Low(r[0]);
    var a := Add3Low(r[1]);
    r[1] := Add3High(a);
    a := Add3Low(r[2]);
    r[2] := Add3High(a);
  }

  /** ASL 4,S and then ROL from 3,S down to ,S. */
  method ShiftRegister(r: array<byte>)
    requires r.Length == 5
    modifies r
    ensures r[..3] == Shifted(old(r[..3]), old(r[3]) / 128)
    ensures r[3] == Rol(old(r[3]), old(r[4]) / 128) && r[4] == Rol(old(r[4]), 0)
  {
    ghost var s := r[..3];
    assert s[..2][..1] == s[..1] && s[..1][..0] == [] && s[..2][1] == s[1];
    ghost var c3, c2, c1 := r[3] / 128, r[2] / 128, r[1] / 128;
    assert Shifted(s[..1], c1) == [Rol(s[0], c1)];
    assert Shifted(s[..2], c2) == [Rol(s[0], c1), Rol(s[1], c2)];
    var carry := r[4] / 128;
    r[4] := Rol(r[4], 0);
    var next := r[3] / 128;
    r[3] := Rol(r[3], carry);
    carry, next := next, r[2] / 128;
    r[2] := Rol(r[2], carry);
    carry, next := next, r[1] / 128;
    r[1] := Rol(r[1], carry);
    r[0] := Rol(r[0], next);
  }

  function Binary(h: byte, l: byte): nat
  {
    var high: nat := h;
    256 * high + l
  }

  lemma BinaryDoubles(h: byte, l: byte)
    ensures Binary(Rol(h, l / 128), Rol(l, 0)) + 65536 * (h / 128) == 2 * Binary(h, l)
  {
    Split256(2 * l, l / 128, 2 * l - 256 * (l / 128));
    Split256(2 * h + l / 128, h / 128, 2 * h + l / 128 - 256 * (h / 128));
  }

  lemma NumberOfThree(s: seq<byte>)
    requires |s| == 3
    ensures Number(s) == 10000 * Pair(s[0]) + 100 * Pair(s[1]) + Pair(s[2])
    ensures Hundred(3) == 1000000
  {
    assert s[..2][..1] == s[..1] && s[..1][..0] == [];
    assert Number(s[..1]) == Pair(s[0]);
    assert Number(s[..2]) == 100 * Pair(s[0]) + Pair(s[1]);
    assert Hundred(1) == 100 && Hundred(2) == 10000;
  }

  lemma TimesGrows(d: nat, p: nat, q: nat)
    requires p <= q
    ensures d * p <= d * q
  {
  }

  /** The decimal part `v` and the binary part `m` after `k` rounds: `v` is the top `k` bits of `d`. */
  lemma TopBits(v: nat, m: nat, d: nat, k: nat)
    requires v * 65536 + m == d * Power2(k) && m < 65536 && d < 65536 && k <= 16
    ensures v == d * Power2(k) / 65536 && v < 65536
    ensures k == 16 ==> v == d
  {
    SixteenBits(k);
    TimesGrows(d, Power2(k), 65536);
    var x := d * Power2(k);
    assert v * 65536 + m == x <= d * 65536;
  }

  lemma SixteenBits(k: nat)
    requires k <= 16
    ensures Power2(k) <= 65536 && (k == 16 ==> Power2(k) == 65536)
  {
    assert Power2(4) == 16;
    assert Power2(8) == 256 by { assert Power2(6) == 64; }
    assert Power2(12) == 4096 by { assert Power2(10) == 1024; }
    assert Power2(16) == 65536 by { assert Power2(14) == 16384; }
    PowerGrows(k, 16);
  }

  lemma {:induction false} PowerGrows(j: nat, k: nat)
    requires j <= k
    ensures Power2(j) <= Power2(k)
    decreases k
  {
    if j < k {
      PowerGrows(j, k - 1);
    }
  }

  lemma AllBitsIn(d: nat, s: seq<byte>)
    requires d < 65536 == Power2(16) && |s| == 3 && AllPacked(s) && Number(s) == d
    ensures s == Dabbled(Bits(d, 16), 3)
  {
    NumberOfThree(s);
    assert Bits(d, 16)[..16] == Bits(d, 16);
    DabbledTopBits(d, 16, 16, 3);
    PackedIsUnique(s, Dabbled(Bits(d, 16), 3));
  }

  lemma StartOfRounds(s: seq<byte>, d: nat)
    requires s == [0, 0, 0] && d < 65536
    ensures Rounded(s, d / 256, d % 256, d, 0)
  {
    NumberOfThree(s);
  }

  lemma EndOfRounds(s: seq<byte>, h: byte, l: byte, d: nat, k: nat)
    requires Rounded(s, h, l, d, k) && d < 65536 && k == 16
    ensures AllPacked(s) && s[0] <= 9 && Number(s) == d
    ensures s == Dabbled(Bits(d, 16), 3)
  {
    TopBits(Number(s), Binary(h, l), d, k);
    SixteenBits(k);
    AllBitsIn(d, s);
  }

  /** The sixteen rounds. */
  method Convert(d: nat, r: array<byte>)
    requires d < 65536 && r.Length == 5
    modifies r
    ensures AllPacked(r[..3]) && r[0] <= 9 && Number(r[..3]) == d
    ensures r[..3] == Dabbled(Bits(d, 16), 3)
  {
    r[3], r[4], r[2], r[1], r[0] := d / 256, d % 256, 0, 0, 0;
    StartOfRounds(r[..3], d);
    var x, k := 16, 0;
    while true
      invariant x == 16 - k && k < 16
      invariant Rounded(r[..3], r[3], r[4], d, k)
      decreases x
    {
      ghost var s, h, l := r[..3], r[3], r[4];
      AddThrees(r);
      ShiftRegister(r);
      RoundOnRegister(s, h, l, d, k);
      x, k := x - 1, k + 1;
      if x == 0 {
        EndOfRounds(r[..3], r[3], r[4], d, k);
        return;
      }
    }
  }

  lemma Redouble(d: nat, p: nat)
    ensures d * (2 * p) == 2 * (d * p)
  {
  }

  lemma OneDigitHasNoCarry(a: byte)
    requires a <= 9
    ensures IsPacked(a) && Add3(a) / 128 == 0
  {
    Add3IsPerNibble(a);
  }

  lemma RoundSums(n: nat, m: nat, q: nat, b: nat, n': nat, m': nat)
    requires n * 65536 + m == q && n' == 2 * n + b && m' + 65536 * b == 2 * m
    ensures n' * 65536 + m' == 2 * q
  {
  }

  lemma SmallNumber(s: seq<byte>)
    requires |s| == 3 && AllPacked(s) && Number(s) < 100000
    ensures s[0] <= 9
  {
    NumberOfThree(s);
  }

  /** The register after `k` rounds: what has gone into its decimal part and what is left of D. */
  ghost predicate Rounded(s: seq<byte>, h: byte, l: byte, d: nat, k: nat)
  {
    |s| == 3 && AllPacked(s) && s[0] <= 9 && Number(s) * 65536 + Binary(h, l) == d * Power2(k)
  }

  /** One round keeps the register's meaning: decimal part and binary part together are `d` shifted by `k`. */
  lemma RoundOnRegister(s: seq<byte>, h: byte, l: byte, d: nat, k: nat)
    requires Rounded(s, h, l, d, k) && d < 65536 && k < 16
    ensures Rounded(Shifted(Adjusted(s), h / 128), Rol(h, l / 128), Rol(l, 0), d, k + 1)
  {
    var r, m := Shifted(Adjusted(s), h / 128), Binary(Rol(h, l / 128), Rol(l, 0));
    assert AllPacked(r) && Number(r) == 2 * Number(s) + h / 128 by {
      RoundDoubles(s, h / 128);
      OneDigitHasNoCarry(s[0]);
    }
    assert Number(r) * 65536 + m == d * Power2(k + 1) by {
      BinaryDoubles(h, l);
      RoundSums(Number(s), Binary(h, l), d * Power2(k), h / 128, Number(r), m);
      Redouble(d, Power2(k));
    }
    TopBits(Number(r), m, d, k + 1);
    SmallNumber(r);
  }

  /** PD_DIG on the first of the digits `ds`: a zero is left out before the first digit printed. */
  method PrintDigit(line: Line, a: nat, started: bool, ghost ds: seq<nat>) returns (started': bool)
    requires AllDigits(ds) && |ds| > 1 && ds[0] == a
    modifies line`output
    ensures line.output + Suppressed(ds[1..], started') == old(line.output) + Suppressed(ds, started)
  {
    started' := started;
    assert Spelled(ds) == [Digit(ds[0])] + Spelled(ds[1..]);
    if a != 0 || started {
      line.TxByte(Digit(a));
      started' := true;
    }
  }

  lemma FiveDigits(a: nat, b: nat, c: nat, d: nat, e: nat)
    ensures DigitsValue([a, b, c, d, e]) == 10000 * a + 1000 * b + 100 * c + 10 * d + e
  {
    var ds := [a, b, c, d, e];
    assert ds[..4] == [a, b, c, d] && ds[..4][..3] == [a, b, c] && [a, b, c][..2] == [a, b] && [a, b][..1] == [a];
    assert [a][..0] == [];
    assert DigitsValue([a]) == a;
    assert DigitsValue([a, b]) == 10 * a + b;
    assert DigitsValue([a, b, c]) == 100 * a + 10 * b + c;
    assert DigitsValue([a, b, c, d]) == 1000 * a + 100 * b + 10 * c + d;
  }

  /** The five digits of three bytes, the first of which holds one. */
  function DigitsOf(s: seq<byte>): seq<nat>
    requires |s| == 3
  {
    [s[0] % 16, s[1] / 16, s[1] % 16, s[2] / 16, s[2] % 16]
  }

  lemma FiveDigitsOf(s: seq<byte>)
    requires |s| == 3 && AllPacked(s) && s[0] <= 9
    ensures AllDigits(DigitsOf(s)) && DigitsValue(DigitsOf(s)) == Number(s)
  {
    assert IsPacked(s[1]) && IsPacked(s[2]);
    Split16(s[0], 0, s[0]);
    assert Number(s) == 10000 * (s[0] % 16) + 100 * Pair(s[1]) + Pair(s[2]) by {
      NumberOfThree(s);
    }
    FiveDigits(s[0] % 16, s[1] / 16, s[1] % 16, s[2] / 16, s[2] % 16);
  }

  method PrintRegister(line: Line, r: array<byte>)
    requires r.Length == 5 && AllPacked(r[..3]) && r[0] <= 9
    modifies line`output
    ensures line.output == old(line.output) + Numeral(Number(r[..3]))
  {
    ghost var ds := DigitsOf(r[..3]);
    FiveDigitsOf(r[..3]);
    SuppressedIsNumeral(ds);
    assert r[..3][1] == r[1] && r[..3][2] == r[2];
    var b := PrintDigit(line, r[0] % 16, false, ds);
    b := PrintDigit(line, r[1] / 16, b, ds[1..]);
    assert ds[1..][1..] == ds[2..];
    b := PrintDigit(line, r[1] % 16, b, ds[2..]);
    assert ds[2..][1..] == ds[3..];
    b := PrintDigit(line, r[2] / 16, b, ds[3..]);
    assert ds[3..][1..] == [ds[4]];
    line.TxByte(Digit(r[2] % 16));
  }

  /** PUTDECD: what is printed is the numeral of D. */
  method PutDecD(line: Line, d: nat)
    requires d < 65536
    modifies line`output
    ensures line.output == old(line.output) + Numeral(d)
  {
    var r := new byte[5];
    Convert(d, r);
    PrintRegister(line, r);
  }
}
