/**
 * The octets of the other encodings (`messages/ber.c`, `messages/acn.c`, `messages/real.c`), digit by digit: bits and
 * octets are given by divisions and remainders of the numbers they belong to.
 */
module Layouts {
  import opened Bits
  import opened Bytes
  import opened Per
  import opened Words
  import opened Wire
  import opened Ber
  import opened Acn
  import opened Decimals
  import opened Reals

  // ---------------------------------------------------------------- bits

  lemma ShrIsDiv(v: nat, k: nat)
    ensures Shr(v, k) == v / Pow2(k)
  {
    hide Shr, Pow2;
    ShrBounds(v, k);
    DivIs(v, Pow2(k), Shr(v, k));
  }

  /** Bit `j` of a field of `w` bits: the most significant one comes first. */
  lemma FieldBit(v: nat, w: nat, j: nat)
    requires j < w
    ensures FromNat(v, w)[j] <==> (v / Pow2(w - 1 - j)) % 2 == 1
  {
    var k := w - 1 - j;
    FromNatSplit(v, j + 1, k);
    ShrIsDiv(v, k);
    assert FromNat(Shr(v, k), j + 1)[j] == (Shr(v, k) % 2 == 1);
  }

  /** Bit `k` of octet `j` of an octet string, again the most significant one first. */
  lemma OctetBit(s: seq<byte>, j: nat, k: nat)
    requires j < |s| && k < 8
    ensures Unpack(s)[8 * j + k] <==> (s[j] as int / Pow2(7 - k)) % 2 == 1
  {
    hide Unpack, Bit, FromNat, ToNat, Pow2;
    UnpackAt(s, j, k);
    ByteValIs(s[j]);
    FromNatToNat(ByteBits(s[j]));
    FieldBit(ByteVal(s[j]), 8, k);
  }

  // ---------------------------------------------------------------- packed encoding rules

  /** A constrained number is its distance from the minimum, in the least number of bits that holds the greatest. */
  lemma ConstrainedLayout(v: int, min: int, max: int) returns (w: nat)
    requires min <= v <= max
    ensures max - min < Pow2(w) && (w > 0 ==> Pow2(w - 1) <= max - min)
    ensures var e := ConstrainedBits(v, min, max);
            |e| == w && forall j :: 0 <= j < w ==> (e[j] <==> ((v - min) / Pow2(w - 1 - j)) % 2 == 1)
  {
    w := NumBits(max - min);
    NumBitsBounds(max - min);
    var e := ConstrainedBits(v, min, max);
    forall j | 0 <= j < w ensures e[j] <==> ((v - min) / Pow2(w - 1 - j)) % 2 == 1 {
      FieldBit(v - min, w, j);
    }
  }

  /** A semi-constrained number is the least number of octets that holds that distance, and these octets. */
  lemma SemiConstrainedLayout(v: int, min: int) returns (n: nat)
    requires min <= v
    ensures n >= 1 && v - min < Pow2(8 * n) && (n > 1 ==> Pow2(8 * (n - 1)) <= v - min)
    ensures SemiConstrainedBits(v, min) == FromNat(n, 8) + FromNat(v - min, 8 * n)
  {
    hide FromNat, UnsignedOctets, Pow2;
    n := UnsignedOctets(v - min);
    UnsignedOctetsLeast(v - min, n);
    if n > 1 { UnsignedOctetsLeast(v - min, n - 1); }
  }

  // ---------------------------------------------------------------- basic encoding rules

  lemma {:induction false} BigEndianPacked(u: nat, n: nat)
    ensures BigEndian(u, n) == TwosPacked(u, n)
  {
    hide ByteOf, TwosPacked;
    if n > 0 {
      var m := n - 1;
      BigEndianPacked(u / 0x100, m);
      LastOctet(u, m);
    } else {
      assert TwosPacked(u, 0) == [];
    }
  }

  lemma LastOctet(u: nat, m: nat)
    ensures TwosPacked(u, m + 1) == TwosPacked(u / 0x100, m) + [ByteOf(u)]
  {
    PackedIs(u, m + 1);
    PackedIs(u / 0x100, m);
    hide *;
    TwosShift(u, m);
    Eights(m);
    PackConcat(TwosBits(u / 0x100, 8 * m), FromNat(u % 0x100, 8));
    PackOne(u % 0x100);
    SameLow(u);
    assert 8 * (m + 1) == 8 * m + 8;
  }

  lemma SameLow(u: nat)
    ensures ByteOf(u % 0x100) == ByteOf(u)
  {
    hide FromNat, OfBits;
    Wire.LowOctet(u);
  }

  lemma BigEndianOctet(u: nat, n: nat, j: nat)
    requires 1 <= j <= n
    ensures BigEndian(u, n)[j - 1] as int == (u / Pow2(8 * (n - j))) % 0x100
  {
    hide *;
    BigEndianPacked(u, n);
    TwosOctet(u, n, j);
  }

  /** A length up to 127 is one octet; a longer one is 128 plus the number of its octets, and these, big endian. */
  lemma LengthLayout(n: nat) returns (k: nat)
    requires n < 0x8000_0000
    ensures var o := LengthOctets(n);
            if n < 128 then k == 0 && |o| == 1 && o[0] as int == n
            else
              && 1 <= k <= 4 && |o| == k + 1 && o[0] as int == 128 + k && Pow2(8 * (k - 1)) <= n < Pow2(8 * k)
              && forall j :: 1 <= j <= k ==> o[j] as int == (n / Pow2(8 * (k - j))) % 0x100
  {
    k := 0;
    if n < 128 {
      hide ByteOf;
      SmallOctet(n);
    } else {
      k := UnsignedOctets(n);
      var o, c := LengthOctets(n), BigEndian(n, k);
      LengthCount(n);
      LeastOctets(n, k);
      assert o == [ByteOf(0x80 + k)] + c;
      hide *;
      SmallOctet(0x80 + k);
      forall j | 1 <= j <= k ensures o[j] as int == (n / Pow2(8 * (k - j))) % 0x100 {
        BigEndianOctet(n, k, j);
        assert o[j] == c[j - 1];
      }
    }
  }

  lemma LeastOctets(n: nat, k: nat)
    requires n >= 128 && k == UnsignedOctets(n)
    ensures Pow2(8 * (k - 1)) <= n < Pow2(8 * k)
  {
    hide UnsignedOctets, Pow2;
    UnsignedOctetsLeast(n, k);
    if k > 1 { UnsignedOctetsLeast(n, k - 1); } else { PowZero(); }
  }

  lemma PowZero()
    ensures Pow2(0) == 1
  {
  }

  /** An integer with a one-octet tag: the tag, the number of content octets, the value in two's complement. */
  lemma IntegerLayout(tag: nat, v: sint64) returns (n: nat)
    requires 0 < tag < 0x100
    ensures n <= 8 && FewestOctets(v, n)
    ensures var o := IntegerOctets(tag, v);
            && |o| == n + 2 && o[0] as int == tag && o[1] as int == n
            && forall j :: 2 <= j <= n + 1 ==> o[j] as int == (v / Pow2(8 * (n + 1 - j))) % 0x100
  {
    n := SignedOctets(v);
    AtMostEight(v);
    Fewest(v);
    IntegerPlaces(tag, v, n);
    hide *;
    SmallOctet(tag);
    SmallOctet(n);
    var o := IntegerOctets(tag, v);
    forall j | 2 <= j <= n + 1 ensures o[j] as int == (v / Pow2(8 * (n + 1 - j))) % 0x100 {
      TwosOctet(v, n, j - 1);
    }
  }

  lemma IntegerPlaces(tag: nat, v: sint64, n: nat)
    requires 0 < tag < 0x100 && n == SignedOctets(v)
    ensures var o := IntegerOctets(tag, v);
            && |o| == n + 2 && o[0] == ByteOf(tag) && o[1] == ByteOf(n)
            && forall j :: 2 <= j <= n + 1 ==> o[j] == TwosPacked(v, n)[j - 2]
  {
    hide *;
    IntegerParts(tag, v, n);
    BehindTwo(ByteOf(tag), ByteOf(n), TwosPacked(v, n));
  }

  lemma BehindTwo(a: byte, b: byte, t: seq<byte>)
    ensures var o := [a] + [b] + t;
            |o| == 2 + |t| && o[0] == a && o[1] == b && forall j :: 2 <= j < |o| ==> o[j] == t[j - 2]
  {
  }

  lemma IntegerParts(tag: nat, v: sint64, n: nat)
    requires 0 < tag < 0x100 && n == SignedOctets(v)
    ensures IntegerOctets(tag, v) == [ByteOf(tag)] + [ByteOf(n)] + TwosPacked(v, n)
  {
    hide ByteOf, SignedOctets, TwosPacked, Unsigned64, FitsTwos, TwosBits, FromNat;
    AtMostEight(v);
    SignedOctetsLeast(v, n);
    BigEndianPacked(Unsigned64(v), n);
    LowBits(v, 8 * n);
    PackedIs(v, n);
    PackedIs(Unsigned64(v), n);
    OneTag(tag);
    NotNegative(Unsigned64(v), 8 * n);
  }

  lemma NotNegative(u: nat, w: nat)
    ensures TwosBits(u, w) == FromNat(u, w)
  {
  }

  lemma OneTag(tag: nat)
    requires 0 < tag < 0x100
    ensures TagOctets(tag) == [ByteOf(tag)]
  {
    assert BigEndian(tag, 1) == BigEndian(tag / 0x100, 0) + [ByteOf(tag)];
  }

  /** An octet string: tag, length, octets. A bit string has the number of unused bits of its last octet before them. */
  lemma StringLayout(tag: nat, value: seq<byte>, bitCount: nat)
    requires 0 < tag < 0x100
    ensures var o, l := OctetStringOctets(tag, value), LengthOctets(|value|);
            |o| == 1 + |l| + |value| && o[0] as int == tag && o[1..1 + |l|] == l && o[1 + |l|..] == value
    ensures (bitCount + 7) / 8 <= |value| ==>
              var n := (bitCount + 7) / 8;
              var o, l := BitStringOctets(tag, value, bitCount), LengthOctets(n + 1);
              && |o| == 2 + |l| + n && o[0] as int == tag && o[1..1 + |l|] == l
              && o[1 + |l|] as int == 8 * n - bitCount && o[2 + |l|..] == value[..n]
  {
    hide LengthOctets, ByteOf, TagOctets;
    OneTag(tag);
    SmallOctet(tag);
    var n := (bitCount + 7) / 8;
    SmallOctet(8 * n - bitCount);
  }

  // ---------------------------------------------------------------- octet orders and digits

  /** Octet `j` in little-endian order: the number shifted right by `j` octets, modulo 256. */
  lemma {:induction false} LittleEndianOctet(u: nat, n: nat, j: nat)
    requires j < n
    ensures var from, to := 8 * j, 8 * j + 8;
            LittleEndianBits(u, n)[from..to] == FromNat((u / Pow2(8 * j)) % 0x100, 8)
  {
    hide FromNat, Shr, Pow2;
    var k, from, to := 8 * (n - 1), 8 * j, 8 * j + 8;
    if j == n - 1 {
      ShrIsDiv(u, k);
      Wire.LowOctet(Shr(u, k));
      SuffixOf(LittleEndianBits(u, n - 1), FromNat(Shr(u, k), 8));
    } else {
      LittleEndianOctet(u, n - 1, j);
      SliceOfPrefix(LittleEndianBits(u, n - 1), FromNat(Shr(u, k), 8), from, to);
    }
  }

  lemma DivTen(v: nat, i: nat)
    ensures Pow10(i) > 0 && Pow10(i + 1) > 0 && (v / 10) / Pow10(i) == v / Pow10(i + 1)
  {
    TensPositive(i);
    var p, u := Pow10(i), v / 10;
    var q := u / p;
    hide Pow10;
    assert Pow10(i + 1) == 10 * p by { TensNext(i); }
    assert p * q <= u < p * q + p;
    assert 10 * (p * q) <= v < 10 * (p * q) + 10 * p;
    assert (10 * p) * q == 10 * (p * q) by { MulAssoc(10, p, q); }
    DivIs(v, 10 * p, q);
  }

  lemma TensNext(i: nat)
    ensures Pow10(i + 1) == 10 * Pow10(i)
  {
  }

  lemma {:induction false} TensPositive(i: nat)
    ensures Pow10(i) > 0
  {
    if i > 0 { TensPositive(i - 1); }
  }

  lemma {:induction false} QuotIsDiv(v: nat, i: nat)
    ensures Pow10(i) > 0 && Quot(v, i) == v / Pow10(i)
  {
    hide Pow10;
    TensPositive(i);
    if i > 0 {
      QuotIsDiv(v / 10, i - 1);
      DivTen(v, i - 1);
    } else {
      assert Pow10(0) == 1 by { TensNone(); }
    }
  }

  lemma TensNone()
    ensures Pow10(0) == 1
  {
  }

  lemma {:induction false} DigitPlace(v: nat, n: nat, bcd: bool, j: nat, from: nat, to: nat)
    requires j < n && from == DigitWidth(bcd) * j && to == from + DigitWidth(bcd)
    ensures to <= |DecimalBits(v, n, bcd)|
    ensures DecimalBits(v, n, bcd)[from..to] == DigitBits(Quot(v, n - 1 - j) % 10, bcd)
    decreases n
  {
    hide DigitBits;
    var a, x := DecimalBits(v / 10, n - 1, bcd), DigitBits(v % 10, bcd);
    if j == n - 1 {
      SuffixOf(a, x);
    } else {
      DigitPlace(v / 10, n - 1, bcd, j, from, to);
      SliceOfPrefix(a, x, from, to);
    }
  }

  /** Digit `j` of a number of `n` digits, most significant first: a nibble, or the character of the digit. */
  lemma DecimalDigit(v: nat, n: nat, bcd: bool, j: nat)
    requires j < n
    ensures Pow10(n - 1 - j) > 0
    ensures var from, to := if bcd then 4 * j else 8 * j, if bcd then 4 * j + 4 else 8 * j + 8;
            var d := (v / Pow10(n - 1 - j)) % 10;
            && to <= |DecimalBits(v, n, bcd)|
            && DecimalBits(v, n, bcd)[from..to] == if bcd then FromNat(d, 4) else FromNat('0' as int + d, 8)
  {
    hide FromNat, Pow10, DecimalBits, Quot;
    QuotIsDiv(v, n - 1 - j);
    if bcd {
      DigitPlace(v, n, bcd, j, 4 * j, 4 * j + 4);
    } else {
      DigitPlace(v, n, bcd, j, 8 * j, 8 * j + 8);
    }
  }

  /** What stands around the digits: the sign character, the length octet, the terminator. */
  lemma DecimalFrame(v: sint64, size: nat, bcd: bool)
    requires !bcd ==> size > 0
    ensures var m: int := if v < 0 then 0 - v else v;
            && ConstSizeBits(v, size, true) == DecimalBits(m, size, true)
            && (size > 0 ==> ConstSizeBits(v, size, false) ==
                             FromNat((if v < 0 then '-' else '+') as int, 8) + DecimalBits(m, size - 1, false))
    ensures LengthEmbeddedBits(v, bcd) == FromNat(SizeOf(v, bcd), 8) + ConstSizeBits(v, SizeOf(v, bcd), bcd)
    ensures NullTerminatedBits(v, bcd) ==
            ConstSizeBits(v, SizeOf(v, bcd), bcd) + (if bcd then [true, true, true, true] else Zeros(8))
  {
    hide DecimalBits, NumDigits;
    FromZero(8);
    assert FromNat(0xF, 4) == [true, true, true, true];
    assert [] + DecimalBits(Magnitude(v), size, true) == DecimalBits(Magnitude(v), size, true);
  }

  // ---------------------------------------------------------------- binary REAL

  /**
   * A number that is neither zero nor infinite: the number of octets, a header with the sign and the length of the
   * exponent, the exponent in two's complement and the 53 bits of the mantissa in seven octets.
   */
  lemma RealLayout(d: uint64) returns (n: nat)
    requires d != 0 && d != 0x8000_0000_0000_0000 && d != 0x7FF0_0000_0000_0000 && d != 0xFFF0_0000_0000_0000
    ensures var biased, fraction := d / 0x10_0000_0000_0000 % 0x800, d % 0x10_0000_0000_0000;
            var e := biased - 1023 - 52;
            var negative := d >= 0x8000_0000_0000_0000 && !(biased == 0x7FF && fraction != 0);
            && n == (if -128 <= e <= 127 then 1 else 2)
            && RealBits(d) == FromNat(n + 8, 8)
               + (FromNat(0x80 + (if negative then 0x40 else 0) + n - 1, 8)
                  + (TwosBits(e, 8 * n) + FromNat(0x10_0000_0000_0000 + fraction, 56)))
  {
    var e := Biased(d) - 1075;
    hide FromNat, TwosBits, SignedOctets;
    n := SignedOctets(e);
    ExponentOctets(e);
  }

  /** The short forms: nothing for zero, one octet for an infinity. */
  lemma SpecialLayout()
    ensures RealBits(0) == RealBits(0x8000_0000_0000_0000) == FromNat(0, 8)
    ensures RealBits(0x7FF0_0000_0000_0000) == FromNat(1, 8) + FromNat(0x40, 8)
    ensures RealBits(0xFFF0_0000_0000_0000) == FromNat(1, 8) + FromNat(0x41, 8)
  {
  }
}
