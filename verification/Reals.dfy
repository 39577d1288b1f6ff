/**
 * Binary REAL (section 8.5 of ITU-T X.690) as `messages/real.c` and `messages/asn1crt.c` do it, on the bit
 * patterns of doubles. The decoder leaves its exponent uninitialised unless the first exponent octet is
 * negative; whatever it holds is the parameter `garbage`.
 */
module Reals {
  import opened Bits
  import opened Bytes
  import opened BitStreams
  import opened Per
  import opened Integers
  import opened Words

  const TWO52: nat := 0x10_0000_0000_0000
  const TWO53: nat := 0x20_0000_0000_0000
  const TWO63: nat := 0x8000_0000_0000_0000

  // ---------------------------------------------------------------- doubles

  function Negative(d: uint64): bool { d >= TWO63 }

  function Biased(d: uint64): (b: nat)
    ensures b < 0x800
  {
    d / TWO52 % 0x800
  }

  function Fraction(d: uint64): nat { d % TWO52 }

  function IsNaN(d: uint64): bool { Biased(d) == 0x7FF && Fraction(d) != 0 }

  const POSITIVE_ZERO: uint64 := 0
  const NEGATIVE_ZERO: uint64 := 0x8000_0000_0000_0000
  const POSITIVE_INFINITY: uint64 := 0x7FF0_0000_0000_0000
  const NEGATIVE_INFINITY: uint64 := 0xFFF0_0000_0000_0000

  /** The pattern with the given parts; only twelve bits of the exponent fit, the last one in the place of the sign. */
  function Assemble(fraction: nat, exp2: int): uint64
    requires fraction < TWO52
  {
    fraction + TWO52 * (exp2 % 0x1000)
  }

  /** `-v` on a double: the sign bit is inverted. */
  function Negate(d: uint64): uint64 {
    if d < TWO63 then d + TWO63 else d - TWO63
  }

  lemma PartsOf(d: uint64)
    ensures d == Assemble(Fraction(d), Biased(d)) + (if Negative(d) then TWO63 else 0)
  {
    var q := d / TWO52;
    assert d == TWO52 * q + Fraction(d) && q < 0x1000;
  }

  // ---------------------------------------------------------------- normalisation

  datatype Scaled = Scaled(m: nat, e: int)

  /** Too many bits: the low ones are dropped. */
  function Halve(m: nat, e: int): Scaled {
    if m >= TWO53 then Halve(m / 2, e + 1) else Scaled(m, e)
  }

  /** Too few bits. */
  function Double(m: nat, e: int): Scaled
    requires 0 < m
    decreases TWO53 - m
  {
    if m < TWO52 then Double(2 * m, e - 1) else Scaled(m, e)
  }

  function Normal(m: nat, e: int): Scaled
    requires 0 < m
  {
    HalvePositive(m, e);
    var s := Halve(m, e);
    Double(s.m, s.e)
  }

  lemma {:induction false} HalvePositive(m: nat, e: int)
    requires 0 < m
    ensures 0 < Halve(m, e).m < TWO53 && e <= Halve(m, e).e
    ensures Halve(m, e).m == Shr(m, Halve(m, e).e - e)
    ensures m >= TWO53 ==> Halve(m, e).m >= TWO52
    ensures m < TWO53 ==> Halve(m, e) == Scaled(m, e)
  {
    if m >= TWO53 {
      HalvePositive(m / 2, e + 1);
      var k := Halve(m, e).e - e;
      assert Shr(m, k) == Shr(m / 2, k - 1);
    }
  }

  lemma {:induction false} DoubleExact(m: nat, e: int)
    requires 0 < m < TWO53
    ensures var n := Double(m, e);
            TWO52 <= n.m < TWO53 && n.e <= e && n.m == m * Pow2(e - n.e)
    decreases TWO53 - m
  {
    if m < TWO52 {
      DoubleExact(2 * m, e - 1);
      var n := Double(m, e);
      MulAssoc(m, 2, Pow2(e - 1 - n.e));
      assert Pow2(e - n.e) == 2 * Pow2(e - 1 - n.e);
    }
  }

  /**
   * Normalising ends with the mantissa in [2^52, 2^53). It keeps m * 2^e exactly up to 53 bits; above that
   * it drops the low bits, so it keeps the number if and only if those are zero.
   */
  lemma NormalExact(m: nat, e: int)
    requires 0 < m
    ensures var n := Normal(m, e);
            && TWO52 <= n.m < TWO53
            && (m < TWO53 ==> n.e <= e && n.m == m * Pow2(e - n.e))
            && (m >= TWO53 ==>
                  && n.e >= e && n.m == Shr(m, n.e - e)
                  && (n.m * Pow2(n.e - e) == m <==> Low(m, n.e - e) == 0))
  {
    HalvePositive(m, e);
    var s := Halve(m, e);
    DoubleExact(s.m, s.e);
    ShrBounds(m, s.e - e);
  }

  /** The bits of `m` below position `k`. */
  function Low(m: nat, k: nat): (r: nat)
    ensures r < Pow2(k)
  {
    ShrBounds(m, k);
    m - Pow2(k) * Shr(m, k)
  }

  /** `GetDoubleByMantissaAndExp` */
  function Composed(mantissa: nat, exp: int): uint64 {
    if mantissa == 0 then POSITIVE_ZERO
    else
      NormalExact(mantissa, exp);
      var n := Normal(mantissa, exp);
      Assemble(n.m - TWO52, n.e + 1075)
  }

  /** `CalculateMantissaAndExponent` and `GetDoubleByMantissaAndExp` are inverse, up to the sign, on all patterns. */
  lemma ComposeDecomposed(d: uint64)
    ensures Composed(Fraction(d) + TWO52, Biased(d) - 1075) == if Negative(d) then Negate(d) else d
  {
    PartsOf(d);
  }

  /** The number a finite pattern is composed from is the one it denotes. */
  lemma DecomposeComposed(m: nat, e: int)
    requires 0 < m && 0 <= Normal(m, e).e + 1075 < 0x800
    ensures var d := Composed(m, e);
            !Negative(d) && Scaled(Fraction(d) + TWO52, Biased(d) - 1075) == Normal(m, e)
  {
    NormalExact(m, e);
    var n := Normal(m, e);
    var d := Composed(m, e);
    assert d / TWO52 == n.e + 1075 && d % TWO52 == n.m - TWO52;
  }

  method CalculateMantissaAndExponent(d: uint64) returns (exp: int, mantissa: uint64)
    ensures exp == Biased(d) - 1075 && mantissa == Fraction(d) + TWO52
  {
    exp := d / TWO52 % 0x800 - 1023 - 52;
    mantissa := d % TWO52;
    mantissa := mantissa + TWO52;
  }

  method GetDoubleByMantissaAndExp(mantissa: uint64, exp: int) returns (d: uint64)
    ensures d == Composed(mantissa, exp)
  {
    if mantissa == 0 {
      return POSITIVE_ZERO;
    }
    var m: nat, e := mantissa, exp;
    HalvePositive(m, e);
    while m >= TWO53
      invariant 0 < m && Halve(m, e) == Halve(mantissa, exp)
    {
      m, e := m / 2, e + 1;
    }
    while m < TWO52
      invariant 0 < m < TWO53 && Double(m, e) == Normal(mantissa, exp)
      decreases TWO53 - m
    {
      m, e := 2 * m, e - 1;
    }
    NormalExact(mantissa, exp);
    d := Assemble(m - TWO52, e + 1023 + 52);
  }

  // ---------------------------------------------------------------- encoding

  /** `v < 0`, which is false of every NaN. */
  predicate BelowZero(d: uint64) { Negative(d) && !IsNaN(d) }

  function Mantissa(d: uint64): (m: nat)
    ensures TWO52 <= m < TWO53
  {
    Fraction(d) + TWO52
  }

  function HeaderOf(d: uint64): nat {
    0x80 + (if BelowZero(d) then 0x40 else 0) + (if SignedOctets(Biased(d) - 1075) == 2 then 1 else 0)
  }

  /** Length, header, exponent and mantissa. */
  function BinaryBits(d: uint64): seq<bool> {
    var e := Biased(d) - 1075;
    var n := SignedOctets(e);
    FromNat(1 + n + 7, 8) + (FromNat(HeaderOf(d), 8) + (TwosBits(e, 8 * n) + FromNat(Mantissa(d), 56)))
  }

  function RealBits(d: uint64): seq<bool> {
    if d == POSITIVE_ZERO || d == NEGATIVE_ZERO then FromNat(0, 8)
    else if d == POSITIVE_INFINITY then FromNat(1, 8) + FromNat(0x40, 8)
    else if d == NEGATIVE_INFINITY then FromNat(1, 8) + FromNat(0x41, 8)
    else BinaryBits(d)
  }

  // ---------------------------------------------------------------- decoding

  /** The exponent after its octets `c`, as a 32-bit word. */
  function ExponentOf(c: seq<bool>, garbage: sint32): sint32 {
    Wrap32((if c != [] && c[0] then -1 else garbage) * Pow2(|c|) + ToNat(c))
  }

  /** The double for a number, an exponent and the base, scale and sign of the header. */
  function BinaryValue(n: uint64, exp: sint32, header: nat): uint64 {
    var expFactor := if header / 0x10 % 2 == 1 then 3 else if header / 0x20 % 2 == 1 then 4 else 1;
    var e: int := exp;
    var d := Composed(Unsigned64(n * Pow2(header / 4 % 4)), Wrap32(expFactor * e));
    if header / 0x40 % 2 == 1 then Negate(d) else d
  }

  /** The number behind the header, whose content has `length` more octets. */
  function BinaryAt(r: seq<bool>, length: nat, header: nat, garbage: sint32): Option<Read<uint64>> {
    var expLen := header % 4 + 1;
    var a, b := 8 * expLen, 8 * length;
    if expLen > length || |r| < b then None
    else Some(Read(BinaryValue(Unsigned64(ToNat(r[a..b])), ExponentOf(r[..a], garbage), header), r[b..]))
  }

  /** Decimal encodings are refused. */
  function RealAt(r: seq<bool>, garbage: sint32): Option<Read<uint64>> {
    if |r| < 8 then None
    else if ToNat(r[..8]) == 0 then Some(Read(POSITIVE_ZERO, r[8..]))
    else if |r| < 16 then None
    else
      var length, header, t := ToNat(r[..8]), ToNat(r[8..][..8]), r[8..][8..];
      if header == 0x40 then Some(Read(POSITIVE_INFINITY, t))
      else if header == 0x41 then Some(Read(NEGATIVE_INFINITY, t))
      else if header < 0x80 then None
      else BinaryAt(t, length - 1, header, garbage)
  }

  // ---------------------------------------------------------------- what is restored

  /** What comes back: the sign, the fraction, and an exponent whose high part may be garbage. */
  function Restored(d: uint64, garbage: sint32): uint64 {
    var e := Biased(d) - 1075;
    var init := if e < 0 then -1 else garbage;
    var u := if e < 0 then e + Pow2(8 * SignedOctets(e)) else e;
    var x := Assemble(Fraction(d), Wrap32(init * Pow2(8 * SignedOctets(e)) + u) + 1075);
    if BelowZero(d) then Negate(x) else x
  }

  lemma ExponentOctets(e: int)
    requires -1075 <= e <= 972
    ensures SignedOctets(e) == if -0x80 <= e < 0x80 then 1 else 2
    ensures FitsTwos(e, 8 * SignedOctets(e))
  {
    SignedOctetsLeast(e, SignedOctets(e));
    assert e < -0x80 || e >= 0x80 ==> -0x80 <= e / 0x100 < 0x80;
  }

  lemma ExponentRead(e: int, garbage: sint32)
    requires -1075 <= e <= 972
    ensures var n := SignedOctets(e);
            ExponentOf(TwosBits(e, 8 * n), garbage) ==
            Wrap32((if e < 0 then -1 else garbage) * Pow2(8 * n) + (if e < 0 then e + Pow2(8 * n) else e))
  {
    hide Pow2, FromNat, ToNat, SignedOctets;
    ExponentOctets(e);
    var w := 8 * SignedOctets(e);
    var u := if e >= 0 then e else -e - 1;
    TwosRoundTrip(e, w);
    LeadingZero(u, w);
  }

  /** The parts of the header of an encoded number. */
  lemma HeaderParts(d: uint64)
    ensures var h := HeaderOf(d);
            && 0x80 <= h < 0x100 && h / 0x10 % 2 == 0 && h / 0x20 % 2 == 0 && h / 4 % 4 == 0
            && h % 4 + 1 == SignedOctets(Biased(d) - 1075)
            && (h / 0x40 % 2 == 1 <==> BelowZero(d))
  {
    hide SignedOctets, BelowZero, Biased;
    ExponentOctets(Biased(d) - 1075);
  }

  /** Exponent and mantissa of an encoded number, read back. */
  lemma BinaryRestored(d: uint64, garbage: sint32, t: seq<bool>)
    ensures var e := Biased(d) - 1075;
            var n := SignedOctets(e);
            BinaryAt(TwosBits(e, 8 * n) + FromNat(Mantissa(d), 56) + t, n + 7, HeaderOf(d), garbage) ==
              Some(Read(Restored(d, garbage), t))
  {
    hide Pow2, FromNat, ToNat, SignedOctets, TwosBits, HeaderOf, BinaryAt, BinaryValue, Restored, Biased, Fraction;
    var e := Biased(d) - 1075;
    var n := SignedOctets(e);
    HeaderParts(d);
    ExponentOctets(e);
    BinaryParts(TwosBits(e, 8 * n), FromNat(Mantissa(d), 56), t, n, HeaderOf(d), garbage);
    ValueRestored(d, garbage);
  }

  lemma BinaryParts(x: seq<bool>, y: seq<bool>, t: seq<bool>, n: nat, header: nat, garbage: sint32)
    requires |x| == 8 * n && |y| == 56 && header % 4 + 1 == n
    ensures BinaryAt(x + y + t, n + 7, header, garbage) ==
            Some(Read(BinaryValue(Unsigned64(ToNat(y)), ExponentOf(x, garbage), header), t))
  {
    hide Pow2, ToNat, ExponentOf, BinaryValue, Unsigned64;
    var r, a, b := x + y + t, 8 * n, 8 * (n + 7);
    assert r[..a] == x && r[a..b] == y && r[b..] == t;
  }

  lemma ValueRestored(d: uint64, garbage: sint32)
    ensures var e := Biased(d) - 1075;
            var x := TwosBits(e, 8 * SignedOctets(e));
            BinaryValue(Unsigned64(ToNat(FromNat(Mantissa(d), 56))), ExponentOf(x, garbage), HeaderOf(d)) ==
              Restored(d, garbage)
  {
    hide Pow2, FromNat, ToNat, SignedOctets, TwosBits, HeaderOf, ExponentOf, Wrap32, Biased, Fraction;
    var e := Biased(d) - 1075;
    HeaderParts(d);
    ExponentOctets(e);
    ExponentRead(e, garbage);
    MantissaRead(Mantissa(d));
    var exp := ExponentOf(TwosBits(e, 8 * SignedOctets(e)), garbage);
    OneTimes(exp);
    NormalIsItself(Mantissa(d), exp);
  }

  lemma MantissaRead(m: nat)
    requires TWO52 <= m < TWO53
    ensures Unsigned64(Unsigned64(ToNat(FromNat(m, 56))) * Pow2(0)) == m
  {
    hide ToNat, FromNat;
    Pow2Values();
    ToNatFromNat(m, 56);
    assert Pow2(0) == 1;
  }

  lemma OneTimes(exp: sint32)
    ensures var e: int := exp;
            Wrap32(1 * e) == e
  {
  }

  lemma NormalIsItself(m: nat, e: int)
    requires TWO52 <= m < TWO53
    ensures Composed(m, e) == Assemble(m - TWO52, e + 1075)
  {
  }

  lemma RealRestored(d: uint64, garbage: sint32, t: seq<bool>)
    requires d != POSITIVE_ZERO && d != NEGATIVE_ZERO && d != POSITIVE_INFINITY && d != NEGATIVE_INFINITY
    ensures RealAt(RealBits(d) + t, garbage) == Some(Read(Restored(d, garbage), t))
  {
    hide Pow2, FromNat, ToNat, SignedOctets, TwosBits, HeaderOf, BinaryAt, Restored, Biased;
    var e := Biased(d) - 1075;
    var n := SignedOctets(e);
    var x, y, h := TwosBits(e, 8 * n), FromNat(Mantissa(d), 56), FromNat(HeaderOf(d), 8);
    Pow2Values();
    HeaderParts(d);
    ExponentOctets(e);
    assert RealBits(d) + t == FromNat(1 + n + 7, 8) + (h + (x + y + t));
    FixedWidthRoundTrip(1 + n + 7, 8, h + (x + y + t));
    FixedWidthRoundTrip(HeaderOf(d), 8, x + y + t);
    BinaryRestored(d, garbage, t);
  }

  lemma SpecialRestored(d: uint64, garbage: sint32, t: seq<bool>)
    requires d == POSITIVE_ZERO || d == NEGATIVE_ZERO || d == POSITIVE_INFINITY || d == NEGATIVE_INFINITY
    ensures RealAt(RealBits(d) + t, garbage) == Some(Read(if d == NEGATIVE_ZERO then POSITIVE_ZERO else d, t))
  {
    hide FromNat, ToNat, BinaryAt;
    Pow2Values();
    if d == POSITIVE_ZERO || d == NEGATIVE_ZERO {
      FixedWidthRoundTrip(0, 8, t);
    } else {
      var h := if d == POSITIVE_INFINITY then 0x40 else 0x41;
      assert RealBits(d) + t == FromNat(1, 8) + (FromNat(h, 8) + t);
      FixedWidthRoundTrip(1, 8, FromNat(h, 8) + t);
      FixedWidthRoundTrip(h, 8, t);
    }
  }

  /** The patterns that come back bit for bit whatever the uninitialised exponent held. */
  predicate Survives(d: uint64) {
    d != NEGATIVE_ZERO && !(IsNaN(d) && Negative(d)) && !(1075 <= Biased(d) <= 1202)
  }

  lemma WrapKeepsLow(x: int)
    ensures (Wrap32(x) + 1075) % 0x1000 == (x + 1075) % 0x1000
  {
    var k := (x + 0x8000_0000) / 0x1_0000_0000;
    assert Wrap32(x) == x - 0x1_0000_0000 * k;
    LowPeriodic(x + 1075, -0x10_0000 * k);
  }

  lemma LowPeriodic(x: int, k: int)
    ensures (x + 0x1000 * k) % 0x1000 == x % 0x1000
  {
  }

  /** The twelve exponent bits that come back. */
  lemma ExponentBits(d: uint64, garbage: sint32)
    ensures var e := Biased(d) - 1075;
            var init := if e < 0 then -1 else garbage;
            var u := if e < 0 then e + Pow2(8 * SignedOctets(e)) else e;
            (Wrap32(init * Pow2(8 * SignedOctets(e)) + u) + 1075) % 0x1000 ==
            (if 0 <= e < 0x80 then garbage * 0x100 + Biased(d) else Biased(d)) % 0x1000
  {
    hide Wrap32, SignedOctets, Pow2, Biased;
    var e := Biased(d) - 1075;
    Pow2Values();
    ExponentOctets(e);
    var p := Pow2(8 * SignedOctets(e));
    if e < 0 {
      WrapKeepsLow(-1 * p + (e + p));
    } else {
      WrapKeepsLow(garbage * p + e);
      if e >= 0x80 { LowPeriodic(e + 1075, 0x10 * garbage); }
    }
  }

  lemma RestoredIs(d: uint64, garbage: sint32)
    ensures var b := if 1075 <= Biased(d) <= 1202 then garbage * 0x100 + Biased(d) else Biased(d);
            var x := Assemble(Fraction(d), b);
            Restored(d, garbage) == if BelowZero(d) then Negate(x) else x
  {
    hide Wrap32, SignedOctets, Pow2, Biased;
    ExponentBits(d, garbage);
  }

  /**
   * Encoding and decoding give back the very same pattern, for every value of the uninitialised variable,
   * exactly for the patterns other than minus zero, negative NaNs, and biased exponents 1075 to 1202. In
   * particular subnormal numbers come back, although they are encoded with a spurious hidden bit.
   */
  lemma RestoredExactly(d: uint64)
    ensures Survives(d) <==> forall garbage: sint32, t: seq<bool> ::
            RealAt(RealBits(d) + t, garbage) == Some(Read(d, t))
  {
    hide RealAt, RealBits, BelowZero, Biased, Fraction, Assemble, IsNaN, Negative, Negate, Restored;
    SpecialPatterns();
    if d == POSITIVE_ZERO || d == NEGATIVE_ZERO || d == POSITIVE_INFINITY || d == NEGATIVE_INFINITY {
      forall garbage: sint32, t: seq<bool>
        ensures RealAt(RealBits(d) + t, garbage) == Some(Read(if d == NEGATIVE_ZERO then POSITIVE_ZERO else d, t))
      {
        SpecialRestored(d, garbage, t);
      }
      SpecialRestored(d, 0, []);
    } else {
      if Survives(d) {
        forall garbage: sint32, t: seq<bool> ensures RealAt(RealBits(d) + t, garbage) == Some(Read(d, t)) {
          RealRestored(d, garbage, t);
          SurvivorRestored(d, garbage);
        }
      } else {
        Lost(d);
        RealRestored(d, 1, []);
      }
    }
  }

  lemma SpecialPatterns()
    ensures Survives(POSITIVE_ZERO) && !Survives(NEGATIVE_ZERO) && Survives(POSITIVE_INFINITY)
    ensures Survives(NEGATIVE_INFINITY)
  {
  }

  lemma SurvivorRestored(d: uint64, garbage: sint32)
    requires Survives(d)
    ensures Restored(d, garbage) == d
  {
    hide Restored;
    RestoredIs(d, garbage);
    PartsOf(d);
  }

  /** A pattern that does not come back when the variable happens to be one. */
  lemma Lost(d: uint64)
    requires !Survives(d) && d != NEGATIVE_ZERO
    ensures Restored(d, 1) != d
  {
    hide Restored;
    RestoredIs(d, 1);
    PartsOf(d);
  }

  /** 2^52, whose biased exponent is 1075, is lost when the variable happens to be one. */
  lemma ANumberIsLost()
    ensures var d := 0x4330_0000_0000_0000;
            Biased(d) == 1075 && !Survives(d) && RealAt(RealBits(d), 1) != Some(Read(d, []))
  {
    var d: uint64 := 0x4330_0000_0000_0000;
    BiasedOf52();
    hide RealAt, RealBits, Biased, Restored;
    Lost(d);
    RealRestored(d, 1, []);
    assert RealBits(d) + [] == RealBits(d);
  }

  lemma BiasedOf52()
    ensures Biased(0x4330_0000_0000_0000) == 1075
  {
    Pow2Values();
  }

  // ---------------------------------------------------------------- the codec

  /** `BitStream_EncodeReal` */
  method EncodeReal(s: BitStream, d: uint64)
    requires s.Writable() && s.Room(|RealBits(d)|)
    modifies s, s.buf
    ensures s.Writable() && s.Written() == old(s.Written()) + RealBits(d)
  {
    hide Unpack, FromNat, BinaryBits;
    ghost var w0 := s.Written();
    if d == POSITIVE_ZERO || d == NEGATIVE_ZERO {
      EncodeCount(s, 0);
    } else if d == POSITIVE_INFINITY {
      EncodeCount(s, 1);
      EncodeCount(s, 0x40);
      AppendTwo(w0, FromNat(1, 8), FromNat(0x40, 8));
    } else if d == NEGATIVE_INFINITY {
      EncodeCount(s, 1);
      EncodeCount(s, 0x41);
      AppendTwo(w0, FromNat(1, 8), FromNat(0x41, 8));
    } else {
      EncodeBinary(s, d);
    }
  }

  method EncodeBinary(s: BitStream, d: uint64)
    requires s.Writable() && s.Room(|BinaryBits(d)|)
    modifies s, s.buf
    ensures s.Writable() && s.Written() == old(s.Written()) + BinaryBits(d)
  {
    hide Unpack, FromNat, TwosBits, SignedOctets, HeaderOf, Biased, Fraction, Pow2;
    ghost var w0 := s.Written();
    var header, exp, mantissa, nExpLen, nManLen := Header(d);
    ExponentOctets(exp);
    EncodeCount(s, 1 + nExpLen + nManLen);
    EncodeCount(s, header);
    EncodeTwos(s, exp, 8 * nExpLen);
    EncodePadded(s, mantissa, 8 * nManLen);
    AppendFour(w0, FromNat(1 + nExpLen + nManLen, 8), FromNat(header, 8), TwosBits(exp, 8 * nExpLen),
      FromNat(mantissa, 56));
  }

  /** The parts of a number and the header that describes them. */
  method Header(d: uint64) returns (header: nat, exp: int, mantissa: uint64, nExpLen: nat, nManLen: nat)
    ensures header == HeaderOf(d) < 0x100 && exp == Biased(d) - 1075 && mantissa == Mantissa(d) < Pow2(56)
    ensures nExpLen == SignedOctets(exp) <= 2 && nManLen == 7
  {
    hide SignedOctets, UnsignedOctets, BelowZero, Biased, Fraction, Pow2;
    header := 0x80;
    var v := d;
    if BelowZero(d) {
      header := header + 0x40;
      v := Negate(d);
    }
    SameParts(d);
    exp, mantissa := CalculateMantissaAndExponent(v);
    ExponentOctets(exp);
    assert mantissa == Mantissa(d);
    MantissaOctets(mantissa);
    nExpLen := GetLengthInBytesOfSInt(exp);
    nManLen := GetLengthInBytesOfUInt(mantissa);
    // the exponent of a double never takes three octets
    if nExpLen == 2 {
      header := header + 1;
    }
  }

  lemma SameParts(d: uint64)
    ensures Biased(Negate(d)) == Biased(d) && Fraction(Negate(d)) == Fraction(d)
  {
    var x := if d < TWO63 then d else d - TWO63;
    assert (x + TWO63) / TWO52 == x / TWO52 + 0x800;
  }

  lemma MantissaOctets(m: nat)
    requires TWO52 <= m < TWO53
    ensures UnsignedOctets(m) == 7 && m < Pow2(56)
  {
    Pow2Values();
    UnsignedOctetsIs(m, 7);
  }

  lemma AppendFour(w: seq<bool>, a: seq<bool>, b: seq<bool>, c: seq<bool>, d: seq<bool>)
    ensures w + a + b + c + d == w + (a + (b + (c + d)))
  {
  }

  /** `BitStream_DecodeReal` */
  method DecodeReal(s: BitStream, garbage: sint32) returns (ok: bool, d: uint64)
    requires s.Valid() && Safe(s, RealAt(s.Rest(), garbage).Some?)
    modifies s
    ensures s.Valid() && ok == RealAt(old(s.Rest()), garbage).Some?
    ensures ok ==> RealAt(old(s.Rest()), garbage) == Some(Read(d, s.Rest()))
  {
    hide Unpack, ByteBits, ToNat, BinaryAt, ByteVal;
    d := POSITIVE_ZERO;
    var length, header;
    ok, length := GetOctet(s);
    if !ok || length == 0 {
      return;
    }
    ok, header := GetOctet(s);
    if !ok {
      return;
    }
    if header == 0x40 {
      d := POSITIVE_INFINITY;
    } else if header == 0x41 {
      d := NEGATIVE_INFINITY;
    } else if header >= 0x80 {
      ok, d := DecodeRealAsBinaryEncoding(s, length - 1, header, garbage);
    } else {
      ok := false;
    }
  }

  method GetOctet(s: BitStream) returns (ok: bool, n: nat)
    requires s.Valid() && Safe(s, 8 <= |s.Rest()|)
    modifies s
    ensures s.Valid() && ok == (8 <= old(|s.Rest()|)) && n < 0x100
    ensures ok ==> s.Room(0) && n == ToNat(old(s.Rest())[..8]) && s.Rest() == old(s.Rest())[8..]
  {
    hide Unpack, ByteBits;
    var b;
    ok, b := s.ReadByte();
    n := ByteVal(b);
  }

  method DecodeRealAsBinaryEncoding(s: BitStream, length: nat, header: nat, garbage: sint32)
    returns (ok: bool, d: uint64)
    requires 0x80 <= header < 0x100 && s.Valid() && Safe(s, BinaryAt(s.Rest(), length, header, garbage).Some?)
    modifies s
    ensures s.Valid() && ok == BinaryAt(old(s.Rest()), length, header, garbage).Some?
    ensures ok ==> BinaryAt(old(s.Rest()), length, header, garbage) == Some(Read(d, s.Rest()))
  {
    hide Unpack, ToNat, ExponentOf, BinaryValue, Unsigned64;
    ghost var r := s.Rest();
    d := POSITIVE_ZERO;
    var expLen := header % 4 + 1;
    if expLen > length {
      return false, d;
    }
    var exp, n;
    ok, exp := DecodeExponent(s, expLen, garbage);
    if ok {
      ok, n := DecodeMantissa(s, length - expLen);
      if ok {
        TwoParts(r, 8 * expLen, 8 * length);
        d := Finish(n, exp, header);
      }
    }
  }

  lemma TwoParts(r: seq<bool>, a: nat, b: nat)
    requires a <= b <= |r|
    ensures r[a..][..b - a] == r[a..b] && r[a..][b - a..] == r[b..]
  {
  }

  method Finish(n: uint64, exp: sint32, header: nat) returns (d: uint64)
    ensures d == BinaryValue(n, exp, header)
  {
    hide Composed, Wrap32, Unsigned64, Pow2;
    var expFactor := if header / 0x10 % 2 == 1 then 3 else if header / 0x20 % 2 == 1 then 4 else 1;
    var factor, e: int := Pow2(header / 4 % 4), exp;
    d := GetDoubleByMantissaAndExp(Unsigned64(n * factor), Wrap32(expFactor * e));
    if header / 0x40 % 2 == 1 {
      d := Negate(d);
    }
  }

  /** `exp` is given a value before the first octet only if that octet is negative. */
  method DecodeExponent(s: BitStream, expLen: nat, garbage: sint32) returns (ok: bool, exp: sint32)
    requires 1 <= expLen && s.Valid() && Safe(s, 8 * expLen <= |s.Rest()|)
    modifies s
    ensures s.Valid() && ok == (8 * expLen <= old(|s.Rest()|))
    ensures ok ==>
              && s.Room(0) && exp == ExponentOf(old(s.Rest())[..8 * expLen], garbage)
              && s.Rest() == old(s.Rest())[8 * expLen..]
  {
    hide Unpack, ToNat, Wrap32, Pow2;
    ghost var r := s.Rest();
    ghost var init: sint32 := if r != [] && r[0] then -1 else garbage;
    ok, exp := true, garbage;
    for i := 0 to expLen
      invariant ok && s.Valid() && s.Room(0) && 8 * i <= |r| && s.Rest() == r[8 * i..]
      invariant Safe(s, 8 * expLen <= |r|)
      invariant if i == 0 then exp == garbage else exp == Wrap32(init * Pow2(8 * i) + ToNat(r[..8 * i]))
    {
      var b;
      ok, b := GetOctet(s);
      if !ok {
        return;
      }
      if i == 0 {
        FirstOctetSign(r);
        if b > 0x7F {
          exp := -1;
        }
      }
      NextExponent(r, 8 * i, b, init, exp);
      exp := Wrap32(exp * 0x100 + b);
    }
  }

  method DecodeMantissa(s: BitStream, length: nat) returns (ok: bool, n: uint64)
    requires s.Valid() && Safe(s, 8 * length <= |s.Rest()|)
    modifies s
    ensures s.Valid() && ok == (8 * length <= old(|s.Rest()|))
    ensures ok ==> n == Unsigned64(ToNat(old(s.Rest())[..8 * length])) && s.Rest() == old(s.Rest())[8 * length..]
  {
    hide Unpack, ToNat, Unsigned64;
    ghost var r := s.Rest();
    ok, n := true, 0;
    NothingRead(r);
    for i := 0 to length
      invariant ok && s.Valid() && s.Room(0) && 8 * i <= |r| && s.Rest() == r[8 * i..]
      invariant Safe(s, 8 * length <= |r|)
      invariant n == Unsigned64(ToNat(r[..8 * i]))
    {
      var b;
      ok, b := GetOctet(s);
      if !ok {
        return;
      }
      NextMantissa(r, 8 * i, b);
      n := Unsigned64(n * 0x100 + b);
    }
  }

  lemma FirstOctetSign(r: seq<bool>)
    requires 8 <= |r|
    ensures r[0] <==> ToNat(r[0..][..8]) > 0x7F
  {
    hide Pow2, ToNat;
    var x := r[..8];
    assert r[0..][..8] == x && x == x[..1] + x[1..];
    Pow2Values();
    ToNatConcat(x[..1], x[1..]);
    ToNatBound(x[1..]);
    OneBit(x[..1]);
  }

  lemma OneBit(x: seq<bool>)
    requires |x| == 1
    ensures ToNat(x) == if x[0] then 1 else 0
  {
    assert x[..0] == [];
  }

  lemma NextOctetOf(r: seq<bool>, k: nat)
    requires k + 8 <= |r|
    ensures ToNat(r[..k + 8]) == ToNat(r[..k]) * 0x100 + ToNat(r[k..][..8])
    ensures r[k..][8..] == r[k + 8..]
  {
    hide ToNat, Pow2;
    Pow2Values();
    assert r[..k + 8] == r[..k] + r[k..][..8];
    ToNatConcat(r[..k], r[k..][..8]);
  }

  lemma NextExponent(r: seq<bool>, k: nat, b: nat, init: sint32, exp: sint32)
    requires k + 8 <= |r| && b == ToNat(r[k..][..8])
    requires exp == if k == 0 then init else Wrap32(init * Pow2(k) + ToNat(r[..k]))
    ensures Wrap32(exp * 0x100 + b) == Wrap32(init * Pow2(k + 8) + ToNat(r[..k + 8]))
    ensures r[k..][8..] == r[k + 8..]
  {
    hide ToNat, Wrap32, Pow2;
    NextOctetOf(r, k);
    Pow2Values();
    Pow2Add(k, 8);
    MulAssoc(init, Pow2(k), 0x100);
    if k == 0 {
      NothingRead(r);
    } else {
      WrapStep32(init * Pow2(k) + ToNat(r[..k]), b);
    }
  }

  lemma NothingRead(r: seq<bool>)
    ensures ToNat(r[..0]) == 0 && Pow2(0) == 1 && Unsigned64(0) == 0
  {
  }

  lemma WrapStep32(x: int, b: int)
    ensures Wrap32(Wrap32(x) * 0x100 + b) == Wrap32(x * 0x100 + b)
  {
    var k := (x + 0x8000_0000) / 0x1_0000_0000;
    assert Wrap32(x) == x - 0x1_0000_0000 * k;
    hide Wrap32;
    WrapPeriodic32(x * 0x100 + b, -0x100 * k);
  }

  lemma WrapPeriodic32(x: int, k: int)
    ensures Wrap32(x + 0x1_0000_0000 * k) == Wrap32(x)
  {
  }

  lemma NextMantissa(r: seq<bool>, k: nat, b: nat)
    requires k + 8 <= |r| && b == ToNat(r[k..][..8])
    ensures Unsigned64(Unsigned64(ToNat(r[..k])) * 0x100 + b) == Unsigned64(ToNat(r[..k + 8]))
    ensures r[k..][8..] == r[k + 8..]
  {
    hide ToNat, Unsigned64;
    NextOctetOf(r, k);
    WordStep(ToNat(r[..k]), b);
  }
}
