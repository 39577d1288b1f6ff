/**
 * The integer codec of `messages/asn1crt.c` (sections 11.5, 11.7 and 11.8 of ITU-T X.691) for
 * 64-bit words: fixed-width, constrained, semi-constrained and unconstrained whole numbers.
 */
module Integers {
  import opened Bits
  import opened Bytes
  import opened BitStreams
  import opened Per

  /** `v << n` on an unsigned 32-bit word. */
  function ShiftLeft32(v: nat, n: nat): uint32 {
    (v * Pow2(n)) % 0x1_0000_0000
  }

  function NotIf(x: seq<bool>, negate: bool): (r: seq<bool>)
    ensures |r| == |x|
  {
    if negate then NotBits(x) else x
  }

  // ---------------------------------------------------------------- lengths

  method GetNumberOfBitsForNonNegativeInteger32(v: uint32) returns (ret: nat)
    ensures ret == NumBits(v)
  {
    var w: nat := v;
    ShrValues(v);
    Pow2Values();
    if v < 0x100 {
      ret := 0;
    } else if v < 0x1_0000 {
      NumBitsSplit(v, 8);
      ret, w := 8, Shr(v, 8);
    } else if v < 0x100_0000 {
      NumBitsSplit(v, 16);
      ret, w := 16, Shr(v, 16);
    } else {
      NumBitsSplit(v, 24);
      ret, w := 24, Shr(v, 24);
    }
    while w > 0
      invariant 0 <= ret && ret + NumBits(w) == NumBits(v)
    {
      w := w / 2;
      ret := ret + 1;
    }
  }

  method GetNumberOfBitsForNonNegativeInteger(v: uint64) returns (ret: nat)
    ensures ret == NumBits(v)
  {
    if v < 0x1_0000_0000 {
      ret := GetNumberOfBitsForNonNegativeInteger32(v);
    } else {
      ShrValues(v);
      Pow2Values();
      NumBitsSplit(v, 32);
      var hi := Shr(v, 32);
      ret := GetNumberOfBitsForNonNegativeInteger32(hi);
      ret := 32 + ret;
    }
  }

  method GetLengthInBytesOfUInt(v: uint64) returns (n: nat)
    ensures n == UnsignedOctets(v) && n <= 8
  {
    hide Pow2, Shr, UnsignedOctets;
    Pow2Values();
    ShrValues(v);
    var ret, v32 := 0, v % 0x1_0000_0000;
    if v > 0xFFFF_FFFF {
      ret, v32 := 4, Shr(v, 32);
    }
    if v32 < 0x100 {
      n := ret + 1;
    } else if v32 < 0x1_0000 {
      n := ret + 2;
    } else if v32 < 0x100_0000 {
      n := ret + 3;
    } else {
      n := ret + 4;
    }
    UnsignedOctetsIs(v, n);
  }

  method GetLengthSIntHelper(v: uint64) returns (n: nat)
    requires v < 0x8000_0000_0000_0000
    ensures 1 <= n <= 8 && v < Pow2(8 * n - 1) && (n > 1 ==> Pow2(8 * (n - 1) - 1) <= v)
  {
    hide Pow2, Shr;
    Pow2Values();
    ShrValues(v);
    var ret, v32 := 0, v % 0x1_0000_0000;
    if v > 0x7FFF_FFFF {
      ret, v32 := 4, Shr(v, 32);
    }
    if v32 <= 0x7F {
      return ret + 1;
    }
    if v32 <= 0x7FFF {
      return ret + 2;
    }
    if v32 <= 0x7F_FFFF {
      return ret + 3;
    }
    return ret + 4;
  }

  method GetLengthInBytesOfSInt(v: sint64) returns (n: nat)
    ensures n == SignedOctets(v) && n <= 8
  {
    var w: int := v;
    var u := if w >= 0 then w else -w - 1;
    n := GetLengthSIntHelper(u);
    SignedOctetsIs(v, u, n);
  }

  // ---------------------------------------------------------------- fixed-width fields

  method EncodeNonNegativeInteger32Neg(s: BitStream, v: uint32, negate: bool)
    requires s.Writable() && s.Room(NumBits(v))
    modifies s, s.buf
    ensures s.Writable() && s.Written() == old(s.Written()) + NotIf(FromNat(v, NumBits(v)), negate)
  {
    if v == 0 {
      return;
    }
    var cc := FindTopBit(v);
    EncodeTopBits(s, v, cc, negate);
  }

  /** The scan for the leading one; the mask of the source has its only bit at position `cc - 1`. */
  method FindTopBit(v: uint32) returns (cc: nat)
    requires v > 0
    ensures cc == NumBits(v) && cc <= 32
  {
    hide Pow2, Shr;
    if v < 0x100 {
      cc := 8;
    } else if v < 0x1_0000 {
      cc := 16;
    } else if v < 0x100_0000 {
      cc := 24;
    } else {
      cc := 32;
    }
    Pow2Values();
    while Shr(v, cc - 1) % 2 == 0
      invariant 1 <= cc <= 32 && v < Pow2(cc)
      decreases cc
    {
      TopBitClear(v, cc);
      cc := cc - 1;
    }
    TopBitSet(v, cc);
  }

  lemma TopBitClear(v: nat, cc: nat)
    requires 1 <= cc && 0 < v < Pow2(cc) && Shr(v, cc - 1) % 2 == 0
    ensures v < Pow2(cc - 1) && cc > 1
  {
    ShrBound(v, cc - 1, 1);
    ShrPositive(v, cc - 1);
  }

  lemma TopBitSet(v: nat, cc: nat)
    requires 1 <= cc && 0 < v < Pow2(cc) && Shr(v, cc - 1) % 2 == 1
    ensures NumBits(v) == cc
  {
    ShrPositive(v, cc - 1);
    NumBitsUnique(v, cc);
  }

  /** The partial octet first, then whole octets. */
  method EncodeTopBits(s: BitStream, v: uint32, n: nat, negate: bool)
    requires n == NumBits(v) && n <= 32
    requires s.Writable() && s.Room(n)
    modifies s, s.buf
    ensures s.Writable() && s.Written() == old(s.Written()) + NotIf(FromNat(v, n), negate)
  {
    hide Unpack, ByteBits, FromNat, NumBits, Pow2, Shr, PartialBits, NotIf;
    ghost var w0 := s.Written();
    var pbits := n % 8;
    NumBitsBounds(v);
    NothingYet(v, n, negate);
    assert w0 + [] == w0;
    if pbits != 0 {
      PartialField(v, n, pbits, negate);
      s.AppendPartialByte(ByteOf(Shr(v, n - pbits)), pbits, negate);
    }
    EncodeWholeOctets(s, v, n, n / 8, negate, w0);
  }

  /** The loop over the low `k` octets. */
  method EncodeWholeOctets(s: BitStream, v: uint32, ghost n: nat, k: nat, negate: bool, ghost w0: seq<bool>)
    requires 8 * k <= n
    requires s.Writable() && s.Room(8 * k) && s.Written() == w0 + NotIf(FromNat(Shr(v, 8 * k), n - 8 * k), negate)
    modifies s, s.buf
    ensures s.Writable() && s.Written() == w0 + NotIf(FromNat(v, n), negate)
  {
    hide Unpack, ByteBits, FromNat, Shr, NotIf;
    var i: nat := k;
    ghost var m: nat := n - 8 * k;
    NothingYet(v, n, negate);
    while i > 0
      invariant m == n - 8 * i && s.Writable() && s.Room(8 * i)
      invariant s.Written() == w0 + NotIf(FromNat(Shr(v, 8 * i), m), negate)
    {
      i := i - 1;
      NextField(v, 8 * i, m, negate);
      AppendTwo(w0, NotIf(FromNat(Shr(v, 8 * i + 8), m), negate), NotIf(ByteBits(ByteOf(Shr(v, 8 * i))), negate));
      Negated(ByteBits(ByteOf(Shr(v, 8 * i))), negate);
      s.AppendByte(ByteOf(Shr(v, 8 * i)), negate);
      m := m + 8;
    }
  }

  lemma Negated(x: seq<bool>, negate: bool)
    ensures NotIf(x, negate) == if negate then NotBits(x) else x
  {
  }

  lemma PartialField(v: nat, n: nat, pbits: nat, negate: bool)
    requires pbits < 8 && pbits <= n && v < Pow2(n)
    ensures var b := ByteOf(Shr(v, n - pbits));
            && b & LowMask(pbits) == b
            && PartialBits(b, pbits, negate) == NotIf(FromNat(Shr(v, n - pbits), pbits), negate)
  {
    var x := Shr(v, n - pbits);
    ShrBound(v, n - pbits, pbits);
    ByteOfBits(x);
    PadZeros(x, 8 - pbits, pbits);
    BitsLowMask(ByteOf(x), pbits);
    SameBits(ByteOf(x) & LowMask(pbits), ByteOf(x));
  }

  lemma NothingYet(v: nat, n: nat, negate: bool)
    ensures FromNat(Shr(v, n), 0) == [] && NotIf([], negate) == []
    ensures Shr(v, 0) == v
  {
  }

  /** A field of `m` bits and the octet below it. */
  lemma NextField(v: nat, p: nat, m: nat, negate: bool)
    ensures NotIf(FromNat(Shr(v, p + 8), m), negate) + NotIf(ByteBits(ByteOf(Shr(v, p))), negate) ==
            NotIf(FromNat(Shr(v, p), m + 8), negate)
  {
    hide FromNat, ByteBits, Shr, ByteOf;
    var x := Shr(v, p);
    ByteOfBits(x);
    ShrAdd(v, p, 8);
    FromNatSplit(x, m, 8);
    NotConcat(FromNat(Shr(x, 8), m), FromNat(x, 8));
  }

  method EncodeNonNegativeInteger(s: BitStream, v: uint64)
    requires s.Writable() && s.Room(NumBits(v))
    modifies s, s.buf
    ensures s.Writable() && s.Written() == old(s.Written()) + FromNat(v, NumBits(v))
  {
    EncodeNonNegativeIntegerNeg(s, v, false);
  }

  /** Above 32 bits the low word is written as a full 32-bit field, complemented as a number. */
  method EncodeNonNegativeIntegerNeg(s: BitStream, v: uint64, negate: bool)
    requires s.Writable() && s.Room(NumBits(v))
    modifies s, s.buf
    ensures s.Writable() && s.Written() == old(s.Written()) + NotIf(FromNat(v, NumBits(v)), negate)
  {
    if v < 0x1_0000_0000 {
      EncodeNonNegativeInteger32Neg(s, v, negate);
    } else {
      EncodeTwoWords(s, v, negate);
    }
  }

  method EncodeTwoWords(s: BitStream, v: uint64, negate: bool)
    requires v >= 0x1_0000_0000 && s.Writable() && s.Room(NumBits(v))
    modifies s, s.buf
    ensures s.Writable() && s.Written() == old(s.Written()) + NotIf(FromNat(v, NumBits(v)), negate)
  {
    hide Unpack, FromNat, NumBits, Pow2, Shr, NotIf, Zeros;
    ghost var w0 := s.Written();
    HighWord(v);
    var hi, lo := Shr(v, 32), v % 0x1_0000_0000;
    EncodeNonNegativeInteger32Neg(s, hi, negate);
    if negate {
      lo := 0xFFFF_FFFF - lo;
    }
    TwoWords(v, lo, negate, w0);
    PutWord(s, lo);
  }

  lemma HighWord(v: uint64)
    requires v >= 0x1_0000_0000
    ensures Shr(v, 32) < 0x1_0000_0000 && NumBits(v) == NumBits(Shr(v, 32)) + 32
  {
    ShrValues(v);
    Pow2Values();
    NumBitsSplit(v, 32);
  }

  /** A full 32-bit field. */
  method PutWord(s: BitStream, lo: uint32)
    requires s.Writable() && s.Room(32)
    modifies s, s.buf
    ensures NumBits(lo) <= 32
    ensures s.Writable() && s.Written() == old(s.Written()) + Zeros(32 - NumBits(lo)) + FromNat(lo, NumBits(lo))
  {
    hide Unpack, FromNat, NumBits, Pow2;
    Pow2Values();
    NumBitsAtMost(lo, 32);
    var nBits := GetNumberOfBitsForNonNegativeInteger(lo);
    s.AppendNBitZero(32 - nBits);
    Plain(FromNat(lo, nBits));
    EncodeNonNegativeInteger32Neg(s, lo, false);
  }

  lemma Plain(x: seq<bool>)
    ensures NotIf(x, false) == x
  {
  }

  lemma TwoWords(v: uint64, lo: uint32, negate: bool, w: seq<bool>)
    requires v >= 0x1_0000_0000
    requires lo == if negate then 0xFFFF_FFFF - v % 0x1_0000_0000 else v % 0x1_0000_0000
    ensures NumBits(lo) <= 32
    ensures var hi := Shr(v, 32);
            w + NotIf(FromNat(hi, NumBits(hi)), negate) + Zeros(32 - NumBits(lo)) + FromNat(lo, NumBits(lo)) ==
            w + NotIf(FromNat(v, NumBits(v)), negate)
  {
    hide FromNat, NumBits, Shr, Zeros, NotBits;
    Pow2Values();
    NumBitsAtMost(lo, 32);
    NumBitsBounds(lo);
    PadZeros(lo, 32 - NumBits(lo), NumBits(lo));
    LowWord(v, lo, negate);
    var hi := Shr(v, 32);
    NumBitsSplit(v, 32);
    FromNatSplit(v, NumBits(hi), 32);
    NotConcat(FromNat(hi, NumBits(hi)), FromNat(v, 32));
    AppendThree(w, NotIf(FromNat(hi, NumBits(hi)), negate), Zeros(32 - NumBits(lo)), FromNat(lo, NumBits(lo)));
  }

  lemma LowWord(v: uint64, lo: uint32, negate: bool)
    requires lo == if negate then 0xFFFF_FFFF - v % 0x1_0000_0000 else v % 0x1_0000_0000
    ensures FromNat(lo, 32) == NotIf(FromNat(v, 32), negate)
  {
    hide FromNat, NotBits;
    var low := v % 0x1_0000_0000;
    Pow2Values();
    FromNatMod(low, 32, v / 0x1_0000_0000);
    Complement(low, 32);
  }

  lemma AppendThree(w: seq<bool>, a: seq<bool>, b: seq<bool>, c: seq<bool>)
    ensures w + a + b + c == w + (a + (b + c))
  {
  }

  /** The octets first, then the partial octet: the other way round than the encoder. */
  method DecodeNonNegativeInteger32Neg(s: BitStream, nBits: nat) returns (ok: bool, v: uint32)
    requires nBits <= 32 && s.Readable(nBits)
    modifies s
    ensures s.Valid() && ok == (nBits <= old(|s.Rest()|))
    ensures ok ==> s.Pos() == old(s.Pos()) + nBits && s.Rest() == old(s.Rest())[nBits..]
    ensures ok ==> v == ToNat(old(s.Rest())[..nBits])
  {
    hide Unpack, ByteBits, Pow2, ToNat, ByteVal, ShiftLeft32;
    ghost var r := s.Rest();
    EmptyField(r);
    var n := nBits;
    ok, v := true, 0;
    while n >= 8
      invariant 0 <= n <= nBits && s.Readable(n)
      invariant nBits - n <= |r| && s.Rest() == r[nBits - n..] && s.Pos() == old(s.Pos()) + nBits - n
      invariant v == ToNat(r[..nBits - n])
    {
      var b;
      ok, b := s.ReadByte();
      if !ok {
        return;
      }
      MoreBits(r, nBits - n, 8, b, v);
      v := ShiftLeft32(v, 8) + ByteVal(b);
      n := n - 8;
    }
    if n > 0 {
      var b;
      ok, b := s.ReadPartialByte(n);
      if !ok {
        return;
      }
      MoreBits(r, nBits - n, n, b, v);
      v := ShiftLeft32(v, n) + ByteVal(b);
    }
  }

  /** Shifting a field left to make room for `n` more bits loses nothing while it fits a word. */
  lemma MoreBits(r: seq<bool>, k: nat, n: nat, b: byte, v: nat)
    requires n <= 8 && k + n <= 32 && k + n <= |r|
    requires v == ToNat(r[..k])
    requires ByteBits(b) == Zeros(8 - n) + r[k..][..n]
    ensures ShiftLeft32(v, n) + ByteVal(b) == ToNat(r[..k + n]) < 0x1_0000_0000
    ensures r[k..][n..] == r[k + n..]
  {
    hide Pow2, ToNat, ByteVal, ByteBits;
    var x := r[k..][..n];
    Pow2Values();
    assert r[..k + n] == r[..k] + x;
    ToNatConcat(r[..k], x);
    PaddedVal(b, x);
    ToNatBound(r[..k + n]);
    Pow2Monotone(k + n, 32);
  }

  lemma EmptyField(r: seq<bool>)
    ensures ToNat(r[..0]) == 0
  {
  }

  lemma PaddedVal(b: byte, x: seq<bool>)
    requires |x| <= 8 && ByteBits(b) == Zeros(8 - |x|) + x
    ensures ByteVal(b) == ToNat(x)
  {
    hide ToNat, ByteBits;
    ToNatConcat(Zeros(8 - |x|), x);
    ZerosToNat(8 - |x|);
  }

  lemma {:induction false} ZerosToNat(n: nat)
    ensures ToNat(Zeros(n)) == 0
  {
    if n > 0 {
      ZerosToNat(n - 1);
      assert Zeros(n)[..n - 1] == Zeros(n - 1);
    }
  }

  method DecodeNonNegativeInteger(s: BitStream, nBits: nat) returns (ok: bool, v: uint64)
    requires nBits <= 64 && s.Readable(nBits)
    modifies s
    ensures s.Valid() && ok == (nBits <= old(|s.Rest()|))
    ensures ok ==> s.Pos() == old(s.Pos()) + nBits && s.Rest() == old(s.Rest())[nBits..]
    ensures ok ==> v == ToNat(old(s.Rest())[..nBits])
  {
    if nBits <= 32 {
      ok, v := DecodeNonNegativeInteger32Neg(s, nBits);
      return;
    }
    ghost var r := s.Rest();
    var hi, lo;
    v := 0;
    ok, hi := DecodeNonNegativeInteger32Neg(s, 32);
    if ok {
      ok, lo := DecodeNonNegativeInteger32Neg(s, nBits - 32);
      if ok {
        JoinWords(r, nBits, hi, lo);
        v := ShiftLeft64(hi, nBits - 32) + lo;
      }
    }
  }

  /** `v << n` on an unsigned 64-bit word. */
  function ShiftLeft64(v: nat, n: nat): uint64 {
    (v * Pow2(n)) % TWO64
  }

  lemma JoinWords(r: seq<bool>, nBits: nat, hi: nat, lo: nat)
    requires 32 < nBits <= 64 && nBits <= |r|
    requires hi == ToNat(r[..32]) && lo == ToNat(r[32..][..nBits - 32])
    ensures ShiftLeft64(hi, nBits - 32) + lo == ToNat(r[..nBits]) < TWO64
    ensures r[32..][nBits - 32..] == r[nBits..]
  {
    hide Pow2, ToNat;
    var x := r[32..][..nBits - 32];
    Pow2Values();
    assert r[..nBits] == r[..32] + x;
    ToNatConcat(r[..32], x);
    ToNatBound(r[..nBits]);
    Pow2Monotone(nBits, 64);
  }

  // ---------------------------------------------------------------- whole numbers

  method EncodeConstraintWholeNumber(s: BitStream, v: sint64, min: sint64, max: sint64)
    requires min <= v <= max
    requires s.Writable() && s.Room(NumBits(max - min))
    modifies s, s.buf
    ensures s.Writable() && s.Written() == old(s.Written()) + ConstrainedBits(v, min, max)
  {
    hide Unpack, FromNat, Pow2, NumBits;
    var range: int := max - min;
    if range == 0 {
      NoBits(v - min);
      return;
    }
    var nRangeBits := GetNumberOfBitsForNonNegativeInteger(range);
    NumBitsBounds(range);
    EncodePadded(s, v - min, nRangeBits);
  }

  lemma NoBits(v: nat)
    ensures NumBits(0) == 0 && FromNat(v, 0) == []
  {
  }

  /** Leading zeros up to the width of the field, then the number. */
  method EncodePadded(s: BitStream, v: uint64, width: nat)
    requires v < Pow2(width)
    requires s.Writable() && s.Room(width)
    modifies s, s.buf
    ensures s.Writable() && s.Written() == old(s.Written()) + FromNat(v, width)
  {
    hide Unpack, FromNat, Pow2, NumBits;
    ghost var w0 := s.Written();
    var nBits := GetNumberOfBitsForNonNegativeInteger(v);
    NumBitsAtMost(v, width);
    s.AppendNBitZero(width - nBits);
    EncodeNonNegativeInteger(s, v);
    NumBitsBounds(v);
    PadZeros(v, width - nBits, nBits);
    AppendTwo(w0, Zeros(width - nBits), FromNat(v, nBits));
  }

  lemma AppendTwo(w: seq<bool>, a: seq<bool>, b: seq<bool>)
    ensures w + a + b == w + (a + b)
  {
  }

  method DecodeConstraintWholeNumber(s: BitStream, min: sint64, max: sint64) returns (ok: bool, v: sint64)
    requires min <= max && s.Readable(NumBits(max - min))
    modifies s
    ensures s.Valid() && ok == ConstrainedAt(old(s.Rest()), min, max).Some?
    ensures ok ==> ghost var (x, n) := ConstrainedAt(old(s.Rest()), min, max).value;
                   v == x && s.Pos() == old(s.Pos()) + n && s.Rest() == old(s.Rest())[n..]
  {
    hide Unpack, FromNat, Pow2, NumBits, ToNat, Wrap64;
    var range: int := max - min;
    ok, v := true, 0;
    if range == 0 {
      NoBits(0);
      EmptyField(s.Rest());
      WrapFits(min);
      return true, min;
    }
    var nRangeBits := GetNumberOfBitsForNonNegativeInteger(range);
    Pow2Values();
    NumBitsAtMost(range, 64);
    var uv;
    ok, uv := DecodeNonNegativeInteger(s, nRangeBits);
    if ok {
      v := Wrap64(Wrap64(uv) + min);
      WrapStep(uv, 1, min);
    }
  }

  method EncodeSemiConstraintWholeNumber(s: BitStream, v: sint64, min: sint64)
    requires min <= v
    requires s.Writable() && s.Room(|SemiConstrainedBits(v, min)|)
    modifies s, s.buf
    ensures s.Writable() && s.Written() == old(s.Written()) + SemiConstrainedBits(v, min)
  {
    hide Unpack, FromNat, UnsignedOctets;
    ghost var w0 := s.Written();
    var u: int := v - min;
    var nBytes := GetLengthInBytesOfUInt(u);
    EncodeCount(s, nBytes);
    UnsignedOctetsLeast(u, nBytes);
    EncodePadded(s, u, 8 * nBytes);
    AppendTwo(w0, FromNat(nBytes, 8), FromNat(u, 8 * nBytes));
  }

  /** The octet count in front of a value, a constrained number in the range 0..255. */
  method EncodeCount(s: BitStream, n: nat)
    requires n < 0x100
    requires s.Writable() && s.Room(8)
    modifies s, s.buf
    ensures s.Writable() && s.Written() == old(s.Written()) + FromNat(n, 8)
  {
    Range255();
    EncodeConstraintWholeNumber(s, n, 0, 255);
  }

  lemma Range255()
    ensures NumBits(255) == 8
  {
    Pow2Values();
    NumBitsUnique(255, 8);
  }

  method DecodeCount(s: BitStream) returns (ok: bool, n: nat)
    requires s.Readable(8)
    modifies s
    ensures s.Valid() && ok == (8 <= old(|s.Rest()|))
    ensures ok ==> n == ToNat(old(s.Rest())[..8]) && n < 0x100
    ensures ok ==> s.Pos() == old(s.Pos()) + 8 && s.Rest() == old(s.Rest())[8..]
  {
    ghost var r := s.Rest();
    Range255();
    var v;
    ok, v := DecodeConstraintWholeNumber(s, 0, 255);
    n := 0;
    if ok {
      Pow2Values();
      ToNatBound(r[..8]);
      WrapFits(ToNat(r[..8]));
      n := v;
    }
  }

  method DecodeSemiConstraintWholeNumber(s: BitStream, min: sint64) returns (ok: bool, v: sint64)
    requires s.Valid() && Safe(s, SemiConstrainedAt(s.Rest(), min).Some?)
    modifies s
    ensures s.Valid() && ok == SemiConstrainedAt(old(s.Rest()), min).Some?
    ensures ok ==> ghost var (x, n) := SemiConstrainedAt(old(s.Rest()), min).value;
                   v == x && s.Pos() == old(s.Pos()) + n && s.Rest() == old(s.Rest())[n..]
  {
    hide Unpack, ByteBits, ToNat, ByteVal, Wrap64, TwosValue, CountedAt;
    ghost var r := s.Rest();
    CountedParts(r);
    v := 0;
    var nBytes;
    ok, nBytes := DecodeCount(s);
    if !ok {
      return;
    }
    ghost var c := r[8..];
    EmptyField(c);
    WrapFits(0);
    for i := 0 to nBytes
      invariant ok && s.Valid() && s.Room(0) && 8 + 8 * i <= |r|
      invariant s.Pos() == old(s.Pos()) + 8 + 8 * i && s.Rest() == c[8 * i..]
      invariant v == Wrap64(ToNat(c[..8 * i]))
    {
      var b;
      ok, b := s.ReadByte();
      if !ok {
        return;
      }
      NextOctet(c, 8 * i, b);
      WrapStep(ToNat(c[..8 * i]), 0x100, ByteVal(b));
      v := Wrap64(v * 0x100 + ByteVal(b));
    }
    WrapStep(ToNat(c[..8 * nBytes]), 1, min);
    Content(r, 8 * nBytes);
    v := Wrap64(v + min);
  }

  lemma CountedParts(r: seq<bool>)
    ensures CountedAt(r) == if |r| < 8 || |r| < 8 + 8 * ToNat(r[..8]) then None else Some(r[8..8 + 8 * ToNat(r[..8])])
  {
  }

  lemma Content(r: seq<bool>, n: nat)
    requires 8 + n <= |r|
    ensures r[8..][..n] == r[8..8 + n] && r[8..][n..] == r[8 + n..]
  {
  }

  lemma NextOctet(c: seq<bool>, k: nat, b: byte)
    requires k + 8 <= |c| && ByteBits(b) == c[k..][..8]
    ensures ToNat(c[..k + 8]) == ToNat(c[..k]) * 0x100 + ByteVal(b)
    ensures k > 0 ==> TwosValue(c[..k + 8]) == TwosValue(c[..k]) * 0x100 + ByteVal(b)
    ensures TwosValue(c[..8]) == if k == 0 then ByteVal(b) - (if c[0] then 0x100 else 0) else TwosValue(c[..8])
    ensures c[k..][8..] == c[k + 8..]
  {
    hide Pow2, ToNat, ByteBits;
    var x := c[k..][..8];
    Pow2Values();
    assert c[..k + 8] == c[..k] + x;
    ToNatConcat(c[..k], x);
    if k > 0 {
      TwosStep(c[..k], x);
    }
  }

  method EncodeUnConstraintWholeNumber(s: BitStream, v: sint64)
    requires s.Writable() && s.Room(|UnconstrainedBits(v)|)
    modifies s, s.buf
    ensures s.Writable() && s.Written() == old(s.Written()) + UnconstrainedBits(v)
  {
    hide Unpack, FromNat, SignedOctets, TwosBits;
    ghost var w0 := s.Written();
    var nBytes := GetLengthInBytesOfSInt(v);
    EncodeCount(s, nBytes);
    SignedOctetsLeast(v, nBytes);
    EncodeTwos(s, v, 8 * nBytes);
    AppendTwo(w0, FromNat(nBytes, 8), TwosBits(v, 8 * nBytes));
  }

  /** A two's complement field: sign bits up to the width, then the significant bits. */
  method EncodeTwos(s: BitStream, v: sint64, width: nat)
    requires FitsTwos(v, width)
    requires s.Writable() && s.Room(width)
    modifies s, s.buf
    ensures s.Writable() && s.Written() == old(s.Written()) + TwosBits(v, width)
  {
    if v >= 0 {
      Pow2Monotone(width - 1, width);
      EncodePadded(s, v, width);
    } else {
      var w: int := v;
      EncodeNegative(s, -w - 1, width);
    }
  }

  method EncodeNegative(s: BitStream, u: uint64, width: nat)
    requires u < Pow2(width)
    requires s.Writable() && s.Room(width)
    modifies s, s.buf
    ensures s.Writable() && s.Written() == old(s.Written()) + NotBits(FromNat(u, width))
  {
    hide Unpack, FromNat, Pow2, NumBits;
    ghost var w0 := s.Written();
    var nBits := GetNumberOfBitsForNonNegativeInteger(u);
    NumBitsAtMost(u, width);
    s.AppendNBitOne(width - nBits);
    EncodeNonNegativeIntegerNeg(s, u, true);
    NumBitsBounds(u);
    PadZeros(u, width - nBits, nBits);
    NotConcat(Zeros(width - nBits), FromNat(u, nBits));
    assert NotBits(Zeros(width - nBits)) == Ones(width - nBits);
    AppendTwo(w0, Ones(width - nBits), NotBits(FromNat(u, nBits)));
  }

  method DecodeUnConstraintWholeNumber(s: BitStream) returns (ok: bool, v: sint64)
    requires s.Valid() && Safe(s, UnconstrainedAt(s.Rest()).Some?)
    modifies s
    ensures s.Valid() && ok == UnconstrainedAt(old(s.Rest())).Some?
    ensures ok ==> ghost var (x, n) := UnconstrainedAt(old(s.Rest())).value;
                   v == x && s.Pos() == old(s.Pos()) + n && s.Rest() == old(s.Rest())[n..]
  {
    hide Unpack, ByteBits, ToNat, ByteVal, Wrap64, TwosValue, CountedAt;
    ghost var r := s.Rest();
    CountedParts(r);
    v := 0;
    var nBytes;
    ok, nBytes := DecodeCount(s);
    if !ok {
      return;
    }
    ghost var c := r[8..];
    EmptyTwos(c);
    for i := 0 to nBytes
      invariant ok && s.Valid() && s.Room(0) && 8 + 8 * i <= |r|
      invariant s.Pos() == old(s.Pos()) + 8 + 8 * i && s.Rest() == c[8 * i..]
      invariant v == Wrap64(TwosValue(c[..8 * i]))
    {
      var b;
      ok, b := s.ReadByte();
      if !ok {
        return;
      }
      if i == 0 && b > 0x7F {
        v := -1;
      }
      NextSigned(c, 8 * i, b, v);
      v := Wrap64(v * 0x100 + ByteVal(b));
    }
    Content(r, 8 * nBytes);
  }

  lemma EmptyTwos(c: seq<bool>)
    ensures TwosValue(c[..0]) == 0 && Wrap64(0) == 0
  {
  }

  /** One more octet of a two's complement number; the first one decides the sign. */
  lemma NextSigned(c: seq<bool>, k: nat, b: byte, v: sint64)
    requires k + 8 <= |c| && ByteBits(b) == c[k..][..8]
    requires v == if k == 0 then (if b > 0x7F then -1 else 0) else Wrap64(TwosValue(c[..k]))
    ensures Wrap64(v * 0x100 + ByteVal(b)) == Wrap64(TwosValue(c[..k + 8]))
    ensures c[k..][8..] == c[k + 8..]
  {
    NextOctet(c, k, b);
    if k == 0 {
      assert c[0..][..8] == c[..8];
      SignOctet(c, b);
    } else {
      WrapStep(TwosValue(c[..k]), 0x100, ByteVal(b));
    }
  }

  lemma SignOctet(c: seq<bool>, b: byte)
    requires 8 <= |c| && ByteBits(b) == c[..8]
    ensures c[0] == (b > 0x7F)
  {
    assert ByteBits(b)[0] == c[0];
  }
}
