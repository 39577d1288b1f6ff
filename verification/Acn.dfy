/** The integer encodings of `messages/acn.c` other than decimals. */
module Acn {
  import opened Bits
  import opened Bytes
  import opened BitStreams
  import opened Per
  import opened Integers
  import opened Words

  // ---------------------------------------------------------------- two's complement of any width

  /** The value in the first `w` bits of `r`. */
  function TwosAt(r: seq<bool>, w: nat): Option<sint64> {
    if |r| < w then None else Some(Wrap64(TwosValue(r[..w])))
  }

  /** Every width from 1 to 64 restores every value it can hold. */
  lemma TwosComplementRoundTrip(v: sint64, w: nat, t: seq<bool>)
    requires FitsTwos(v, w)
    ensures TwosAt(TwosBits(v, w) + t, w) == Some(v) && (TwosBits(v, w) + t)[w..] == t
  {
    hide TwosBits, TwosValue, Wrap64;
    assert (TwosBits(v, w) + t)[..w] == TwosBits(v, w);
    TwosRoundTrip(v, w);
    WrapFits(v);
  }

  /** `Acn_Enc_Int_TwosComplement_ConstSize` */
  method EncTwosComplement(s: BitStream, v: sint64, w: nat)
    requires FitsTwos(v, w) && s.Writable() && s.Room(w)
    modifies s, s.buf
    ensures s.Writable() && s.Written() == old(s.Written()) + TwosBits(v, w)
  {
    EncodeTwos(s, v, w);
  }

  /** `Acn_Dec_Int_TwosComplement_ConstSize`: whole octets first, the partial octet last. */
  method DecTwosComplement(s: BitStream, w: nat) returns (ok: bool, v: sint64)
    requires s.Readable(w)
    modifies s
    ensures s.Valid() && ok == TwosAt(old(s.Rest()), w).Some?
    ensures ok ==> v == TwosAt(old(s.Rest()), w).value && s.Rest() == old(s.Rest())[w..]
  {
    hide Unpack, ToNat, Pow2, Wrap64, TwosValue;
    ghost var r := s.Rest();
    EmptyTwos(r);
    ok, v := DecWholeOctets(s, w / 8, w % 8);
    if ok && w % 8 > 0 {
      ok, v := DecLastBits(s, w / 8 == 0, w % 8, v, r, 8 * (w / 8));
    }
  }

  /** The partial octet, `first` if there was no whole one. */
  method DecLastBits(s: BitStream, first: bool, rstBits: nat, v0: sint64, ghost r: seq<bool>, ghost k: nat)
    returns (ok: bool, v: sint64)
    requires 0 < rstBits < 8 && s.Readable(rstBits) && k <= |r| && s.Rest() == r[k..] && first == (k == 0)
    requires v0 == if first then 0 else Wrap64(TwosValue(r[..k]))
    modifies s
    ensures s.Valid() && ok == (k + rstBits <= |r|)
    ensures ok ==> v == Wrap64(TwosValue(r[..k + rstBits])) && s.Rest() == r[k + rstBits..]
  {
    hide Unpack, ByteBits, ByteVal, Wrap64, TwosValue, Pow2;
    var b;
    v := v0;
    ok, b := s.ReadPartialByte(rstBits);
    if ok {
      if first && b & Mask(8 - rstBits) != 0 {
        v := -1;
      }
      LastPart(r, k, rstBits, b, v);
      v := Wrap64(v * Pow2(rstBits) + ByteVal(b));
    }
  }

  /** The loop over whole octets. */
  method DecWholeOctets(s: BitStream, nBytes: nat, ghost rstBits: nat) returns (ok: bool, v: sint64)
    requires rstBits < 8 && s.Readable(8 * nBytes + rstBits)
    modifies s
    ensures s.Valid() && ok == (8 * nBytes <= old(|s.Rest()|))
    ensures ok ==> s.Readable(rstBits) && s.Rest() == old(s.Rest())[8 * nBytes..]
    ensures ok ==> v == Wrap64(TwosValue(old(s.Rest())[..8 * nBytes]))
  {
    hide Unpack, ByteBits, ByteVal, Wrap64, TwosValue, Pow2;
    ghost var r := s.Rest();
    EmptyTwos(r);
    ok, v := true, 0;
    for i := 0 to nBytes
      invariant ok && s.Valid() && s.Readable(8 * (nBytes - i) + rstBits) && 8 * i <= |r|
      invariant s.Rest() == r[8 * i..] && v == Wrap64(TwosValue(r[..8 * i]))
    {
      var b;
      ok, b := s.ReadByte();
      if !ok {
        return;
      }
      if i == 0 && b > 0x7F {
        v := -1;
      }
      NextSigned(r, 8 * i, b, v);
      v := Wrap64(v * 0x100 + ByteVal(b));
    }
  }

  /** The partial octet of a two's complement number; it decides the sign if there is no whole octet. */
  lemma LastPart(r: seq<bool>, k: nat, n: nat, b: byte, v: sint64)
    requires 0 < n < 8 && k + n <= |r| && ByteBits(b) == Zeros(8 - n) + r[k..][..n]
    requires v == if k == 0 then (if Bit(b, 8 - n) then -1 else 0) else Wrap64(TwosValue(r[..k]))
    ensures Wrap64(v * Pow2(n) + ByteVal(b)) == Wrap64(TwosValue(r[..k + n]))
    ensures r[k..][n..] == r[k + n..]
  {
    hide ByteBits, ByteVal, Wrap64, TwosValue, Pow2, Bit;
    var x := r[k..][..n];
    PaddedVal(b, x);
    assert r[..k + n] == r[..k] + x;
    if k > 0 {
      TwosExtend(r[..k], x);
      WrapStep(TwosValue(r[..k]), Pow2(n), ByteVal(b));
    } else {
      SignPart(b, x);
      TwosSign(x);
    }
  }

  lemma SignPart(b: byte, x: seq<bool>)
    requires 0 < |x| < 8 && ByteBits(b) == Zeros(8 - |x|) + x
    ensures Bit(b, 8 - |x|) == x[0]
  {
    hide Bit;
    assert ByteBits(b)[8 - |x|] == x[0];
  }

  lemma TwosSign(x: seq<bool>)
    requires x != []
    ensures TwosValue(x) == (if x[0] then -1 else 0) * Pow2(|x|) + ToNat(x)
  {
  }

  /** Extending a two's complement number at its low end. */
  lemma TwosExtend(a: seq<bool>, x: seq<bool>)
    requires a != []
    ensures TwosValue(a + x) == TwosValue(a) * Pow2(|x|) + ToNat(x)
  {
    hide Pow2, ToNat;
    ToNatConcat(a, x);
    Pow2Add(|a|, |x|);
    TwosSign(a);
    TwosSign(a + x);
    assert (a + x)[0] == a[0];
    assert (ToNat(a) - Pow2(|a|)) * Pow2(|x|) == ToNat(a) * Pow2(|x|) - Pow2(|a|) * Pow2(|x|);
  }

  // ---------------------------------------------------------------- non-negative numbers of any width

  /** `Acn_Enc_Int_PositiveInteger_ConstSize` */
  method EncPositiveInteger(s: BitStream, v: sint64, w: nat)
    requires 0 <= v < Pow2(w) && s.Writable() && s.Room(w)
    modifies s, s.buf
    ensures s.Writable() && s.Written() == old(s.Written()) + FromNat(v, w)
  {
    if w == 0 {
      assert s.Written() + [] == s.Written();
      return;
    }
    EncodePadded(s, v, w);
  }

  /** `Acn_Dec_Int_PositiveInteger_ConstSize` */
  method DecPositiveInteger(s: BitStream, w: nat) returns (ok: bool, v: sint64)
    requires w <= 64 && s.Readable(w)
    modifies s
    ensures s.Valid() && ok == (w <= old(|s.Rest()|))
    ensures ok ==> v == Wrap64(ToNat(old(s.Rest())[..w])) && s.Rest() == old(s.Rest())[w..]
  {
    var tmp;
    ok, tmp := DecodeNonNegativeInteger(s, w);
    v := Wrap64(if ok then tmp else 0);
  }

  // ---------------------------------------------------------------- octet orders

  /** The low `n` octets of a word, least significant first. */
  function LittleEndianBits(u: nat, n: nat): (s: seq<bool>)
    ensures |s| == 8 * n
  {
    if n == 0 then [] else LittleEndianBits(u, n - 1) + FromNat(Shr(u, 8 * (n - 1)), 8)
  }

  function LittleEndianValue(r: seq<bool>, n: nat): nat
    requires 8 * n <= |r|
  {
    if n == 0 then 0 else LittleEndianValue(r, n - 1) + Pow2(8 * (n - 1)) * ToNat(r[8 * (n - 1)..8 * n])
  }

  /** Reading `n` octets in little-endian order gives back the part of the word that they hold. */
  lemma {:induction false} LittleEndianRoundTrip(u: nat, n: nat, t: seq<bool>)
    ensures var r := LittleEndianBits(u, n) + t;
            LittleEndianValue(r, n) == u - Pow2(8 * n) * Shr(u, 8 * n) && r[8 * n..] == t
    ensures u < Pow2(8 * n) ==> LittleEndianValue(LittleEndianBits(u, n) + t, n) == u
  {
    hide Pow2, ToNat, FromNat, Shr;
    if n > 0 {
      var k := 8 * (n - 1);
      var a, x := LittleEndianBits(u, n - 1), FromNat(Shr(u, k), 8);
      LittleEndianRoundTrip(u, n - 1, x + t);
      assert a + x + t == a + (x + t);
      assert (a + (x + t))[k..k + 8] == x;
      LowOctet(u, k);
    } else {
      ShrNothing(u);
    }
    if u < Pow2(8 * n) { ShrSmall(u, 8 * n); }
  }

  lemma ShrNothing(u: nat)
    ensures Pow2(0) * Shr(u, 0) == u && Shr(u, 0) == u
  {
  }

  lemma LowOctet(u: nat, k: nat)
    ensures Pow2(k) * ToNat(FromNat(Shr(u, k), 8)) == Pow2(k) * Shr(u, k) - Pow2(k + 8) * Shr(u, k + 8)
  {
    hide Pow2, FromNat, ToNat;
    var x := Shr(u, k);
    Pow2Values();
    FromNatMod(x % 0x100, 8, x / 0x100);
    ToNatFromNat(x % 0x100, 8);
    ShrAdd(u, k, 8);
    ShrValues(x);
    Pow2Add(k, 8);
    assert x % 0x100 == x - 0x100 * Shr(u, k + 8);
    Regroup(Pow2(k), x, Shr(u, k + 8));
  }

  lemma Regroup(p: int, x: int, y: int)
    ensures p * (x - 0x100 * y) == p * x - (p * 0x100) * y
  {
  }

  /** `Acn_Enc_Int_PositiveInteger_ConstSize_big_endian_B`, also for two's complement numbers. */
  method EncBigEndian(s: BitStream, v: sint64, size: nat)
    requires size <= 8 && s.Writable() && s.Room(8 * size)
    modifies s, s.buf
    ensures s.Writable() && s.Written() == old(s.Written()) + FromNat(Unsigned64(v), 8 * size)
  {
    var tmp := Int2UInt(v);
    PutOctets(s, tmp, size);
  }

  /** The low `n` octets of a word, most significant first. */
  method PutOctets(s: BitStream, u: uint64, n: nat)
    requires n <= 8 && s.Writable() && s.Room(8 * n)
    modifies s, s.buf
    ensures s.Writable() && s.Written() == old(s.Written()) + FromNat(u, 8 * n)
  {
    hide Unpack, ByteBits, FromNat, Shr;
    ghost var w0 := s.Written();
    NothingYet(u, 8 * n, false);
    for i := 0 to n
      invariant s.Writable() && s.Room(8 * (n - i))
      invariant s.Written() == w0 + FromNat(Shr(u, 8 * (n - i)), 8 * i)
    {
      NextField(u, 8 * (n - i - 1), 8 * i, false);
      AppendTwo(w0, FromNat(Shr(u, 8 * (n - i)), 8 * i), ByteBits(ByteOf(Shr(u, 8 * (n - i - 1)))));
      s.AppendByte0(ByteOf(Shr(u, 8 * (n - i - 1))));
    }
  }

  /** `Acn_Enc_Int_PositiveInteger_ConstSize_little_endian_N`, also for two's complement numbers. */
  method EncLittleEndian(s: BitStream, v: sint64, size: nat)
    requires size <= 8 && s.Writable() && s.Room(8 * size)
    modifies s, s.buf
    ensures s.Writable() && s.Written() == old(s.Written()) + LittleEndianBits(Unsigned64(v), size)
  {
    hide Unpack, ByteBits, FromNat, Shr;
    ghost var w0 := s.Written();
    var tmp: nat := Int2UInt(v);
    ghost var u := tmp;
    NothingYet(u, 0, false);
    for i := 0 to size
      invariant s.Writable() && s.Room(8 * (size - i))
      invariant s.Written() == w0 + LittleEndianBits(u, i) && tmp == Shr(u, 8 * i)
    {
      ByteOfBits(tmp);
      AppendTwo(w0, LittleEndianBits(u, i), FromNat(tmp, 8));
      ShrAdd(u, 8 * i, 8);
      s.AppendByte0(ByteOf(tmp));
      tmp := Shr(tmp, 8);
    }
  }

  /** `Acn_Dec_Int_PositiveInteger_ConstSize_big_endian_N` up to the conversion of the word. */
  method DecBigEndian(s: BitStream, size: nat) returns (ok: bool, ret: uint64)
    requires size <= 8 && s.Readable(8 * size)
    modifies s
    ensures s.Valid() && ok == (8 * size <= old(|s.Rest()|))
    ensures ok ==> ret == ToNat(old(s.Rest())[..8 * size]) && s.Rest() == old(s.Rest())[8 * size..]
  {
    hide Unpack, ByteBits, ByteVal, ToNat, Pow2;
    ghost var r := s.Rest();
    EmptyField(r);
    ok, ret := true, 0;
    for i := 0 to size
      invariant ok && s.Valid() && s.Readable(8 * (size - i)) && 8 * i <= |r|
      invariant s.Rest() == r[8 * i..] && ret == ToNat(r[..8 * i])
    {
      var b;
      ok, b := s.ReadByte();
      if !ok {
        return;
      }
      NextOctet(r, 8 * i, b);
      FieldFits(r, 8 * i + 8);
      ret := ret * 0x100 + ByteVal(b);
    }
  }

  lemma FieldFits(r: seq<bool>, n: nat)
    requires n <= 64 && n <= |r|
    ensures ToNat(r[..n]) < TWO64
  {
    Pow2Values();
    ToNatBound(r[..n]);
    Pow2Monotone(n, 64);
  }

  /** `Acn_Dec_Int_PositiveInteger_ConstSize_little_endian_N` up to the conversion of the word. */
  method DecLittleEndian(s: BitStream, size: nat) returns (ok: bool, ret: uint64)
    requires size <= 8 && s.Readable(8 * size)
    modifies s
    ensures s.Valid() && ok == (8 * size <= old(|s.Rest()|))
    ensures ok ==> ret == LittleEndianValue(old(s.Rest()), size) && s.Rest() == old(s.Rest())[8 * size..]
  {
    hide Unpack, ByteBits, ByteVal, ToNat, Pow2;
    ghost var r := s.Rest();
    ok, ret := true, 0;
    for i := 0 to size
      invariant ok && s.Valid() && s.Readable(8 * (size - i)) && 8 * i <= |r|
      invariant s.Rest() == r[8 * i..] && ret == LittleEndianValue(r, i)
    {
      var b;
      ok, b := s.ReadByte();
      if !ok {
        return;
      }
      NextLittle(r, i, b);
      ret := ret + Pow2(8 * i) * ByteVal(b);
    }
  }

  lemma NextLittle(r: seq<bool>, i: nat, b: byte)
    requires i < 8 && 8 * i + 8 <= |r| && ByteBits(b) == r[8 * i..][..8]
    ensures LittleEndianValue(r, i) + Pow2(8 * i) * ByteVal(b) == LittleEndianValue(r, i + 1) < TWO64
    ensures r[8 * i..][8..] == r[8 * (i + 1)..]
  {
    hide ByteBits, Pow2, ToNat;
    var k := 8 * i;
    var l := k + 8;
    assert r[k..][..8] == r[k..l] && r[k..][8..] == r[l..];
    LittleEndianBound(r, i + 1);
    WordBound(l);
  }

  lemma WordBound(w: nat)
    requires w <= 64
    ensures Pow2(w) <= TWO64
  {
    Pow2Values();
    Pow2Monotone(w, 64);
  }

  lemma {:induction false} LittleEndianBound(r: seq<bool>, n: nat)
    requires 8 * n <= |r|
    ensures LittleEndianValue(r, n) < Pow2(8 * n)
  {
    if n > 0 {
      LittleEndianBound(r, n - 1);
      var k := 8 * (n - 1);
      ToNatBound(r[k..k + 8]);
      Pow2Values();
      Pow2Add(8, k);
      Scale(Pow2(k), ToNat(r[k..k + 8]));
    }
  }

  lemma Scale(p: nat, x: nat)
    requires x <= 0xFF
    ensures p * x <= 0xFF * p
  {
  }

  /** The two's complement decoders for whole octets in either order. */
  method DecTwosOctets(s: BitStream, size: nat, little: bool) returns (ok: bool, v: sint64)
    requires 1 <= size <= 8 && s.Readable(8 * size)
    modifies s
    ensures s.Valid() && ok == (8 * size <= old(|s.Rest()|))
    ensures ok ==> var r := old(s.Rest());
                   var u := if little then LittleEndianValue(r, size) else ToNat(r[..8 * size]);
                   v == (if u < Pow2(8 * size - 1) then u else u - Pow2(8 * size)) && s.Rest() == r[8 * size..]
  {
    hide Unpack, ToNat, Pow2, LittleEndianValue, Unsigned64, Wrap64;
    ghost var r := s.Rest();
    var tmp;
    v := 0;
    if little {
      ok, tmp := DecLittleEndian(s, size);
      if ok { LittleEndianBound(r, size); }
    } else {
      ok, tmp := DecBigEndian(s, size);
      if ok { ToNatBound(r[..8 * size]); }
    }
    if ok {
      v := UInt2Int(tmp, size);
    }
  }

  /** Two's complement numbers of whole octets in either order: what is encoded is what is decoded. */
  lemma OctetOrdersRoundTrip(v: sint64, n: nat, t: seq<bool>)
    requires 1 <= n <= 8 && FitsTwos(v, 8 * n)
    ensures var u := ToNat(TwosBits(v, 8 * n));
            && ToNat((FromNat(Unsigned64(v), 8 * n) + t)[..8 * n]) == u
            && LittleEndianValue(LittleEndianBits(Unsigned64(v), n) + t, n) == u
            && u < Pow2(8 * n) && v == if u < Pow2(8 * n - 1) then u else u - Pow2(8 * n)
  {
    hide Pow2, FromNat, ToNat, TwosBits, TwosValue;
    var w, f, u := 8 * n, FromNat(Unsigned64(v), 8 * n), Unsigned64(v);
    LowBits(v, w);
    assert (f + t)[..w] == f;
    FieldValue(f);
    TwosRoundTrip(v, w);
    LittleEndianRoundTrip(u, n, t);
    LowPartOf(u, w);
  }

  lemma LowPartOf(u: nat, w: nat)
    ensures ToNat(FromNat(u, w)) == u - Pow2(w) * Shr(u, w)
  {
    hide FromNat, ToNat, Pow2, Shr;
    ShrBounds(u, w);
    var low := u - Pow2(w) * Shr(u, w);
    FromNatMod(low, w, Shr(u, w));
    ToNatFromNat(low, w);
  }

  // ---------------------------------------------------------------- behind a length octet

  /** `Encode_UnsignedInteger`: the octets leave at the top of the shifted word. */
  method EncodeUnsignedInteger(s: BitStream, val: uint64, nBytes: nat)
    requires 1 <= nBytes <= 8 && s.Writable() && s.Room(8 * nBytes)
    modifies s, s.buf
    ensures s.Writable() && s.Written() == old(s.Written()) + FromNat(val, 8 * nBytes)
  {
    hide Unpack, ByteBits, FromNat, Shr, Pow2, ShiftLeft64;
    ghost var w0 := s.Written();
    var v := ShiftLeft64(val, 64 - 8 * nBytes);
    NothingYet(val, 8 * nBytes, false);
    for i := 0 to nBytes
      invariant s.Writable() && s.Room(8 * (nBytes - i))
      invariant s.Written() == w0 + FromNat(Shr(val, 8 * (nBytes - i)), 8 * i)
      invariant v == ShiftLeft64(val, 64 - 8 * (nBytes - i))
    {
      var k := 8 * (nBytes - i);
      TopOctet(val, k);
      NextField(val, k - 8, 8 * i, false);
      AppendTwo(w0, FromNat(Shr(val, k), 8 * i), ByteBits(ByteOf(Shr(val, k - 8))));
      SameOctet(Shr(v, 56), Shr(val, k - 8));
      s.AppendByte0(ByteOf(Shr(v, 56)));
      ShiftTwice(val, 64 - k);
      v := ShiftLeft64(v, 8);
    }
  }

  lemma SameOctet(x: nat, y: nat)
    requires FromNat(x, 8) == FromNat(y, 8)
    ensures ByteOf(x) == ByteOf(y)
  {
  }

  lemma ShiftTwice(val: uint64, a: nat)
    ensures ShiftLeft64(ShiftLeft64(val, a), 8) == ShiftLeft64(val, a + 8)
  {
    hide Pow2;
    Pow2Values();
    Pow2Add(a, 8);
    MulAssoc(val, Pow2(a), 0x100);
    ModScale(val * Pow2(a));
  }

  lemma ModScale(x: nat)
    ensures (x % TWO64 * 0x100) % TWO64 == (x * 0x100) % TWO64
  {
    var k, r := x / TWO64, x % TWO64;
    assert x * 0x100 == r * 0x100 + TWO64 * (0x100 * k);
    ModPeriodic(r * 0x100, 0x100 * k);
  }

  lemma ModPeriodic(x: nat, k: nat)
    ensures (x + TWO64 * k) % TWO64 == x % TWO64
  {
  }

  lemma {:induction false} ShrScale(x: nat, a: nat, b: nat)
    ensures Shr(x * Pow2(a), a + b) == Shr(x, b)
  {
    if a > 0 {
      var p := Pow2(a - 1);
      MulAssoc(x, 2, p);
      MulAssoc(2, x, p);
      assert x * Pow2(a) == 2 * (x * p);
      ShrScale(x, a - 1, b);
    }
  }

  lemma {:induction false} ShrHigh(x: nat, q: nat, a: nat, b: nat)
    ensures Shr(x + q * Pow2(a + b), a) == Shr(x, a) + q * Pow2(b)
  {
    if a > 0 {
      var p := Pow2(a - 1 + b);
      MulAssoc(q, 2, p);
      MulAssoc(2, q, p);
      assert (x + q * Pow2(a + b)) / 2 == x / 2 + q * p;
      ShrHigh(x / 2, q, a - 1, b);
    }
  }

  /** The octet at the top of the shifted word is the one at position `k - 8` of the number. */
  lemma TopOctet(val: uint64, k: nat)
    requires 8 <= k <= 64
    ensures FromNat(Shr(ShiftLeft64(val, 64 - k), 56), 8) == FromNat(Shr(val, k - 8), 8)
  {
    hide Pow2, Shr, FromNat;
    var p, q := Pow2(64 - k), Shr(val, k);
    ShrBounds(val, k);
    var x := val - Pow2(k) * q;
    Pow2Values();
    Pow2Add(k, 64 - k);
    assert val == x + q * Pow2(k);
    calc {
      val * p;
      (x + q * Pow2(k)) * p;
      x * p + (q * Pow2(k)) * p;
      { MulAssoc(q, Pow2(k), p); }
      x * p + q * TWO64;
    }
    Below(x, Pow2(k), p);
    ModPeriodic(x * p, q);
    ShrScale(x, 64 - k, k - 8);
    ShrHigh(x, q, k - 8, 8);
    FromNatMod(Shr(x, k - 8), 8, q);
  }

  lemma Below(x: nat, a: nat, p: nat)
    requires x < a && a * p == TWO64
    ensures (x * p) % TWO64 == x * p
  {
    assert x * p <= (a - 1) * p;
    assert p > 0;
  }

  /** `Acn_Enc_Int_PositiveInteger_VarSize_LengthEmbedded` */
  method EncPositiveVarSize(s: BitStream, v: sint64)
    requires v >= 0 && s.Writable() && s.Room(|SemiConstrainedBits(v, 0)|)
    modifies s, s.buf
    ensures s.Writable() && s.Written() == old(s.Written()) + SemiConstrainedBits(v, 0)
  {
    hide Unpack, ByteBits, FromNat, UnsignedOctets;
    ghost var w0 := s.Written();
    var n := GetLengthInBytesOfUInt(v);
    ByteOfBits(n);
    s.AppendByte0(ByteOf(n));
    EncodeUnsignedInteger(s, v, n);
    AppendTwo(w0, FromNat(n, 8), FromNat(v, 8 * n));
  }

  /** `Acn_Enc_Int_TwosComplement_VarSize_LengthEmbedded`: the same bits as an unconstrained whole number. */
  method EncTwosVarSize(s: BitStream, v: sint64)
    requires s.Writable() && s.Room(|UnconstrainedBits(v)|)
    modifies s, s.buf
    ensures s.Writable() && s.Written() == old(s.Written()) + UnconstrainedBits(v)
  {
    hide Unpack, ByteBits, FromNat, SignedOctets, TwosBits;
    ghost var w0 := s.Written();
    var n := GetLengthInBytesOfSInt(v);
    ByteOfBits(n);
    s.AppendByte0(ByteOf(n));
    var u := Int2UInt(v);
    SignedOctetsLeast(v, n);
    LowBits(v, 8 * n);
    EncodeUnsignedInteger(s, u, n);
    AppendTwo(w0, FromNat(n, 8), TwosBits(v, 8 * n));
  }

  /**
   * `Acn_Dec_Int_TwosComplement_VarSize_LengthEmbedded`, on an unsigned word that starts as all ones for a negative
   * number.
   */
  method DecTwosVarSize(s: BitStream) returns (ok: bool, v: sint64)
    requires s.Valid() && Safe(s, UnconstrainedAt(s.Rest()).Some?)
    modifies s
    ensures s.Valid() && ok == UnconstrainedAt(old(s.Rest())).Some?
    ensures ok ==> var o := UnconstrainedAt(old(s.Rest())).value;
                   v == o.0 && s.Rest() == old(s.Rest())[o.1..]
  {
    hide Unpack, ByteBits, ToNat, ByteVal, Wrap64, TwosValue, CountedAt, Unsigned64;
    ghost var r := s.Rest();
    CountedParts(r);
    v := 0;
    var b;
    ok, b := s.ReadByte();
    if !ok {
      return;
    }
    var nBytes := ByteVal(b);
    LengthOctet(r, b);
    ghost var c := r[8..];
    var w: uint64, isNegative := 0, false;
    EmptyWord(c);
    for i := 0 to nBytes
      invariant ok && s.Valid() && s.Room(0) && 8 + 8 * i <= |r|
      invariant s.Rest() == c[8 * i..] && w == Unsigned64(TwosValue(c[..8 * i]))
    {
      ok, b := s.ReadByte();
      if !ok {
        return;
      }
      if i == 0 && b & 0x80 > 0 {
        w, isNegative := TWO64 - 1, true;
      }
      NextWord(c, 8 * i, b, w);
      w := Unsigned64(w * 0x100 + ByteVal(b));
    }
    Content(r, 8 * nBytes);
    NegatedBack(w);
    SameWrap(TwosValue(c[..8 * nBytes]));
    if isNegative {
      v := Wrap64(-1 - Wrap64(Not64(w)));
    } else {
      v := Wrap64(w);
    }
  }

  /** `Acn_Dec_Int_PositiveInteger_VarSize_LengthEmbedded` */
  method DecPositiveVarSize(s: BitStream) returns (ok: bool, v: sint64)
    requires s.Valid() && Safe(s, SemiConstrainedAt(s.Rest(), 0).Some?)
    modifies s
    ensures s.Valid() && ok == SemiConstrainedAt(old(s.Rest()), 0).Some?
    ensures ok ==> var o := SemiConstrainedAt(old(s.Rest()), 0).value;
                   v == o.0 && s.Rest() == old(s.Rest())[o.1..]
  {
    hide Unpack, ByteBits, ToNat, ByteVal, Wrap64, CountedAt, Unsigned64;
    ghost var r := s.Rest();
    CountedParts(r);
    v := 0;
    var b;
    ok, b := s.ReadByte();
    if !ok {
      return;
    }
    var nBytes := ByteVal(b);
    LengthOctet(r, b);
    ghost var c := r[8..];
    var w: uint64 := 0;
    EmptyField(c);
    SmallWord(0);
    for i := 0 to nBytes
      invariant ok && s.Valid() && s.Room(0) && 8 + 8 * i <= |r|
      invariant s.Rest() == c[8 * i..] && w == Unsigned64(ToNat(c[..8 * i]))
    {
      ok, b := s.ReadByte();
      if !ok {
        return;
      }
      NextOctet(c, 8 * i, b);
      WordStep(ToNat(c[..8 * i]), ByteVal(b));
      w := Unsigned64(w * 0x100 + ByteVal(b));
    }
    Content(r, 8 * nBytes);
    SameWrap(ToNat(c[..8 * nBytes]));
    v := Wrap64(w);
  }

  lemma SmallWord(x: uint64)
    ensures Unsigned64(x) == x
  {
  }

  lemma LengthOctet(r: seq<bool>, b: byte)
    requires 8 <= |r| && ByteBits(b) == r[..8]
    ensures ByteVal(b) == ToNat(r[..8])
  {
  }

  lemma EmptyWord(c: seq<bool>)
    ensures Unsigned64(TwosValue(c[..0])) == 0
  {
  }

  lemma NegatedBack(w: uint64)
    ensures Wrap64(-1 - Wrap64(Not64(w))) == Wrap64(w)
  {
  }

  lemma SameWrap(x: int)
    ensures Wrap64(Unsigned64(x)) == Wrap64(x)
  {
  }

  lemma NextWord(c: seq<bool>, k: nat, b: byte, w: uint64)
    requires k + 8 <= |c| && ByteBits(b) == c[k..][..8]
    requires w == if k == 0 then (if b & 0x80 > 0 then TWO64 - 1 else 0) else Unsigned64(TwosValue(c[..k]))
    ensures Unsigned64(w * 0x100 + ByteVal(b)) == Unsigned64(TwosValue(c[..k + 8]))
    ensures c[k..][8..] == c[k + 8..]
  {
    hide ByteBits, ByteVal, TwosValue, Unsigned64;
    NextOctet(c, k, b);
    if k == 0 {
      assert c[0..][..8] == c[..8];
      SignOctet(c, b);
      assert b & 0x80 > 0 <==> b > 0x7F;
      FirstWord(ByteVal(b));
    } else {
      WordStep(TwosValue(c[..k]), ByteVal(b));
    }
  }

  lemma FirstWord(b: nat)
    ensures Unsigned64((TWO64 - 1) * 0x100 + b) == Unsigned64(b - 0x100)
  {
  }
}
