/**
 * The basic encoding rules of `messages/ber.c`: tags, lengths (section 8.1.3 of ITU-T X.690), integers
 * (section 8.3), octet strings and bit strings (section 8.6).
 */
module Ber {
  import opened Bits
  import opened Bytes
  import opened Per
  import opened Integers
  import opened Words

  // ---------------------------------------------------------------- octets and numbers

  /** The low `n` octets of a number, most significant first. */
  function BigEndian(v: nat, n: nat): (s: seq<byte>)
    ensures |s| == n
  {
    if n == 0 then [] else BigEndian(v / 0x100, n - 1) + [ByteOf(v)]
  }

  function FromOctets(s: seq<byte>): nat {
    if s == [] then 0 else FromOctets(s[..|s| - 1]) * 0x100 + ByteVal(s[|s| - 1])
  }

  lemma {:induction false} FromOctetsBound(s: seq<byte>)
    ensures FromOctets(s) < Pow2(8 * |s|)
  {
    if s != [] {
      FromOctetsBound(s[..|s| - 1]);
      Pow2Values();
      Pow2Add(8, 8 * (|s| - 1));
    }
  }

  lemma OctetVal(v: nat)
    ensures ByteVal(ByteOf(v)) == v % 0x100
  {
    hide FromNat, ToNat;
    Pow2Values();
    ByteOfBits(v);
    FromNatMod(v % 0x100, 8, v / 0x100);
    ToNatFromNat(v % 0x100, 8);
  }

  /** A number that fits is restored from its octets. */
  lemma {:induction false} FromBigEndian(v: nat, n: nat)
    requires v < Pow2(8 * n)
    ensures FromOctets(BigEndian(v, n)) == v
  {
    hide ByteOf, ByteVal, Pow2;
    if n == 0 {
      NothingFits(v);
    } else {
      FitsOctet(v, n);
      FromBigEndian(v / 0x100, n - 1);
      OctetsSnoc(BigEndian(v / 0x100, n - 1), ByteOf(v));
      OctetVal(v);
    }
  }

  /** The octets behind the first of `n + 1`. */
  lemma BehindFirst(r: seq<byte>, n: nat, k: nat)
    requires k <= n < |r|
    ensures |r[..n + 1]| == n + 1 && r[..n + 1][1..][..k] == r[1..][..k]
  {
  }

  lemma NothingFits(v: nat)
    requires v < Pow2(0)
    ensures v == 0
  {
  }

  lemma FitsOctet(v: nat, n: nat)
    requires n > 0 && v < Pow2(8 * n)
    ensures v / 0x100 < Pow2(8 * (n - 1))
  {
    Pow2Values();
    Pow2Add(8, 8 * (n - 1));
  }

  lemma OctetsSnoc(s: seq<byte>, b: byte)
    ensures FromOctets(s + [b]) == 0x100 * FromOctets(s) + ByteVal(b)
  {
    assert (s + [b])[..|s|] == s;
  }

  /** The part of a word that its low `n` octets hold. */
  lemma {:induction false} LowOctets(v: nat, n: nat)
    ensures FromOctets(BigEndian(v, n)) == ToNat(FromNat(v, 8 * n))
  {
    hide ByteOf, ByteVal, FromNat, ToNat, Pow2;
    if n > 0 {
      LowOctets(v / 0x100, n - 1);
      FromNatSplit(v, 8 * (n - 1), 8);
      ToNatConcat(FromNat(v / 0x100, 8 * (n - 1)), FromNat(v, 8));
      ShrValues(v);
      Pow2Values();
      ByteOfBits(v);
      WholeOctet(ByteOf(v));
    } else {
      NoOctets(v);
    }
  }

  lemma WholeOctet(b: byte)
    ensures ByteVal(b) == ToNat(ByteBits(b))
  {
  }

  lemma NoOctets(v: nat)
    ensures FromOctets(BigEndian(v, 0)) == ToNat(FromNat(v, 0))
  {
  }

  // ---------------------------------------------------------------- encodings

  /** A tag: the octets of its number. */
  function TagOctets(tag: nat): seq<byte> {
    BigEndian(tag, UnsignedOctets(tag))
  }

  /** Short form up to 127, otherwise the octet count with the high bit set and the octets. */
  function LengthOctets(n: nat): seq<byte> {
    if n <= 0x7F then [ByteOf(n)] else [ByteOf(0x80 + UnsignedOctets(n))] + BigEndian(n, UnsignedOctets(n))
  }

  function IntegerOctets(tag: nat, v: int): seq<byte> {
    TagOctets(tag) + [ByteOf(SignedOctets(v))] + BigEndian(Unsigned64(v), SignedOctets(v))
  }

  function OctetStringOctets(tag: nat, value: seq<byte>): seq<byte> {
    TagOctets(tag) + LengthOctets(|value|) + value
  }

  /** The octets that `n` bits take. */
  function OctetsFor(n: nat): nat { (n + 7) / 8 }

  /** The first content octet counts the unused bits of the last one. */
  function BitStringOctets(tag: nat, value: seq<byte>, bitCount: nat): seq<byte>
    requires OctetsFor(bitCount) <= |value|
  {
    var n := OctetsFor(bitCount);
    TagOctets(tag) + LengthOctets(n + 1) + [ByteOf(8 * n - bitCount)] + value[..n]
  }

  // ---------------------------------------------------------------- parsers

  datatype Found<+T> = Found(value: T, rest: seq<byte>)

  /** `v | 1 << k` */
  function SetBit(v: nat, k: nat): nat {
    if Shr(v, k) % 2 == 0 then v + Pow2(k) else v
  }

  /** The primitive/constructed bit of the leading octet is not compared. */
  predicate SameTag(tag: nat, found: nat)
  {
    SetBit(tag, 8 * UnsignedOctets(tag) - 3) == SetBit(found, 8 * UnsignedOctets(tag) - 3)
  }

  function TagAt(r: seq<byte>, tag: nat): Option<seq<byte>> {
    var n := UnsignedOctets(tag);
    if n <= |r| && SameTag(tag, FromOctets(r[..n])) then Some(r[n..]) else None
  }

  /** Minus one stands for the indefinite form. */
  function LengthAt(r: seq<byte>): Option<Found<int>> {
    if r == [] then None
    else
      var b := ByteVal(r[0]);
      if b < 0x80 then Some(Found(b, r[1..]))
      else if b == 0x80 then Some(Found(-1, r[1..]))
      else
        var k := b - 0x7F;
        if |r| < k then None else Some(Found(Wrap32(FromOctets(r[1..k])), r[k..]))
  }

  /** Tag and length. */
  function HeadAt(r: seq<byte>, tag: nat): Option<Found<int>> {
    match TagAt(r, tag)
    case None => None
    case Some(t) => LengthAt(t)
  }

  /** The next `n` octets, or none if `n` is negative. */
  function Count(n: int): nat { if n < 0 then 0 else n }

  function ContentAt(r: seq<byte>, tag: nat): Option<Found<seq<byte>>> {
    match HeadAt(r, tag)
    case None => None
    case Some(h) => if |h.rest| < Count(h.value) then None
      else Some(Found(h.rest[..Count(h.value)], h.rest[Count(h.value)..]))
  }

  /** The two's complement number that octets hold. */
  function SignedValue(c: seq<byte>): int
    requires c != []
  {
    var u := FromOctets(c);
    if u < Pow2(8 * |c| - 1) then u else u - Pow2(8 * |c|)
  }

  // ---------------------------------------------------------------- round trips

  lemma TagRoundTrip(tag: nat, t: seq<byte>)
    requires tag > 0
    ensures TagAt(TagOctets(tag) + t, tag) == Some(t)
  {
    hide FromOctets, BigEndian, UnsignedOctets;
    var n := UnsignedOctets(tag);
    var r := TagOctets(tag) + t;
    assert r[..n] == TagOctets(tag) && r[n..] == t;
    UnsignedOctetsLeast(tag, n);
    FromBigEndian(tag, n);
  }

  /** A tag is recognised exactly in its two forms, primitive and constructed. */
  lemma SameTagExactly(tag: nat, found: nat)
    ensures var p := Pow2(8 * UnsignedOctets(tag) - 3);
            var constructed := SetBit(tag, 8 * UnsignedOctets(tag) - 3);
            SameTag(tag, found) <==> found == constructed || found == constructed - p
  {
    hide Pow2, Shr, UnsignedOctets;
    var k := 8 * UnsignedOctets(tag) - 3;
    BitOf(tag, k);
    BitOf(found, k);
    BitOf(SetBit(tag, k) - Pow2(k), k);
  }

  /** Setting a bit that is clear changes only that bit. */
  lemma BitOf(v: nat, k: nat)
    ensures Shr(v, k) % 2 == 0 ==> Shr(v + Pow2(k), k) % 2 == 1
    ensures Shr(v, k) % 2 == 1 ==> v >= Pow2(k) && Shr(v - Pow2(k), k) % 2 == 0
    ensures SetBit(v, k) >= Pow2(k)
  {
    ShrPlus(v, k);
    ShrPositive(v, k);
    if v >= Pow2(k) { ShrPlus(v - Pow2(k), k); }
  }

  lemma {:induction false} ShrPlus(v: nat, k: nat)
    ensures Shr(v + Pow2(k), k) == Shr(v, k) + 1
  {
    if k > 0 {
      assert (v + Pow2(k)) / 2 == v / 2 + Pow2(k - 1);
      ShrPlus(v / 2, k - 1);
    }
  }

  /** All lengths that a 32-bit `int` can hold, in short and long form. */
  lemma LengthRoundTrip(n: nat, t: seq<byte>)
    requires n < 0x8000_0000
    ensures LengthAt(LengthOctets(n) + t) == Some(Found(n, t))
  {
    hide FromOctets, BigEndian, UnsignedOctets, ByteVal, ByteOf, LengthAt, Wrap32, Pow2;
    var k := UnsignedOctets(n);
    if n <= 0x7F {
      ShortLength(n, t);
    } else {
      LengthCount(n);
      UnsignedOctetsLeast(n, k);
      FromBigEndian(n, k);
      LongLength(BigEndian(n, k), t);
      assert [ByteOf(0x80 + k)] + BigEndian(n, k) + t == [ByteOf(0x80 + k)] + (BigEndian(n, k) + t);
      SmallLength(n);
    }
  }

  lemma LengthCount(n: nat)
    requires n < 0x8000_0000
    ensures UnsignedOctets(n) <= 4
  {
    Pow2Values();
    UnsignedOctetsLeast(n, 4);
  }

  lemma SmallLength(n: nat)
    requires n < 0x8000_0000
    ensures Wrap32(n) == n
  {
  }

  lemma ShortLength(n: nat, t: seq<byte>)
    requires n <= 0x7F
    ensures LengthAt([ByteOf(n)] + t) == Some(Found(n, t))
  {
    hide ByteVal, ByteOf;
    OctetVal(n);
    assert ([ByteOf(n)] + t)[1..] == t;
  }

  lemma LongLength(c: seq<byte>, t: seq<byte>)
    requires 1 <= |c| <= 4
    ensures LengthAt([ByteOf(0x80 + |c|)] + (c + t)) == Some(Found(Wrap32(FromOctets(c)), t))
  {
    hide *;
    var k := 1 + |c|;
    OctetVal(0x7F + k);
    LengthParts(ByteOf(0x7F + k), c, t);
    LengthAtIs([ByteOf(0x7F + k)] + (c + t), k);
  }

  lemma LengthParts(b: byte, c: seq<byte>, t: seq<byte>)
    ensures var r, k := [b] + (c + t), 1 + |c|;
            |r| >= k && r[0] == b && r[1..k] == c && r[k..] == t
  {
  }

  lemma LengthAtIs(r: seq<byte>, k: nat)
    requires 2 <= k <= |r| && k <= 0x80 && ByteVal(r[0]) == 0x7F + k
    ensures LengthAt(r) == Some(Found(Wrap32(FromOctets(r[1..k])), r[k..]))
  {
    hide ByteVal, Wrap32, FromOctets;
  }

  lemma HeadRoundTrip(tag: nat, n: nat, t: seq<byte>)
    requires tag > 0 && n < 0x8000_0000
    ensures HeadAt(TagOctets(tag) + (LengthOctets(n) + t), tag) == Some(Found(n, t))
  {
    hide TagAt, LengthAt, TagOctets, LengthOctets;
    TagRoundTrip(tag, LengthOctets(n) + t);
    LengthRoundTrip(n, t);
  }

  lemma ContentRoundTrip(tag: nat, c: seq<byte>, t: seq<byte>)
    requires tag > 0 && |c| < 0x8000_0000
    ensures ContentAt(TagOctets(tag) + (LengthOctets(|c|) + (c + t)), tag) == Some(Found(c, t))
  {
    hide HeadAt, TagOctets, LengthOctets;
    HeadRoundTrip(tag, |c|, c + t);
    assert (c + t)[..|c|] == c && (c + t)[|c|..] == t;
  }

  /** Every 64-bit value is restored from the fewest octets whose two's complement range holds it. */
  lemma IntegerRoundTrip(tag: nat, v: sint64, t: seq<byte>)
    requires tag > 0
    ensures var n := SignedOctets(v);
            var c := BigEndian(Unsigned64(v), n);
            && n <= 8 && (forall k: nat | 1 <= k < n :: !FitsTwos(v, 8 * k))
            && ContentAt(IntegerOctets(tag, v) + t, tag) == Some(Found(c, t)) && SignedValue(c) == v
  {
    hide BigEndian, SignedOctets, Unsigned64, TagOctets, ContentAt, FromOctets, FitsTwos;
    var n := SignedOctets(v);
    var c := BigEndian(Unsigned64(v), n);
    AtMostEight(v);
    forall k: nat | 1 <= k < n ensures !FitsTwos(v, 8 * k) { SignedOctetsLeast(v, k); }
    assert IntegerOctets(tag, v) + t == TagOctets(tag) + ([ByteOf(n)] + (c + t));
    ContentRoundTrip(tag, c, t);
    SignedOctetsLeast(v, n);
    OctetsOfSigned(v, n);
  }

  lemma OctetsOfSigned(v: sint64, n: nat)
    requires 1 <= n <= 8 && FitsTwos(v, 8 * n)
    ensures SignedValue(BigEndian(Unsigned64(v), n)) == v
  {
    hide BigEndian, Unsigned64, FromOctets, Pow2, ToNat, FromNat, TwosBits, TwosValue;
    LowOctets(Unsigned64(v), n);
    LowBits(v, 8 * n);
    FieldValue(TwosBits(v, 8 * n));
    TwosRoundTrip(v, 8 * n);
  }

  lemma OctetStringRoundTrip(tag: nat, value: seq<byte>, t: seq<byte>)
    requires tag > 0 && |value| < 0x8000_0000
    ensures ContentAt(OctetStringOctets(tag, value) + t, tag) == Some(Found(value, t))
  {
    hide ContentAt, TagOctets, LengthOctets;
    assert OctetStringOctets(tag, value) + t == TagOctets(tag) + (LengthOctets(|value|) + (value + t));
    ContentRoundTrip(tag, value, t);
  }

  /** The content of a bit string; its first octet is read whatever the length says. */
  function BitContentAt(r: seq<byte>, tag: nat): (o: Option<Found<seq<byte>>>)
    ensures o.Some? ==> o.value.value != []
  {
    match HeadAt(r, tag)
    case None => None
    case Some(h) =>
      var n := 1 + Count(h.value - 1);
      if |h.rest| < n then None else Some(Found(h.rest[..n], h.rest[n..]))
  }

  /** The bits of a content of which `max` octets are kept: the unused ones count only if all of it is. */
  function BitCount(c: seq<byte>, max: nat): int
    requires c != []
  {
    if |c| - 1 <= max then 8 * (|c| - 1) - ByteVal(c[0]) else 8 * max
  }

  /** A bit string keeps its bit count and its octets if there is room for them. */
  lemma BitStringRoundTrip(tag: nat, value: seq<byte>, bitCount: nat, max: nat, t: seq<byte>)
    requires tag > 0 && OctetsFor(bitCount) <= |value| && bitCount < 0x8000_0000 && OctetsFor(bitCount) <= max
    ensures var c := BitContentAt(BitStringOctets(tag, value, bitCount) + t, tag);
            c.Some? && c.value.rest == t
            && c.value.value[1..] == value[..OctetsFor(bitCount)] && BitCount(c.value.value, max) == bitCount
  {
    hide HeadAt, TagOctets, LengthOctets, ByteOf, ByteVal;
    var n := OctetsFor(bitCount);
    var c := [ByteOf(8 * n - bitCount)] + value[..n];
    assert BitStringOctets(tag, value, bitCount) + t == TagOctets(tag) + (LengthOctets(|c|) + (c + t));
    HeadRoundTrip(tag, |c|, c + t);
    assert (c + t)[..|c|] == c && (c + t)[|c|..] == t;
    OctetVal(8 * n - bitCount);
  }

  // ---------------------------------------------------------------- the octet stream

  class ByteStream {
    const buf: array<byte>
    const count: nat
    var currentByte: nat

    /** The bound checks accept the cell at index `count`, so the array needs one more cell. */
    ghost predicate Valid()
      reads this
    {
      count < buf.Length && currentByte <= count + 1
    }

    ghost predicate Room(n: nat)
      reads this
    {
      currentByte + n <= count + 1
    }

    ghost function Written(): (s: seq<byte>)
      reads this, buf
      requires Valid()
    {
      buf[..currentByte]
    }

    ghost function Rest(): (s: seq<byte>)
      reads this, buf
      requires Valid()
    {
      buf[currentByte..count + 1]
    }

    /** `ByteStream_Init` */
    constructor Init(buffer: array<byte>, length: nat)
      requires length <= buffer.Length
      modifies buffer
      ensures buf == buffer && count == length && currentByte == 0
              && (length < buffer.Length ==> Valid() && Written() == [])
      ensures buffer[..length] == seq(length, _ => 0) && buffer[length..] == old(buffer[length..])
    {
      buf, count, currentByte := buffer, length, 0;
      new;
      forall i | 0 <= i < length {
        buffer[i] := 0;
      }
    }

    /** `ByteStream_AttachBuffer` */
    constructor AttachBuffer(buffer: array<byte>, length: nat)
      requires length <= buffer.Length
      ensures buf == buffer && count == length && currentByte == 0 && (length < buffer.Length ==> Valid())
    {
      buf, count, currentByte := buffer, length, 0;
    }

    method PutByte(v: byte) returns (ok: bool)
      requires Valid()
      modifies this, buf
      ensures Valid() && ok == old(Room(1))
      ensures ok ==> Written() == old(Written()) + [v]
      ensures !ok ==> unchanged(this, buf)
    {
      if currentByte + 1 > count + 1 {
        return false;
      }
      ghost var w := Written();
      buf[currentByte] := v;
      currentByte := currentByte + 1;
      assert Written() == w + [v];
      return true;
    }

    method GetByte() returns (ok: bool, v: byte)
      requires Valid()
      modifies this
      ensures Valid() && ok == (old(Rest()) != [])
      ensures ok ==> v == old(Rest())[0] && Rest() == old(Rest())[1..]
      ensures !ok ==> unchanged(this)
    {
      if currentByte + 1 > count + 1 {
        return false, 0;
      }
      v := buf[currentByte];
      currentByte := currentByte + 1;
      return true, v;
    }

    /** `BerEncodeUInt`: leading zero octets are skipped. */
    method EncodeUInt(value: uint64) returns (ok: bool)
      requires Valid()
      modifies this, buf
      ensures Valid() && ok == old(Room(UnsignedOctets(value)))
      ensures ok ==> Written() == old(Written()) + BigEndian(value, UnsignedOctets(value))
    {
      hide Shr, UnsignedOctets, BigEndian, Pow2;
      ZeroOctet();
      if value == 0 {
        ok := PutByte(ByteOf(0));
        return;
      }
      ghost var w0, n := Written(), UnsignedOctets(value);
      var i, wFlag := 7, false;
      TopOctets(value, w0);
      while i >= 0
        invariant -1 <= i <= 7 && Valid()
        invariant wFlag == (Shr(value, 8 * (i + 1)) > 0)
        invariant Started(value, i + 1, n, w0, Written())
      {
        NextOctetOf(value, i, n, w0, Written());
        var curByte := ByteOf(Shr(value, 8 * i));
        if Shr(value, 8 * i) % 0x100 != 0 {
          wFlag := true;
        }
        if wFlag {
          ok := PutByte(curByte);
          if !ok {
            return;
          }
        }
        i := i - 1;
      }
      AllOctets(value);
      ok := true;
    }

    /** `BerEncodeUInt2` */
    method EncodeUInt2(value: uint64, size: nat) returns (ok: bool)
      requires Valid()
      modifies this, buf
      ensures Valid() && ok == old(Room(size))
      ensures ok ==> Written() == old(Written()) + BigEndian(value, size)
    {
      hide Shr, BigEndian;
      ghost var w0 := Written();
      NoneYet(value, size);
      var i: int := size - 1;
      ok := true;
      while i >= 0
        invariant -1 <= i < size && ok && Valid()
        invariant Written() == w0 + BigEndian(Shr(value, 8 * (i + 1)), size - 1 - i)
      {
        OneMoreOctet(value, i, size - 1 - i, w0);
        ok := PutByte(ByteOf(Shr(value, 8 * i)));
        if !ok {
          return;
        }
        i := i - 1;
      }
    }

    /** The octets of an array, one after the other. */
    method PutBytes(value: seq<byte>) returns (ok: bool)
      requires Valid()
      modifies this, buf
      ensures Valid() && ok == old(Room(|value|))
      ensures ok ==> Written() == old(Written()) + value
    {
      ok := true;
      assert Written() + [] == Written();
      for i := 0 to |value|
        invariant ok && Valid() && Written() == old(Written()) + value[..i]
      {
        ok := PutByte(value[i]);
        if !ok {
          return;
        }
        assert value[..i + 1] == value[..i] + [value[i]];
      }
      assert value[..|value|] == value;
    }

    /** `BerEncodeTag` */
    method EncodeTag(tag: uint64) returns (ok: bool)
      requires Valid()
      modifies this, buf
      ensures Valid() && ok == old(Room(|TagOctets(tag)|))
      ensures ok ==> Written() == old(Written()) + TagOctets(tag)
    {
      hide BigEndian, UnsignedOctets;
      ok := EncodeUInt(tag);
    }

    /** `BerDecodeTag`; the shift of the primitive bit is defined for tags of one to four octets. */
    method DecodeTag(tag: uint32) returns (ok: bool)
      requires Valid() && tag > 0
      modifies this
      ensures Valid() && ok == TagAt(old(Rest()), tag).Some?
      ensures ok ==> Rest() == TagAt(old(Rest()), tag).value
    {
      hide FromOctets, SameTag, SetBit, ByteVal;
      ghost var r := Rest();
      var tagSize := TagSize(tag);
      ghost var n := tagSize;
      var tgCopy: nat := 0;
      NoValue();
      while tagSize > 0
        invariant 0 <= tagSize <= n && Valid() && n - tagSize <= |r|
        invariant tgCopy == FromOctets(r[..n - tagSize]) && Rest() == r[n - tagSize..]
      {
        var curByte;
        ok, curByte := GetByte();
        if !ok {
          return;
        }
        OneMoreValue(r, n - tagSize);
        tgCopy := tgCopy * 0x100 + ByteVal(curByte);
        tagSize := tagSize - 1;
      }
      ok := SameTag(tag, tgCopy);
    }

    /** `BerEncodeLength` */
    method EncodeLength(n: nat) returns (ok: bool)
      requires Valid() && n < 0x8000_0000
      modifies this, buf
      ensures Valid() && ok == old(Room(|LengthOctets(n)|))
      ensures ok ==> Written() == old(Written()) + LengthOctets(n)
    {
      hide BigEndian, UnsignedOctets, ByteOf;
      if n <= 0x7F {
        ok := PutByte(ByteOf(n));
        return;
      }
      ghost var w0 := Written();
      var lenlen := TagSize(n);
      ok := PutByte(ByteOf(0x80 + lenlen));
      if ok {
        ok := EncodeUInt(n);
        assert w0 + [ByteOf(0x80 + lenlen)] + BigEndian(n, lenlen) ==
          w0 + ([ByteOf(0x80 + lenlen)] + BigEndian(n, lenlen));
      }
    }

    /** `BerDecodeLength`, on a 32-bit word. */
    method DecodeLength() returns (ok: bool, n: int)
      requires Valid()
      modifies this
      ensures Valid() && ok == LengthAt(old(Rest())).Some?
      ensures ok ==> n == LengthAt(old(Rest())).value.value && Rest() == LengthAt(old(Rest())).value.rest
    {
      hide FromOctets, ByteVal, Wrap32;
      ghost var r := Rest();
      n := 0;
      var b;
      ok, b := GetByte();
      if !ok {
        return;
      }
      if ByteVal(b) < 0x80 {
        n := ByteVal(b);
        return;
      }
      var lenlen := ByteVal(b) - 0x80;
      if lenlen == 0 {
        n := -1;
        return;
      }
      ghost var c := r[1..];
      var ret: uint32 := 0;
      NoValue();
      for i := 0 to lenlen
        invariant ok && Valid() && i <= |c| && Rest() == c[i..]
        invariant ret == FromOctets(c[..i]) % 0x1_0000_0000
      {
        ok, b := GetByte();
        if !ok {
          return;
        }
        OneMoreValue(c, i);
        ShiftIn(FromOctets(c[..i]), ByteVal(b));
        ret := (ret * 0x100 + ByteVal(b)) % 0x1_0000_0000;
      }
      assert c[..lenlen] == r[1..1 + lenlen];
      SignedWord(FromOctets(c[..lenlen]));
      n := Wrap32(ret);
    }

    /** `BerEncodeInteger` */
    method EncodeInteger(tag: uint64, value: sint64) returns (ok: bool)
      requires Valid()
      modifies this, buf
      ensures Valid() && ok == old(Room(|IntegerOctets(tag, value)|))
      ensures ok ==> Written() == old(Written()) + IntegerOctets(tag, value)
    {
      hide BigEndian, UnsignedOctets, SignedOctets, ByteOf, Unsigned64;
      ghost var w0 := Written();
      ok := EncodeTag(tag);
      if ok {
        var length := GetLengthInBytesOfSInt(value);
        ok := PutByte(ByteOf(length));
        if ok {
          var v := Int2UInt(value);
          ok := EncodeUInt2(v, length);
          AppendFour(w0, TagOctets(tag), [ByteOf(length)], BigEndian(v, length));
        }
      }
    }

    /** `BerDecodeInteger`; the conversion of the word is undefined for a content of no or more than eight octets. */
    method DecodeInteger(tag: uint32) returns (ok: bool, value: sint64)
      requires Valid() && tag > 0
      requires HeadAt(Rest(), tag).Some? ==> 1 <= HeadAt(Rest(), tag).value.value <= 8
      modifies this
      ensures Valid() && ok == ContentAt(old(Rest()), tag).Some?
      ensures ok ==> var c := ContentAt(old(Rest()), tag).value;
                     c.value != [] && value == SignedValue(c.value) && Rest() == c.rest
    {
      hide FromOctets, ByteVal, TagAt, LengthAt, Pow2;
      value := 0;
      ok := DecodeTag(tag);
      if !ok {
        return;
      }
      var length;
      ok, length := DecodeLength();
      if !ok {
        return;
      }
      ghost var c := Rest();
      var ret: uint64 := 0;
      NoValue();
      for i := 0 to length
        invariant ok && Valid() && i <= |c| && Rest() == c[i..]
        invariant ret == FromOctets(c[..i])
      {
        var b;
        ok, b := GetByte();
        if !ok {
          return;
        }
        OneMoreValue(c, i);
        ValueFits(c, i + 1);
        ret := ret * 0x100 + ByteVal(b);
      }
      FromOctetsBound(c[..length]);
      value := UInt2Int(ret, length);
    }

    /** `BerEncodeOctetString` */
    method EncodeOctetString(tag: uint64, value: seq<byte>) returns (ok: bool)
      requires Valid() && |value| < 0x8000_0000
      modifies this, buf
      ensures Valid() && ok == old(Room(|OctetStringOctets(tag, value)|))
      ensures ok ==> Written() == old(Written()) + OctetStringOctets(tag, value)
    {
      hide TagOctets, LengthOctets;
      ghost var w0 := Written();
      ok := EncodeTag(tag);
      if ok {
        ok := EncodeLength(|value|);
        if ok {
          ok := PutBytes(value);
          AppendFour(w0, TagOctets(tag), LengthOctets(|value|), value);
        }
      }
    }

    /** The loop that copies a content and keeps at most `max` octets of it. */
    method GetBytes(value: array<byte>, max: nat, length: int) returns (ok: bool)
      requires Valid() && max <= value.Length && value != buf
      modifies this, value
      ensures Valid() && ok == (Count(length) <= old(|Rest()|))
      ensures ok ==> Rest() == old(Rest())[Count(length)..]
      ensures ok ==> var k := if Count(length) <= max then Count(length) else max;
                     value[..k] == old(Rest())[..k] && value[k..] == old(value[k..])
    {
      ghost var r, v0 := Rest(), value[..];
      var i := 0;
      ok := true;
      while i < length
        invariant ok && Valid() && 0 <= i <= Count(length) && i <= |r| && Rest() == r[i..]
        invariant value[..] == Kept(r, v0, i, max)
      {
        var curByte;
        ok, curByte := GetByte();
        if !ok {
          return;
        }
        KeptMore(r, v0, i, max);
        if i < max {
          value[i] := curByte;
        }
        i := i + 1;
      }
    }

    /** `BerDecodeOctetString` */
    method DecodeOctetString(tag: uint32, value: array<byte>, max: nat) returns (ok: bool, octCount: int)
      requires Valid() && tag > 0 && max <= value.Length && value != buf
      modifies this, value
      ensures Valid() && ok == ContentAt(old(Rest()), tag).Some?
      ensures ok ==> var n := HeadAt(old(Rest()), tag).value.value;
                     octCount == if n <= max then n else max
      ensures ok ==> var c := ContentAt(old(Rest()), tag).value;
                     var k := if |c.value| <= max then |c.value| else max;
                     && Rest() == c.rest && value[..k] == c.value[..k] && (forall i :: k <= i < max ==> value[i] == 0)
    {
      hide TagAt, LengthAt;
      forall i | 0 <= i < max {
        value[i] := 0;
      }
      octCount := 0;
      ok := DecodeTag(tag);
      if ok {
        var length;
        ok, length := DecodeLength();
        if ok {
          octCount := if length <= max then length else max;
          ok := GetBytes(value, max, length);
        }
      }
    }

    /** `BerEncodeBitString` */
    method EncodeBitString(tag: uint64, value: seq<byte>, bitCount: nat) returns (ok: bool)
      requires Valid() && OctetsFor(bitCount) <= |value| && bitCount < 0x8000_0000
      modifies this, buf
      ensures Valid() && ok == old(Room(|BitStringOctets(tag, value, bitCount)|))
      ensures ok ==> Written() == old(Written()) + BitStringOctets(tag, value, bitCount)
    {
      hide TagOctets, LengthOctets, ByteOf, OctetsFor;
      ghost var w0 := Written();
      var length, lastByteUnusedBits := LastOctet(bitCount);
      ok := EncodeTag(tag);
      if ok {
        ok := EncodeLength(length + 1);
        if ok {
          ok := PutByte(ByteOf(lastByteUnusedBits));
          if ok {
            ok := PutBytes(value[..length]);
            AppendFive(w0, TagOctets(tag), LengthOctets(length + 1), [ByteOf(lastByteUnusedBits)], value[..length]);
          }
        }
      }
    }

    /** `BerDecodeBitString`; `max` is the number of octets that hold the greatest bit count. */
    method DecodeBitString(tag: uint32, value: array<byte>, max: nat) returns (ok: bool, bitCount: int)
      requires Valid() && tag > 0 && max <= value.Length && value != buf
      modifies this, value
      ensures Valid() && ok == BitContentAt(old(Rest()), tag).Some?
      ensures ok ==> var c := BitContentAt(old(Rest()), tag).value;
                     var k := if |c.value| - 1 <= max then |c.value| - 1 else max;
                     Rest() == c.rest && value[..k] == c.value[1..][..k] && bitCount == BitCount(c.value, max)
    {
      hide TagAt, LengthAt, ByteVal, BitCount;
      bitCount := 0;
      ok := DecodeTag(tag);
      if ok {
        var length;
        ok, length := DecodeLength();
        if ok {
          ghost var r := Rest();
          ok, bitCount := GetBits(value, max, length);
          if ok {
            BehindFirst(r, Count(length - 1), if Count(length - 1) <= max then Count(length - 1) else max);
          }
        }
      }
    }

    method GetBits(value: array<byte>, max: nat, length: int) returns (ok: bool, bitCount: int)
      requires Valid() && max <= value.Length && value != buf
      modifies this, value
      ensures Valid() && ok == (1 + Count(length - 1) <= old(|Rest()|))
      ensures ok ==> var r, n := old(Rest()), Count(length - 1);
                     var k := if n <= max then n else max;
                     Rest() == r[n + 1..] && value[..k] == r[1..][..k] && bitCount == BitCount(r[..n + 1], max)
    {
      hide ByteVal, Copying, Kept, BitCount;
      bitCount := 0;
      var lastByteUnusedBits;
      ghost var r0 := Rest();
      ok, lastByteUnusedBits := GetByte();
      if ok {
        ghost var v0 := value[..];
        var unused;
        ok, bitCount, unused := CopyBits(value, max, length - 1, lastByteUnusedBits);
        if ok {
          CopyDone(r0, v0, value[..], Count(length - 1), max, bitCount, unused);
          bitCount := bitCount - unused;
        }
      }
    }

    method CopyBits(value: array<byte>, max: nat, length: int, first: byte)
      returns (ok: bool, bitCount: int, unused: int)
      requires Valid() && max <= value.Length && value != buf
      modifies this, value
      ensures Valid() && ok == (Count(length) <= old(|Rest()|))
      ensures ok ==> Rest() == old(Rest())[Count(length)..]
      ensures ok ==> Copying(old(Rest()), old(value[..]), value[..], Count(length), max, bitCount, unused, first)
    {
      hide ByteVal, Copying, Kept;
      ghost var r, v0 := Rest(), value[..];
      CopyStart(r, v0, max, first);
      var i := 0;
      ok, bitCount, unused := true, 0, ByteVal(first);
      while i < length
        invariant ok && Valid() && 0 <= i <= Count(length) && i <= |r| && Rest() == r[i..]
        invariant Copying(r, v0, value[..], i, max, bitCount, unused, first)
      {
        var curByte;
        ok, curByte := GetByte();
        if !ok {
          return;
        }
        CopyMore(r, v0, value[..], i, max, bitCount, unused, first);
        if i < max {
          bitCount := bitCount + 8;
          value[i] := curByte;
        } else {
          unused := 0;
        }
        i := i + 1;
      }
    }
  }

  /** The octets that hold the bits, and the bits of the last one that are not used. */
  method LastOctet(bitCount: nat) returns (length: nat, unused: nat)
    requires bitCount < 0x8000_0000
    ensures length == OctetsFor(bitCount) && unused == 8 * length - bitCount && length < 0x1000_0001
  {
    length, unused := bitCount / 8, 8 - bitCount % 8;
    if unused == 8 {
      unused := 0;
    }
    if bitCount % 8 != 0 {
      length := length + 1;
    }
  }

  /** Where copying the content of a bit string stands. */
  ghost predicate Copying(r: seq<byte>, v0: seq<byte>, v: seq<byte>, i: nat, max: nat, bits: int, unused: int,
                          first: byte) {
    && i <= |r| && max <= |v0| && v == Kept(r, v0, i, max)
    && bits == 8 * (if i <= max then i else max)
    && unused == if i <= max then ByteVal(first) else 0
  }

  lemma CopyStart(r: seq<byte>, v: seq<byte>, max: nat, first: byte)
    requires max <= |v|
    ensures Copying(r, v, v, 0, max, 0, ByteVal(first), first)
  {
    hide ByteVal;
  }

  lemma CopyMore(r: seq<byte>, v0: seq<byte>, v: seq<byte>, i: nat, max: nat, bits: int, unused: int, first: byte)
    requires Copying(r, v0, v, i, max, bits, unused, first) && i < |r|
    ensures if i < max then Copying(r, v0, v[i := r[i]], i + 1, max, bits + 8, unused, first)
            else Copying(r, v0, v, i + 1, max, bits, 0, first)
  {
    hide ByteVal;
    KeptMore(r, v0, i, max);
  }

  lemma CopyDone(r0: seq<byte>, v0: seq<byte>, v: seq<byte>, n: nat, max: nat, bits: int, unused: int)
    requires r0 != [] && Copying(r0[1..], v0, v, n, max, bits, unused, r0[0])
    ensures n + 1 <= |r0| && r0[1..][n..] == r0[n + 1..]
    ensures var k := if n <= max then n else max;
            k <= |v| && v[..k] == r0[1..][..k] && bits - unused == BitCount(r0[..n + 1], max)
  {
    hide ByteVal;
  }

  lemma AppendFive(w: seq<byte>, a: seq<byte>, b: seq<byte>, c: seq<byte>, d: seq<byte>)
    ensures w + a + b + c + d == w + (a + b + c + d)
  {
  }

  /** The array `v0` after the first `i` octets of `r` were copied to it, at most `max` of them. */
  ghost function Kept(r: seq<byte>, v0: seq<byte>, i: nat, max: nat): seq<byte>
    requires i <= |r| && max <= |v0|
  {
    var k := if i <= max then i else max;
    r[..k] + v0[k..]
  }

  lemma KeptMore(r: seq<byte>, v0: seq<byte>, i: nat, max: nat)
    requires i < |r| && max <= |v0|
    ensures Kept(r, v0, i + 1, max) == if i < max then Kept(r, v0, i, max)[i := r[i]] else Kept(r, v0, i, max)
  {
  }

  lemma NoneYet(value: nat, size: nat)
    ensures BigEndian(Shr(value, 8 * size), 0) == [] && Shr(value, 0) == value
  {
  }

  lemma OneMoreOctet(value: nat, i: nat, k: nat, w: seq<byte>)
    ensures w + BigEndian(Shr(value, 8 * (i + 1)), k) + [ByteOf(Shr(value, 8 * i))] ==
            w + BigEndian(Shr(value, 8 * i), k + 1)
  {
    hide Shr, ByteOf;
    ShrAdd(value, 8 * i, 8);
    ShrValues(Shr(value, 8 * i));
  }

  /** The number of octets of a word that is not zero. */
  method TagSize(v: uint32) returns (n: nat)
    requires v > 0
    ensures n == UnsignedOctets(v)
  {
    var w: nat := v;
    n := 0;
    while w > 0
      invariant if w > 0 then n + UnsignedOctets(w) == UnsignedOctets(v) else n == UnsignedOctets(v)
    {
      w := w / 0x100;
      n := n + 1;
    }
  }

  lemma NoValue()
    ensures FromOctets([]) == 0
  {
  }

  lemma OneMoreValue(c: seq<byte>, i: nat)
    requires i < |c|
    ensures FromOctets(c[..i + 1]) == FromOctets(c[..i]) * 0x100 + ByteVal(c[i])
  {
    hide ByteVal;
    assert c[..i + 1][..i] == c[..i];
  }

  lemma ShiftIn(x: nat, b: nat)
    ensures (x % 0x1_0000_0000 * 0x100 + b) % 0x1_0000_0000 == (x * 0x100 + b) % 0x1_0000_0000
  {
    var k, r := x / 0x1_0000_0000, x % 0x1_0000_0000;
    assert x * 0x100 + b == (r * 0x100 + b) + 0x1_0000_0000 * (0x100 * k);
    ShortPeriodic(r * 0x100 + b, 0x100 * k);
  }

  lemma ShortPeriodic(x: nat, k: nat)
    ensures (x + 0x1_0000_0000 * k) % 0x1_0000_0000 == x % 0x1_0000_0000
  {
  }

  lemma SignedWord(x: nat)
    ensures Wrap32(x % 0x1_0000_0000) == Wrap32(x)
  {
  }

  lemma ValueFits(c: seq<byte>, n: nat)
    requires n <= 8 && n <= |c|
    ensures FromOctets(c[..n]) < TWO64
  {
    FromOctetsBound(c[..n]);
    Pow2Values();
    Pow2Monotone(8 * n, 64);
  }

  lemma AppendFour(w: seq<byte>, a: seq<byte>, b: seq<byte>, c: seq<byte>)
    ensures w + a + b + c == w + (a + b + c)
  {
  }

  lemma ZeroOctet()
    ensures UnsignedOctets(0) == 1 && BigEndian(0, 1) == [ByteOf(0)]
  {
  }

  /** The octets of `value` from position `j` on have been written, except for leading zeros. */
  ghost predicate Started(value: nat, j: nat, n: nat, w0: seq<byte>, w: seq<byte>) {
    var x := Shr(value, 8 * j);
    && w == w0 + (if x == 0 then [] else BigEndian(x, UnsignedOctets(x)))
    && (if x == 0 then 1 <= n <= j else UnsignedOctets(x) + j == n)
  }

  lemma TopOctets(value: uint64, w0: seq<byte>)
    requires value > 0
    ensures Shr(value, 64) == 0 && Started(value, 8, UnsignedOctets(value), w0, w0)
  {
    Pow2Values();
    ShrSmall(value, 64);
    UnsignedOctetsLeast(value, 8);
    assert w0 + [] == w0;
  }

  lemma AllOctets(value: nat)
    ensures Shr(value, 0) == value
  {
  }

  lemma NextOctetOf(value: uint64, i: nat, n: nat, w0: seq<byte>, w: seq<byte>)
    requires value > 0 && n == UnsignedOctets(value) && Started(value, i + 1, n, w0, w)
    ensures var x := Shr(value, 8 * i);
            && (Shr(value, 8 * (i + 1)) > 0 || x % 0x100 != 0 <==> x > 0)
            && Started(value, i, n, w0, if x > 0 then w + [ByteOf(x)] else w)
            && (x > 0 ==> |w| < |w0| + n)
  {
    hide Shr, Pow2, ByteOf;
    var x, y := Shr(value, 8 * i), Shr(value, 8 * (i + 1));
    ShrAdd(value, 8 * i, 8);
    ShrValues(x);
    ShrPositive(value, 8 * i);
    AllOctets(value);
    if y > 0 {
      assert BigEndian(x, UnsignedOctets(x)) == BigEndian(y, UnsignedOctets(y)) + [ByteOf(x)];
      assert w + [ByteOf(x)] == w0 + (BigEndian(y, UnsignedOctets(y)) + [ByteOf(x)]);
    } else {
      Pow2Values();
      if x > 0 {
        assert BigEndian(x, 1) == [ByteOf(x)];
        FirstOctet(value, i);
      } else {
        UnsignedOctetsLeast(value, i);
      }
    }
  }

  lemma FirstOctet(value: nat, i: nat)
    requires 0 < Shr(value, 8 * i) < 0x100
    ensures UnsignedOctets(value) == i + 1
  {
    hide Pow2;
    ShrPositive(value, 8 * i);
    ShrBounds(value, 8 * i);
    Pow2Values();
    Pow2Add(8, 8 * i);
    Bounded(Pow2(8 * i), Shr(value, 8 * i));
    UnsignedOctetsIs(value, i + 1);
  }

  lemma Bounded(p: nat, x: nat)
    requires x < 0x100
    ensures p * x + p <= 0x100 * p
  {
  }
}
