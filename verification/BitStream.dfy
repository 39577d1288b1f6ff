/**
 * The bit stream of `messages/asn1crt.c`: an octet buffer with a cursor that may stand at any bit.
 * Appending is or-ing into the buffer, so it is only correct because every bit at or past the
 * cursor is zero; that is the invariant `Writable`.
 */
module BitStreams {
  import opened Bits
  import opened Bytes

  class BitStream {
    const buf: array<byte>
    const count: nat
    var currentByte: nat
    var currentBit: nat

    ghost predicate Valid()
      reads this
    {
      count <= buf.Length && currentBit < 8
    }

    /** The position of the cursor, in bits. */
    ghost function Pos(): nat
      reads this
    {
      8 * currentByte + currentBit
    }

    /** At least `n` bits remain before the declared end of the stream. */
    ghost predicate Room(n: nat)
      reads this
    {
      Pos() + n <= 8 * count
    }

    /** The whole buffer as one bit string. */
    ghost function All(): (s: seq<bool>)
      reads buf
    {
      Unpack(buf[..])
    }

    /** The part of the buffer that the stream may write, as one bit string. */
    ghost function Area(): (s: seq<bool>)
      reads this, buf
      requires Valid()
    {
      Unpack(buf[..count])
    }

    ghost predicate Writable()
      reads this, buf
    {
      && Valid()
      && Room(0)
      && ZeroFrom(Area(), Pos())
    }

    /** The bits appended so far. */
    ghost function Written(): (s: seq<bool>)
      reads this, buf
      requires Writable()
    {
      Area()[..Pos()]
    }

    /** The bits between the cursor and the declared end of the stream. */
    ghost function Rest(): (s: seq<bool>)
      reads this, buf
      requires Valid()
    {
      if Pos() <= 8 * count then All()[Pos()..8 * count] else []
    }

    /** Reading `n` bits touches only memory that belongs to the buffer. */
    ghost predicate Readable(n: nat)
      reads this
    {
      Valid() && Room(0) && (Room(n) || count < buf.Length)
    }

    constructor Init(buffer: array<byte>, length: nat)
      requires length <= buffer.Length
      modifies buffer
      ensures buf == buffer && count == length
      ensures Writable() && Written() == [] && buffer[length..] == old(buffer[length..])
    {
      buf, count := buffer, length;
      currentByte, currentBit := 0, 0;
      new;
      forall i | 0 <= i < length {
        buffer[i] := 0;
      }
      assert buffer[..length] == seq(length, _ => 0);
      UnpackZeros(length);
    }

    constructor AttachBuffer(buffer: array<byte>, length: nat)
      requires length <= buffer.Length
      ensures Valid() && Pos() == 0
      ensures buf == buffer && count == length
    {
      buf, count := buffer, length;
      currentByte, currentBit := 0, 0;
    }

    /** The number of octets that the written bits occupy. */
    method GetLength() returns (n: nat)
      requires Valid()
      ensures 8 * n - 7 <= Pos() <= 8 * n
    {
      n := currentByte;
      if currentBit != 0 {
        n := n + 1;
      }
    }

    method Advance()
      requires Valid()
      modifies this
      ensures Valid() && Pos() == old(Pos()) + 1
    {
      if currentBit < 7 {
        currentBit := currentBit + 1;
      } else {
        currentBit, currentByte := 0, currentByte + 1;
      }
    }

    method AppendBit(v: bool)
      requires Writable() && Room(1)
      modifies this, buf
      ensures Writable() && Written() == old(Written()) + [v]
    {
      if v {
        BitsMask(currentBit);
        OrInto(Mask(currentBit), currentBit, [true], 7 - currentBit);
      }
      Advance();
    }

    /** `buf[currentByte] |= v`, where `v` is the field `x` between `k` and `m` zeros. */
    method OrInto(v: byte, ghost k: nat, ghost x: seq<bool>, ghost m: nat)
      requires Valid() && currentByte < buf.Length && 8 * currentByte + k + |x| <= 8 * count
      requires ByteBits(v) == Zeros(k) + x + Zeros(m)
      requires ZeroFrom(Area(), 8 * currentByte + k)
      modifies buf
      ensures Appended(old(Area()), 8 * currentByte + k, x, Area())
    {
      hide Unpack, ByteBits, ShiftLeft, ShiftRight;
      ghost var s := buf[..count];
      if currentByte < count {
        Place(s, currentByte, v, k, x, m);
      }
      buf[currentByte] := buf[currentByte] | v;
      assert buf[..count] == if currentByte < count then s[currentByte := s[currentByte] | v] else s;
    }

    method AppendBitOne()
      requires Writable() && Room(1)
      modifies this, buf
      ensures Writable() && Written() == old(Written()) + [true]
    {
      AppendBit(true);
    }

    method AppendBitZero()
      requires Writable() && Room(1)
      modifies this
      ensures Writable() && Written() == old(Written()) + [false]
    {
      Advance();
    }

    /** Only moves the cursor: the bits it passes over are already zero. */
    method AppendNBitZero(nbits: nat)
      requires Writable() && Room(nbits)
      modifies this
      ensures Writable() && Written() == old(Written()) + Zeros(nbits)
    {
      var totalBits := currentBit + nbits;
      currentBit := totalBits % 8;
      currentByte := currentByte + totalBits / 8;
    }

    method AppendNBitOne(nbits: nat)
      requires Writable() && Room(nbits)
      modifies this, buf
      ensures Writable() && Written() == old(Written()) + Ones(nbits)
    {
      hide Unpack;
      var n := nbits;
      while n >= 8
        invariant 0 <= n <= nbits
        invariant Writable() && Room(n) && Written() == old(Written()) + Ones(nbits - n)
      {
        AppendByte(0xFF, false);
        n := n - 8;
      }
      for i := 0 to n
        invariant Writable() && Room(n - i) && Written() == old(Written()) + Ones(nbits - n + i)
      {
        AppendBitOne();
      }
    }

    method AppendByte(v: byte, negate: bool)
      requires Writable() && Room(8)
      modifies this, buf
      ensures Writable()
      ensures Written() == old(Written()) + (if negate then NotBits(ByteBits(v)) else ByteBits(v))
    {
      if negate {
        BitsNot(v);
        AppendByte0(!v);
      } else {
        AppendByte0(v);
      }
    }

    method AppendByte0(v: byte)
      requires Writable() && Room(8)
      modifies this, buf
      ensures Writable() && Written() == old(Written()) + ByteBits(v)
    {
      hide Unpack, ByteBits, ShiftLeft, ShiftRight;
      ghost var p, s0 := Pos(), Area();
      var cb := currentBit;
      OrHigh(v);
      ghost var s1 := Area();
      currentByte := currentByte + 1;
      if cb != 0 {
        OrLow(v, 8 - cb);
      }
      AppendedTwice(s0, p, ByteBits(v), 8 - cb, s1, Area());
    }

    /** `buf[currentByte] |= v >> currentBit` */
    method OrHigh(v: byte)
      requires Valid() && currentByte < count && ZeroFrom(Area(), Pos())
      modifies buf
      ensures Appended(old(Area()), Pos(), ByteBits(v)[..8 - currentBit], Area())
    {
      hide Unpack, ByteBits, ShiftRight;
      HighPart(v, currentBit);
      OrInto(ShiftRight(v, currentBit), currentBit, ByteBits(v)[..8 - currentBit], 0);
    }

    /** `buf[currentByte] |= (byte)(v << n)` */
    method OrLow(v: byte, n: nat)
      requires Valid() && currentByte < count && n <= 8 && ZeroFrom(Area(), 8 * currentByte)
      modifies buf
      ensures Appended(old(Area()), 8 * currentByte, ByteBits(v)[n..], Area())
    {
      hide Unpack, ByteBits, ShiftLeft;
      LowPart(v, n);
      OrInto(ShiftLeft(v, n), 0, ByteBits(v)[n..], n);
    }

    /** `nbits` is 1..7 at the callers in the integer codec, 0 when a bit string is octet-aligned. */
    method AppendPartialByte(v: byte, nbits: nat, negate: bool)
      requires Writable() && Room(nbits) && nbits < 8 && currentByte < buf.Length
      requires negate || v & LowMask(nbits) == v
      modifies this, buf
      ensures Writable() && Written() == old(Written()) + PartialBits(v, nbits, negate)
    {
      var w := if negate then LowMask(nbits) & !v else v;
      if negate { NegatedPartial(v, nbits); } else { PlainPartial(v, nbits); }
      OrPartial(w, nbits, PartialBits(v, nbits, negate));
    }

    method OrPartial(w: byte, nbits: nat, ghost x: seq<bool>)
      requires Writable() && Room(nbits) && nbits < 8 && currentByte < buf.Length
      requires |x| == nbits && ByteBits(w) == Zeros(8 - nbits) + x
      modifies this, buf
      ensures Writable() && Written() == old(Written()) + x
    {
      hide Unpack, ByteBits, ShiftLeft, ShiftRight;
      ghost var p, s0 := Pos(), Area();
      var cb := currentBit;
      var totalBits := cb + nbits;
      if totalBits <= 8 {
        MiddlePart(w, x, cb);
        OrInto(ShiftLeft(w, 8 - totalBits), cb, x, 8 - totalBits);
        currentBit := currentBit + nbits;
        if currentBit == 8 {
          currentBit, currentByte := 0, currentByte + 1;
        }
      } else {
        OrAcross(w, nbits, x);
      }
    }

    method OrAcross(w: byte, nbits: nat, ghost x: seq<bool>)
      requires Writable() && Room(nbits) && nbits < 8 < currentBit + nbits
      requires |x| == nbits && ByteBits(w) == Zeros(8 - nbits) + x
      modifies this, buf
      ensures Writable() && Written() == old(Written()) + x
    {
      hide Unpack, ByteBits, ShiftLeft, ShiftRight;
      ghost var p, s0 := Pos(), Area();
      var cb := currentBit;
      var totalBitsForNextByte := cb + nbits - 8;
      SplitHigh(w, x, cb);
      OrInto(ShiftRight(w, totalBitsForNextByte), cb, x[..8 - cb], 0);
      ghost var s1 := Area();
      currentByte := currentByte + 1;
      SplitLow(w, x, cb);
      OrInto(ShiftLeft(w, 8 - totalBitsForNextByte), 0, x[8 - cb..], 8 - totalBitsForNextByte);
      currentBit := totalBitsForNextByte;
      AppendedTwice(s0, p, x, 8 - cb, s1, Area());
    }

    method AppendBits(srcBuffer: seq<byte>, nbits: nat)
      requires nbits < 8 * |srcBuffer|
      requires Writable() && Room(nbits) && (Pos() + nbits) / 8 < buf.Length
      modifies this, buf
      ensures Writable() && Written() == old(Written()) + Unpack(srcBuffer)[..nbits]
    {
      hide Unpack, ByteBits, ShiftLeft, ShiftRight;
      ghost var s0, u := Written(), Unpack(srcBuffer);
      var n, i := nbits, 0;
      while n >= 8
        invariant 0 <= n && n + 8 * i == nbits
        invariant Writable() && Pos() + n == old(Pos()) + nbits
        invariant Written() == s0 + u[..8 * i]
      {
        AppendByte(srcBuffer[i], false);
        UnpackPrefix(srcBuffer, i, 8);
        AppendAssoc(s0, u, 8 * i, ByteBits(srcBuffer[i]), 8);
        n := n - 8;
        i := i + 1;
      }
      LastBits(srcBuffer[i], n);
      AppendPartialByte(ShiftRight(srcBuffer[i], 8 - n), n, false);
      UnpackPrefix(srcBuffer, i, n);
      AppendAssoc(s0, u, 8 * i, ByteBits(srcBuffer[i]), n);
    }

    method ReadBit() returns (ok: bool, v: bool)
      requires Readable(1)
      modifies this
      ensures Valid() && Pos() == old(Pos()) + 1
      ensures ok == (1 <= old(|Rest()|))
      ensures ok ==> v == old(Rest())[0] && Rest() == old(Rest())[1..]
    {
      v := buf[currentByte] & Mask(currentBit) != 0;
      UnpackAt(buf[..], currentByte, currentBit);
      Advance();
      ok := currentByte * 8 + currentBit <= count * 8;
    }

    method ReadByte() returns (ok: bool, v: byte)
      requires Readable(8)
      modifies this
      ensures Valid() && Pos() == old(Pos()) + 8
      ensures ok == (8 <= old(|Rest()|))
      ensures ok ==> ByteBits(v) == old(Rest())[..8] && Rest() == old(Rest())[8..]
    {
      hide Unpack, ByteBits;
      ghost var p := Pos();
      v := PeekByte();
      currentByte := currentByte + 1;
      ok := currentByte * 8 + currentBit <= count * 8;
      if ok { Consumed(All(), p, p + 8, 8 * count); }
    }

    /** The octet assembled for the next eight bits. */
    method PeekByte() returns (v: byte)
      requires Readable(8)
      ensures ByteBits(v) == All()[Pos()..Pos() + 8]
    {
      hide Unpack, ByteBits, ShiftLeft;
      var cb := currentBit;
      var ncb := 8 - currentBit;
      ghost var s, j := buf[..], currentByte;
      v := ShiftLeft(buf[currentByte], cb);
      if cb != 0 {
        v := v | ShiftRight(buf[currentByte + 1], ncb);
      }
      ExtractByte(s, j, cb, v);
    }

    method ReadPartialByte(nbits: nat) returns (ok: bool, v: byte)
      requires Readable(nbits) && nbits < 8 && currentByte < buf.Length
      modifies this
      ensures Valid() && Pos() == old(Pos()) + nbits
      ensures ok == (nbits <= old(|Rest()|))
      ensures ok ==> ByteBits(v) == Zeros(8 - nbits) + old(Rest())[..nbits] && Rest() == old(Rest())[nbits..]
    {
      hide Unpack, ByteBits, ShiftLeft, ShiftRight;
      ghost var p := Pos();
      v := PeekPartialByte(nbits);
      var totalBits := currentBit + nbits;
      if totalBits <= 8 {
        currentBit := currentBit + nbits;
        if currentBit == 8 {
          currentBit, currentByte := 0, currentByte + 1;
        }
      } else {
        currentByte, currentBit := currentByte + 1, totalBits - 8;
      }
      ok := currentByte * 8 + currentBit <= count * 8;
      if ok { Consumed(All(), p, p + nbits, 8 * count); }
    }

    /** The octet assembled for the next `nbits` bits. */
    method PeekPartialByte(nbits: nat) returns (v: byte)
      requires Readable(nbits) && nbits < 8 && currentByte < buf.Length
      ensures ByteBits(v) == Zeros(8 - nbits) + All()[Pos()..Pos() + nbits]
    {
      hide Unpack, ByteBits, ShiftLeft, ShiftRight;
      var cb := currentBit;
      var totalBits := cb + nbits;
      if totalBits <= 8 {
        v := ShiftRight(buf[currentByte], 8 - totalBits) & LowMask(nbits);
      } else {
        var totalBitsForNextByte := totalBits - 8;
        v := ShiftLeft(buf[currentByte], totalBitsForNextByte);
        v := v | ShiftRight(buf[currentByte + 1], 8 - totalBitsForNextByte);
        v := v & LowMask(nbits);
      }
      Extract(buf[..], currentByte, cb, nbits, v);
    }

    /** Whole octets, then the remaining bits at the high end of a last octet that is padded with zeros. */
    method ReadBits(dst: array<byte>, nbits: nat) returns (ok: bool)
      requires Readable(nbits) && (Pos() + nbits) / 8 < buf.Length && nbits / 8 < dst.Length && dst != buf
      modifies this, dst
      ensures Valid() && ok == (nbits <= old(|Rest()|))
      ensures ok ==>
                && Unpack(dst[..nbits / 8 + 1]) == old(Rest())[..nbits] + Zeros(8 - nbits % 8)
                && Rest() == old(Rest())[nbits..]
    {
      hide Unpack, ByteBits, ShiftLeft;
      ghost var r := Rest();
      ok := ReadOctets(dst, nbits / 8, nbits % 8);
      if ok {
        ok := ReadLastOctet(dst, nbits / 8, nbits % 8, r, nbits);
      }
    }

    method ReadLastOctet(dst: array<byte>, i: nat, n: nat, ghost r: seq<bool>, ghost nbits: nat) returns (ok: bool)
      requires n < 8 && nbits == 8 * i + n && i < dst.Length && dst != buf
      requires Readable(n) && currentByte < buf.Length
      requires 8 * i <= |r| && Unpack(dst[..i]) == r[..8 * i] && Rest() == r[8 * i..]
      modifies this, dst
      ensures Valid() && ok == (nbits <= |r|)
      ensures ok ==> Unpack(dst[..i + 1]) == r[..nbits] + Zeros(8 - n) && Rest() == r[nbits..]
    {
      hide Unpack, ByteBits, ShiftLeft;
      var b;
      ok, b := ReadPartialByte(n);
      if ok {
        dst[i] := ShiftLeft(b, 8 - n);
        LastOctetRead(dst[..i], b, n, r, 8 * i);
        assert dst[..i + 1] == dst[..i] + [ShiftLeft(b, 8 - n)];
      }
    }

    /** The loop over whole octets, when `n` more bits are going to be read. */
    method ReadOctets(dst: array<byte>, k: nat, ghost n: nat) returns (ok: bool)
      requires Readable(8 * k + n) && k <= dst.Length && dst != buf
      modifies this, dst
      ensures Valid() && ok == (8 * k <= old(|Rest()|))
      ensures ok ==> Readable(n) && Pos() == old(Pos()) + 8 * k
      ensures ok ==> Unpack(dst[..k]) == old(Rest())[..8 * k] && Rest() == old(Rest())[8 * k..]
    {
      hide Unpack, ByteBits;
      ghost var r, p0 := Rest(), Pos();
      NoBitsYet(r);
      ok := true;
      for i := 0 to k
        invariant ok && Readable(8 * (k - i) + n) && Pos() == p0 + 8 * i && 8 * i <= |r| && Rest() == r[8 * i..]
        invariant Unpack(dst[..i]) == r[..8 * i]
      {
        var b;
        ok, b := ReadByte();
        if !ok {
          return;
        }
        dst[i] := b;
        NextOctetRead(dst[..i], b, r, 8 * i);
        assert dst[..i + 1] == dst[..i] + [b];
      }
    }
  }

  /** Reading past the declared end is only harmless if the array goes on behind it. */
  ghost predicate Safe(s: BitStream, found: bool)
    reads s
  {
    s.Valid() && s.Room(0) && (found || s.count < s.buf.Length)
  }

  lemma NoBitsYet(r: seq<bool>)
    ensures Unpack([]) == r[..0]
  {
  }

  lemma NextOctetRead(s: seq<byte>, b: byte, r: seq<bool>, k: nat)
    requires k + 8 <= |r| && Unpack(s) == r[..k] && ByteBits(b) == r[k..][..8]
    ensures Unpack(s + [b]) == r[..k + 8] && r[k..][8..] == r[k + 8..]
  {
    hide Unpack, ByteBits;
    UnpackConcat(s, [b]);
    UnpackOne(b);
    assert r[..k] + r[k..][..8] == r[..k + 8];
  }

  lemma LastOctetRead(s: seq<byte>, b: byte, n: nat, r: seq<bool>, k: nat)
    requires n < 8 && k + n <= |r| && Unpack(s) == r[..k] && ByteBits(b) == Zeros(8 - n) + r[k..][..n]
    ensures Unpack(s + [ShiftLeft(b, 8 - n)]) == r[..k + n] + Zeros(8 - n) && r[k..][n..] == r[k + n..]
  {
    hide Unpack, ByteBits, ShiftLeft;
    BitsShiftLeft(b, 8 - n);
    UnpackConcat(s, [ShiftLeft(b, 8 - n)]);
    UnpackOne(ShiftLeft(b, 8 - n));
    assert ByteBits(b)[8 - n..] == r[k..][..n];
    assert r[..k] + r[k..][..n] == r[..k + n];
  }

  /** The bits that a partial octet contributes: its low-order bits, complemented on request. */
  function PartialBits(v: byte, nbits: nat, negate: bool): (r: seq<bool>)
    requires nbits <= 8
    ensures |r| == nbits
  {
    if negate then NotBits(ByteBits(v)[8 - nbits..]) else ByteBits(v)[8 - nbits..]
  }

  lemma NegatedPartial(v: byte, nbits: nat)
    requires nbits <= 8
    ensures ByteBits(LowMask(nbits) & !v) == Zeros(8 - nbits) + PartialBits(v, nbits, true)
  {
    hide ByteBits, LowMask;
    Commutes(LowMask(nbits), !v);
    BitsLowMask(!v, nbits);
    BitsNot(v);
  }

  lemma Commutes(a: byte, b: byte)
    ensures a & b == b & a
  {
  }

  lemma PlainPartial(v: byte, nbits: nat)
    requires nbits <= 8 && v & LowMask(nbits) == v
    ensures ByteBits(v) == Zeros(8 - nbits) + PartialBits(v, nbits, false)
  {
    BitsLowMask(v, nbits);
  }

  lemma LastBits(b: byte, n: nat)
    requires n < 8
    ensures ShiftRight(b, 8 - n) & LowMask(n) == ShiftRight(b, 8 - n)
    ensures PartialBits(ShiftRight(b, 8 - n), n, false) == ByteBits(b)[..n]
  {
    hide ByteBits, ShiftRight, LowMask;
    var v := ShiftRight(b, 8 - n);
    BitsShiftRight(b, 8 - n);
    BitsLowMask(v, n);
    SameBits(v & LowMask(n), v);
  }

  /** A field read from two neighbouring octets. */
  lemma JoinBits(x: byte, y: byte, t: nat)
    requires t <= 8
    ensures ByteBits(ShiftLeft(x, t) | ShiftRight(y, 8 - t)) == ByteBits(x)[t..] + ByteBits(y)[..t]
  {
    BitsShiftLeft(x, t);
    BitsShiftRight(y, 8 - t);
    BitsOr(ShiftLeft(x, t), ShiftRight(y, 8 - t));
    OrJoined(ByteBits(x), ByteBits(y), t);
  }

  lemma OrJoined(a: seq<bool>, b: seq<bool>, t: nat)
    requires |a| == |b| == 8 && t <= 8
    ensures OrBits(a[t..] + Zeros(t), 0, Zeros(8 - t) + b[..t]) == a[t..] + b[..t]
  {
  }

  lemma UnpackPrefix(s: seq<byte>, i: nat, n: nat)
    requires i < |s| && n <= 8
    ensures Unpack(s)[..8 * i + n] == Unpack(s)[..8 * i] + ByteBits(s[i])[..n]
  {
    UnpackSlice(s, i);
    PrefixField(Unpack(s), 8 * i, ByteBits(s[i]), n);
  }

  lemma Consumed(u: seq<bool>, a: nat, b: nat, c: nat)
    requires a <= b <= c <= |u|
    ensures u[a..c][..b - a] == u[a..b] && u[a..c][b - a..] == u[b..c]
  {
    SliceSlice(u, a, c, 0, b - a);
    SliceSlice(u, a, c, b - a, c - a);
  }

  lemma AppendAssoc(s: seq<bool>, u: seq<bool>, a: nat, x: seq<bool>, n: nat)
    requires n <= |x| && a + n <= |u| && u[..a + n] == u[..a] + x[..n]
    ensures s + u[..a] + x[..n] == s + u[..a + n]
    ensures n == |x| ==> x[..n] == x
  {
  }

  lemma PrefixField(u: seq<bool>, a: nat, x: seq<bool>, n: nat)
    requires n <= |x| && a + |x| <= |u| && u[a..a + |x|] == x
    ensures u[..a + n] == u[..a] + x[..n]
  {
    SliceSlice(u, a, a + |x|, 0, n);
    SliceJoin(u, 0, a, a + n);
  }

  /** Octet `x` stands at position `a` of `u`. */
  ghost predicate OctetAt(u: seq<bool>, a: nat, x: seq<bool>) {
    |x| == 8 && a + 8 <= |u| && u[a..a + 8] == x
  }

  /** A field of `n` bits that starts at bit `cb` of octet `x` and may continue in octet `y`. */
  function FieldOf(x: seq<bool>, y: seq<bool>, cb: nat, n: nat): seq<bool>
    requires |x| == |y| == 8 && cb < 8 && n <= 8
  {
    if cb + n <= 8 then x[cb..cb + n] else x[cb..] + y[..cb + n - 8]
  }

  lemma FieldBits(u: seq<bool>, a: nat, x: seq<bool>, y: seq<bool>, cb: nat, n: nat)
    requires OctetAt(u, a, x) && |y| == 8 && cb < 8 && n <= 8
    requires cb + n <= 8 || OctetAt(u, a + 8, y)
    ensures a + cb + n <= |u| && u[a + cb..a + cb + n] == FieldOf(x, y, cb, n)
  {
    var p, q, r := a + cb, a + 8, a + cb + n;
    if cb + n <= 8 {
      SliceSlice(u, a, q, cb, cb + n);
    } else {
      SliceSlice(u, a, q, cb, 8);
      assert x[cb..8] == x[cb..];
      SliceSlice(u, q, q + 8, 0, cb + n - 8);
      assert y[0..cb + n - 8] == y[..cb + n - 8];
      SliceJoin(u, p, q, r);
    }
  }

  lemma UnpackOctet(s: seq<byte>, j: nat)
    requires j < |s|
    ensures OctetAt(Unpack(s), 8 * j, ByteBits(s[j]))
    ensures j + 1 < |s| ==> OctetAt(Unpack(s), 8 * j + 8, ByteBits(s[j + 1]))
  {
    UnpackSlice(s, j);
    if j + 1 < |s| { UnpackSlice(s, j + 1); }
  }

  /** The octet assembled for a field of up to eight bits. */
  lemma Extract(s: seq<byte>, j: nat, cb: nat, n: nat, v: byte)
    requires cb < 8 && n <= 8 && j < |s| && (cb + n > 8 ==> j + 1 < |s|)
    requires v == Assembled(s[j], if cb + n <= 8 then s[j] else s[j + 1], cb, n)
    ensures var u, a := Unpack(s), 8 * j;
            a + cb + n <= |u| && ByteBits(v) == Zeros(8 - n) + u[a + cb..a + cb + n]
  {
    hide *;
    UnpackOctet(s, j);
    var y := if cb + n <= 8 then s[j] else s[j + 1];
    ExtractBits(Unpack(s), 8 * j, s[j], y, cb, n);
  }

  lemma ExtractBits(u: seq<bool>, a: nat, x: byte, y: byte, cb: nat, n: nat)
    requires cb < 8 && n <= 8 && OctetAt(u, a, ByteBits(x))
    requires cb + n > 8 ==> OctetAt(u, a + 8, ByteBits(y))
    ensures a + cb + n <= |u| && ByteBits(Assembled(x, y, cb, n)) == Zeros(8 - n) + u[a + cb..a + cb + n]
  {
    hide ByteBits, OctetAt, FieldOf, Assembled, Zeros;
    FieldBits(u, a, ByteBits(x), ByteBits(y), cb, n);
    AssembledField(x, y, cb, n);
  }

  /** The octet that the readers put together from one octet, or from two neighbouring ones. */
  function Assembled(x: byte, y: byte, cb: nat, n: nat): byte
    requires cb < 8 && n <= 8
  {
    (if cb + n <= 8 then ShiftRight(x, 8 - cb - n)
      else ShiftLeft(x, cb + n - 8) | ShiftRight(y, 16 - cb - n)) & LowMask(n)
  }

  lemma AssembledField(x: byte, y: byte, cb: nat, n: nat)
    requires cb < 8 && n <= 8
    ensures ByteBits(Assembled(x, y, cb, n)) == Zeros(8 - n) + FieldOf(ByteBits(x), ByteBits(y), cb, n)
  {
    hide ByteBits, ShiftLeft, ShiftRight, LowMask;
    if cb + n <= 8 {
      ShiftedOut(x, n, cb);
    } else {
      JoinedOut(x, y, n, cb + n - 8);
    }
  }

  lemma ExtractByte(s: seq<byte>, j: nat, cb: nat, v: byte)
    requires cb < 8 && j < |s| && (cb > 0 ==> j + 1 < |s|)
    requires v == if cb == 0 then ShiftLeft(s[j], 0) else ShiftLeft(s[j], cb) | ShiftRight(s[j + 1], 8 - cb)
    ensures var u, a := Unpack(s), 8 * j + cb;
            a + 8 <= |u| && ByteBits(v) == u[a..a + 8]
  {
    hide Unpack, ByteBits, ShiftLeft, ShiftRight;
    NoShift(s[j]);
    FullMask(v);
    Extract(s, j, cb, 8, v);
  }

  lemma NoShift(v: byte)
    ensures ShiftLeft(v, 0) == ShiftRight(v, 0)
  {
  }

  lemma FullMask(v: byte)
    ensures v & LowMask(8) == v
  {
  }

  lemma ShiftedOut(x: byte, n: nat, t: nat)
    requires n + t <= 8
    ensures ByteBits(ShiftRight(x, 8 - n - t) & LowMask(n)) == Zeros(8 - n) + ByteBits(x)[t..t + n]
  {
    hide ByteBits, ShiftRight;
    BitsShiftRight(x, 8 - n - t);
    BitsLowMask(ShiftRight(x, 8 - n - t), n);
    var y := Zeros(8 - n - t) + ByteBits(x)[..n + t];
    assert y[8 - n..] == ByteBits(x)[t..t + n];
  }

  lemma JoinedOut(x: byte, y: byte, n: nat, t: nat)
    requires t <= n <= 8
    ensures ByteBits((ShiftLeft(x, t) | ShiftRight(y, 8 - t)) & LowMask(n)) ==
            Zeros(8 - n) + (ByteBits(x)[8 - (n - t)..] + ByteBits(y)[..t])
  {
    hide ByteBits, ShiftLeft, ShiftRight, LowMask;
    JoinBits(x, y, t);
    BitsLowMask(ShiftLeft(x, t) | ShiftRight(y, 8 - t), n);
    var z := ByteBits(x)[t..] + ByteBits(y)[..t];
    assert z[8 - n..] == ByteBits(x)[8 - (n - t)..] + ByteBits(y)[..t];
  }
}
