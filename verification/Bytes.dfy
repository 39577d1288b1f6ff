/** Octets as 8-bit words, their individual bits, and octet arrays read as one bit string. */
module Bytes {
  import opened Bits

  type byte = bv8

  /** The table `masks`: the single bit at position `k`, bit 0 being the most significant. */
  function Mask(k: nat): byte
    requires k < 8
  {
    if k == 0 then 0x80 else if k == 1 then 0x40 else if k == 2 then 0x20 else if k == 3 then 0x10
    else if k == 4 then 0x08 else if k == 5 then 0x04 else if k == 6 then 0x02 else 0x01
  }

  /** The table `masksb`: the `n` low-order bits. */
  function LowMask(n: nat): byte
    requires n <= 8
  {
    if n == 0 then 0x00 else if n == 1 then 0x01 else if n == 2 then 0x03 else if n == 3 then 0x07
    else if n == 4 then 0x0F else if n == 5 then 0x1F else if n == 6 then 0x3F else if n == 7 then 0x7F else 0xFF
  }

  predicate Bit(b: byte, k: nat)
    requires k < 8
  {
    b & Mask(k) != 0
  }

  function ByteBits(b: byte): (s: seq<bool>)
    ensures |s| == 8
  {
    seq(8, k requires 0 <= k < 8 => Bit(b, k))
  }

  /** The octet with the given bits, shifted in one after the other. */
  function OfBits(s: seq<bool>): byte {
    if s == [] then 0 else (OfBits(s[..|s| - 1]) << 1) | (if s[|s| - 1] then 1 else 0)
  }

  /** The value of an octet as an unsigned number. */
  function ByteVal(b: byte): (v: nat)
    ensures v < 256
  {
    ToNatBound(ByteBits(b));
    ToNat(ByteBits(b))
  }

  /** The conversion of an unsigned number to an octet, which keeps the low-order eight bits. */
  function ByteOf(v: nat): byte {
    OfBits(FromNat(v, 8))
  }

  /** `v >> n` on an octet, for the shift amounts that occur. */
  function ShiftRight(v: byte, n: nat): byte
    requires n <= 8
  {
    if n == 0 then v else if n == 1 then v >> 1 else if n == 2 then v >> 2 else if n == 3 then v >> 3
    else if n == 4 then v >> 4 else if n == 5 then v >> 5 else if n == 6 then v >> 6 else if n == 7 then v >> 7 else 0
  }

  /** `(byte)(v << n)` on an octet, for the shift amounts that occur. */
  function ShiftLeft(v: byte, n: nat): byte
    requires n <= 8
  {
    if n == 0 then v else if n == 1 then v << 1 else if n == 2 then v << 2 else if n == 3 then v << 3
    else if n == 4 then v << 4 else if n == 5 then v << 5 else if n == 6 then v << 6 else if n == 7 then v << 7 else 0
  }

  /** `s` with the bits of `x` or-ed in from position `at` on. */
  function OrBits(s: seq<bool>, at: nat, x: seq<bool>): (r: seq<bool>)
    ensures |r| == |s|
  {
    seq(|s|, i requires 0 <= i < |s| => s[i] || (at <= i < at + |x| && x[i - at]))
  }

  lemma BitOr(a: byte, b: byte, k: nat)
    requires k < 8
    ensures Bit(a | b, k) == (Bit(a, k) || Bit(b, k))
  {
  }

  lemma BitNot(a: byte, k: nat)
    requires k < 8
    ensures Bit(!a, k) == !Bit(a, k)
  {
  }

  lemma BitLowMask(v: byte, n: nat, k: nat)
    requires n <= 8 && k < 8
    ensures Bit(v & LowMask(n), k) == (8 - n <= k && Bit(v, k))
  {
  }

  lemma BitShiftRight(v: byte, n: nat, k: nat)
    requires n <= 8 && k < 8
    ensures Bit(ShiftRight(v, n), k) == (n <= k && Bit(v, k - n))
  {
  }

  lemma BitShiftLeft(v: byte, n: nat, k: nat)
    requires n <= 8 && k < 8
    ensures Bit(ShiftLeft(v, n), k) == (k + n < 8 && Bit(v, k + n))
  {
  }

  lemma BitsMask(n: nat)
    requires n < 8
    ensures ByteBits(Mask(n)) == Zeros(n) + [true] + Zeros(7 - n)
  {
    forall k | 0 <= k < 8 ensures Bit(Mask(n), k) == (k == n) {}
  }

  lemma BitsOr(a: byte, b: byte)
    ensures ByteBits(a | b) == OrBits(ByteBits(a), 0, ByteBits(b))
  {
    hide Bit;
    forall k | 0 <= k < 8 ensures ByteBits(a | b)[k] == OrBits(ByteBits(a), 0, ByteBits(b))[k] { BitOr(a, b, k); }
  }

  lemma BitsNot(a: byte)
    ensures ByteBits(!a) == NotBits(ByteBits(a))
  {
    hide Bit;
    forall k | 0 <= k < 8 ensures ByteBits(!a)[k] == !ByteBits(a)[k] { BitNot(a, k); }
  }

  lemma BitsShiftRight(v: byte, n: nat)
    requires n <= 8
    ensures ByteBits(ShiftRight(v, n)) == Zeros(n) + ByteBits(v)[..8 - n]
  {
    hide Bit, ShiftRight;
    forall k | 0 <= k < 8 ensures ByteBits(ShiftRight(v, n))[k] == (n <= k && Bit(v, k - n)) { BitShiftRight(v, n, k); }
  }

  lemma BitsShiftLeft(v: byte, n: nat)
    requires n <= 8
    ensures ByteBits(ShiftLeft(v, n)) == ByteBits(v)[n..] + Zeros(n)
  {
    hide Bit, ShiftLeft;
    forall k | 0 <= k < 8
      ensures ByteBits(ShiftLeft(v, n))[k] == (k + n < 8 && Bit(v, k + n)) { BitShiftLeft(v, n, k); }
  }

  lemma BitsLowMask(v: byte, n: nat)
    requires n <= 8
    ensures ByteBits(v & LowMask(n)) == Zeros(8 - n) + ByteBits(v)[8 - n..]
  {
    hide Bit, LowMask;
    var s := Zeros(8 - n) + ByteBits(v)[8 - n..];
    forall k | 0 <= k < 8 ensures ByteBits(v & LowMask(n))[k] == s[k] { BitLowMask(v, n, k); }
  }

  lemma {:induction false} OfBitsBit(s: seq<bool>, k: nat)
    requires |s| <= 8 && k < 8
    ensures Bit(OfBits(s), k) == (8 - |s| <= k && s[k - (8 - |s|)])
  {
    if s != [] {
      var r := OfBits(s[..|s| - 1]);
      BitShiftIn(r, s[|s| - 1], k);
      if k < 7 { OfBitsBit(s[..|s| - 1], k + 1); }
    }
  }

  lemma BitShiftIn(r: byte, b: bool, k: nat)
    requires k < 8
    ensures Bit((r << 1) | (if b then 1 else 0), k) == if k < 7 then Bit(r, k + 1) else b
  {
  }

  lemma OfBitsInverse(s: seq<bool>)
    requires |s| == 8
    ensures ByteBits(OfBits(s)) == s
  {
    forall k | 0 <= k < 8 ensures ByteBits(OfBits(s))[k] == s[k] { OfBitsBit(s, k); }
  }

  lemma BitsInverse(b: byte)
    ensures OfBits(ByteBits(b)) == b
  {
    OfBitsInverse(ByteBits(b));
    SameBits(OfBits(ByteBits(b)), b);
  }

  lemma SameBits(a: byte, b: byte)
    requires ByteBits(a) == ByteBits(b)
    ensures a == b
  {
    forall k | 0 <= k < 8 ensures Bit(a, k) == Bit(b, k) {
      assert ByteBits(a)[k] == ByteBits(b)[k];
    }
    SameEachBit(a, b);
  }

  lemma SameEachBit(a: byte, b: byte)
    requires forall k :: 0 <= k < 8 ==> Bit(a, k) == Bit(b, k)
    ensures a == b
  {
    assert Bit(a, 0) == Bit(b, 0) && Bit(a, 1) == Bit(b, 1) && Bit(a, 2) == Bit(b, 2) && Bit(a, 3) == Bit(b, 3);
    assert Bit(a, 4) == Bit(b, 4) && Bit(a, 5) == Bit(b, 5) && Bit(a, 6) == Bit(b, 6) && Bit(a, 7) == Bit(b, 7);
  }

  lemma ByteOfBits(v: nat)
    ensures ByteBits(ByteOf(v)) == FromNat(v, 8)
  {
    OfBitsInverse(FromNat(v, 8));
  }

  lemma ByteValOf(v: nat)
    requires v < 256
    ensures ByteVal(ByteOf(v)) == v
  {
    ByteOfBits(v);
    ToNatFromNat(v, 8);
  }

  /** The value of an octet is the built-in one: the bits stand most significant first. */
  lemma ByteValIs(b: byte)
    ensures ByteVal(b) == b as int
  {
    hide Bit;
    var s := ByteBits(b);
    EightBits(s);
    assert s[0] == Bit(b, 0) && s[1] == Bit(b, 1) && s[2] == Bit(b, 2) && s[3] == Bit(b, 3);
    assert s[4] == Bit(b, 4) && s[5] == Bit(b, 5) && s[6] == Bit(b, 6) && s[7] == Bit(b, 7);
    BitsWorth(b);
  }

  lemma EightBits(s: seq<bool>)
    requires |s| == 8
    ensures ToNat(s) == (if s[0] then 128 else 0) + (if s[1] then 64 else 0) + (if s[2] then 32 else 0)
            + (if s[3] then 16 else 0) + (if s[4] then 8 else 0) + (if s[5] then 4 else 0)
            + (if s[6] then 2 else 0) + (if s[7] then 1 else 0)
  {
    var a, b := s[..4], s[4..];
    assert s == a + b;
    TwoHalves(a, b);
    hide ToNat;
    FourBits(a);
    FourBits(b);
  }

  lemma TwoHalves(a: seq<bool>, b: seq<bool>)
    requires |b| == 4
    ensures ToNat(a + b) == 16 * ToNat(a) + ToNat(b)
  {
    hide ToNat;
    Pow2Values();
    ToNatConcat(a, b);
  }

  lemma FourBits(s: seq<bool>)
    requires |s| == 4
    ensures ToNat(s) ==
            (if s[0] then 8 else 0) + (if s[1] then 4 else 0) + (if s[2] then 2 else 0) + (if s[3] then 1 else 0)
  {
    var t := s[..3];
    assert t[..2] == s[..2] && s[..2][..1] == s[..1] && s[..1][..0] == [];
    assert ToNat(s[..1]) == (if s[0] then 1 else 0);
    assert ToNat(s[..2]) == 2 * ToNat(s[..1]) + (if s[1] then 1 else 0);
    assert ToNat(t) == 2 * ToNat(s[..2]) + (if s[2] then 1 else 0);
  }

  lemma BitsWorth(b: byte)
    ensures b as int == (if Bit(b, 0) then 128 else 0) + (if Bit(b, 1) then 64 else 0) + (if Bit(b, 2) then 32 else 0)
            + (if Bit(b, 3) then 16 else 0) + (if Bit(b, 4) then 8 else 0) + (if Bit(b, 5) then 4 else 0)
            + (if Bit(b, 6) then 2 else 0) + (if Bit(b, 7) then 1 else 0)
  {
  }

  /** The conversion keeps the remainder modulo 256. */
  lemma ByteOfIs(v: nat)
    ensures ByteOf(v) as int == v % 0x100
  {
    hide FromNat, ToNat;
    ByteValIs(ByteOf(v));
    ByteOfBits(v);
    Pow2Values();
    var k, r := v / 0x100, v % 0x100;
    FromNatMod(r, 8, k);
    assert r + k * Pow2(8) == v;
    ToNatFromNat(r, 8);
  }

  lemma ByteOfVal(b: byte)
    ensures ByteOf(ByteVal(b)) == b
  {
    hide ByteOf, Bit;
    ByteOfBits(ByteVal(b));
    FromNatToNat(ByteBits(b));
    SameBits(ByteOf(ByteVal(b)), b);
  }

  /** A length below 2^16 as its high and its low octet. */
  lemma TwoOctetsOf(n: nat)
    requires n < 0x1_0000
    ensures ByteOf(n / 0x100) as int == n / 256 && ByteOf(n % 0x100) as int == n % 256
  {
    hide ByteOf;
    ByteOfIs(n / 0x100);
    ByteOfIs(n % 0x100);
  }

  /** An octet string as one bit string. */
  function Unpack(s: seq<byte>): (r: seq<bool>)
    ensures |r| == 8 * |s|
  {
    if s == [] then [] else Unpack(s[..|s| - 1]) + ByteBits(s[|s| - 1])
  }

  /** A bit string whose length is a multiple of eight as an octet string. */
  function Pack(r: seq<bool>): (s: seq<byte>)
    requires |r| % 8 == 0
    ensures 8 * |s| == |r|
  {
    if r == [] then [] else Pack(r[..|r| - 8]) + [OfBits(r[|r| - 8..])]
  }

  lemma {:induction false} UnpackPack(r: seq<bool>)
    requires |r| % 8 == 0
    ensures Unpack(Pack(r)) == r
  {
    if r != [] {
      UnpackPack(r[..|r| - 8]);
      OfBitsInverse(r[|r| - 8..]);
    }
  }

  lemma PackAppend(r: seq<bool>, b: seq<bool>)
    requires |r| % 8 == 0 && |b| == 8
    ensures Pack(r + b) == Pack(r) + [OfBits(b)]
  {
    var s := r + b;
    assert s[..|r|] == r;
    assert s[|r|..] == b;
    assert |s| - 8 == |r|;
  }

  lemma {:induction false} PackUnpack(s: seq<byte>)
    ensures Pack(Unpack(s)) == s
  {
    if s != [] {
      var t, b := s[..|s| - 1], s[|s| - 1];
      calc {
        Pack(Unpack(s));
        Pack(Unpack(t) + ByteBits(b));
        { PackAppend(Unpack(t), ByteBits(b)); }
        Pack(Unpack(t)) + [OfBits(ByteBits(b))];
        { PackUnpack(t); BitsInverse(b); }
        t + [b];
        s;
      }
    }
  }

  lemma {:induction false} UnpackConcat(a: seq<byte>, b: seq<byte>)
    ensures Unpack(a + b) == Unpack(a) + Unpack(b)
  {
    if b == [] {
      assert a + b == a;
    } else {
      var b' := b[..|b| - 1];
      UnpackConcat(a, b');
      assert (a + b)[..|a + b| - 1] == a + b';
    }
  }

  lemma UnpackOne(b: byte)
    ensures Unpack([b]) == ByteBits(b)
  {
    assert [b][..0] == [];
  }

  /** Bit `k` of octet `j`. */
  lemma {:induction false} UnpackAt(s: seq<byte>, j: nat, k: nat)
    requires j < |s| && k < 8
    ensures Unpack(s)[8 * j + k] == Bit(s[j], k)
  {
    if j < |s| - 1 { UnpackAt(s[..|s| - 1], j, k); }
  }

  /** The bits of octet `j`. */
  lemma {:induction false} UnpackSlice(s: seq<byte>, j: nat)
    requires j < |s|
    ensures Unpack(s)[8 * j..8 * j + 8] == ByteBits(s[j])
  {
    var n := |s| - 1;
    var u := Unpack(s[..n]);
    if j < n {
      UnpackSlice(s[..n], j);
      SliceOfPrefix(u, ByteBits(s[n]), 8 * j, 8 * j + 8);
    } else {
      SuffixOf(u, ByteBits(s[n]));
    }
  }

  lemma SliceOfPrefix(u: seq<bool>, x: seq<bool>, a: nat, b: nat)
    requires a <= b <= |u|
    ensures (u + x)[a..b] == u[a..b]
  {
  }

  lemma SuffixOf(u: seq<bool>, x: seq<bool>)
    ensures (u + x)[|u|..|u| + |x|] == x
  {
  }

  lemma SliceSlice(u: seq<bool>, a: nat, b: nat, c: nat, d: nat)
    requires a <= b <= |u| && c <= d <= b - a
    ensures u[a..b][c..d] == u[a + c..a + d]
  {
    var v := u[a..b];
    assert forall i :: 0 <= i < |v| ==> v[i] == u[a + i];
    assert v[c..d] == u[a + c..a + d];
  }

  lemma SliceJoin(u: seq<bool>, a: nat, b: nat, c: nat)
    requires a <= b <= c <= |u|
    ensures u[a..b] + u[b..c] == u[a..c]
  {
  }

  lemma UnpackTake(s: seq<byte>, n: nat)
    requires n <= |s|
    ensures Unpack(s[..n]) == Unpack(s)[..8 * n]
  {
    UnpackConcat(s[..n], s[n..]);
    assert s == s[..n] + s[n..];
  }

  lemma {:induction false} UnpackZeros(n: nat)
    ensures Unpack(seq(n, _ => 0)) == Zeros(8 * n)
  {
    var s: seq<byte> := seq(n, _ => 0);
    if n > 0 {
      UnpackZeros(n - 1);
      assert s[..n - 1] == seq(n - 1, _ => 0);
      forall k | 0 <= k < 8 ensures !Bit(0, k) {}
    }
  }

  ghost predicate ZeroFrom(s: seq<bool>, p: nat) {
    forall i :: p <= i < |s| ==> !s[i]
  }

  /** `t` is `s` with `x` appended at position `p`, nothing before it changed and only zeros after it. */
  ghost predicate Appended(s: seq<bool>, p: nat, x: seq<bool>, t: seq<bool>) {
    && p + |x| <= |s| == |t|
    && t[..p + |x|] == s[..p] + x
    && ZeroFrom(t, p + |x|)
  }

  lemma AppendedTwice(s: seq<bool>, p: nat, x: seq<bool>, n: nat, t: seq<bool>, u: seq<bool>)
    requires n <= |x|
    requires Appended(s, p, x[..n], t)
    requires if n < |x| then Appended(t, p + n, x[n..], u) else t == u
    ensures Appended(s, p, x, u)
  {
    assert x[..n] + x[n..] == x;
    if n < |x| {
      assert u[..p + |x|] == s[..p] + (x[..n] + x[n..]);
    }
  }

  /** Or-ing a padded field into an octet whose bits are still zero from the field on appends the field. */
  lemma Place(s: seq<byte>, j: nat, v: byte, k: nat, x: seq<bool>, m: nat)
    requires j < |s| && ByteBits(v) == Zeros(k) + x + Zeros(m)
    requires ZeroFrom(Unpack(s), 8 * j + k)
    ensures Appended(Unpack(s), 8 * j + k, x, Unpack(s[j := s[j] | v]))
  {
    hide Bit, Unpack;
    var u, r := Unpack(s), Unpack(s[j := s[j] | v]);
    forall i | 0 <= i < 8 * |s|
      ensures r[i] == (u[i] || (8 * j + k <= i < 8 * j + k + |x| && x[i - 8 * j - k]))
    {
      OrAt(s, j, v, i / 8, i % 8);
      assert 8 * j <= i < 8 * j + 8 ==> Bit(v, i - 8 * j) == (Zeros(k) + x + Zeros(m))[i - 8 * j];
    }
  }

  lemma OrAt(s: seq<byte>, j: nat, v: byte, i: nat, k: nat)
    requires j < |s| && i < |s| && k < 8
    ensures Unpack(s[j := s[j] | v])[8 * i + k] == (Unpack(s)[8 * i + k] || (i == j && Bit(v, k)))
  {
    UnpackAt(s, i, k);
    UnpackAt(s[j := s[j] | v], i, k);
    BitOr(s[j], v, k);
  }

  /** The high part of an octet, moved to the end of the octet it starts in. */
  lemma HighPart(v: byte, cb: nat)
    requires cb <= 8
    ensures ByteBits(ShiftRight(v, cb)) == Zeros(cb) + ByteBits(v)[..8 - cb] + Zeros(0)
  {
    hide ByteBits, ShiftRight;
    BitsShiftRight(v, cb);
  }

  /** The low part of an octet, moved to the start of the next one. */
  lemma LowPart(v: byte, n: nat)
    requires n <= 8
    ensures ByteBits(ShiftLeft(v, n)) == Zeros(0) + ByteBits(v)[n..] + Zeros(n)
  {
    hide ByteBits, ShiftLeft;
    BitsShiftLeft(v, n);
  }

  /** The low-order bits of an octet, moved to where they go inside one octet. */
  lemma MiddlePart(w: byte, x: seq<bool>, cb: nat)
    requires cb + |x| <= 8 && ByteBits(w) == Zeros(8 - |x|) + x
    ensures ByteBits(ShiftLeft(w, 8 - cb - |x|)) == Zeros(cb) + x + Zeros(8 - cb - |x|)
  {
    hide ByteBits, ShiftLeft;
    BitsShiftLeft(w, 8 - cb - |x|);
    assert ByteBits(w)[8 - cb - |x|..] == Zeros(cb) + x;
  }

  /** The leading bits of a field that continues in the next octet. */
  lemma SplitHigh(w: byte, x: seq<bool>, cb: nat)
    requires |x| < 8 < cb + |x| && cb < 8 && ByteBits(w) == Zeros(8 - |x|) + x
    ensures ByteBits(ShiftRight(w, cb + |x| - 8)) == Zeros(cb) + x[..8 - cb] + Zeros(0)
  {
    hide ByteBits, ShiftRight;
    var n := cb + |x| - 8;
    BitsShiftRight(w, n);
    assert ByteBits(w)[..8 - n] == Zeros(8 - |x|) + x[..8 - cb];
    assert Zeros(n) + Zeros(8 - |x|) == Zeros(cb);
  }

  /** The trailing bits of a field that started in the previous octet. */
  lemma SplitLow(w: byte, x: seq<bool>, cb: nat)
    requires |x| < 8 < cb + |x| && cb < 8 && ByteBits(w) == Zeros(8 - |x|) + x
    ensures ByteBits(ShiftLeft(w, 16 - cb - |x|)) == Zeros(0) + x[8 - cb..] + Zeros(16 - cb - |x|)
  {
    hide ByteBits, ShiftLeft;
    LowPart(w, 16 - cb - |x|);
    assert ByteBits(w)[16 - cb - |x|..] == x[8 - cb..];
  }
}
