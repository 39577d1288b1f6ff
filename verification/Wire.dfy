/**
 * The octets of the messages on the wire, and of the numbers inside them: big endian, two's complement, most
 * significant bit first.
 */
module Wire {
  import opened Bits
  import opened Bytes
  import opened Per
  import opened Messages
  import opened Pdus

  // ---------------------------------------------------------------- division by powers of two

  lemma DivIs(v: int, d: int, q: int)
    requires d > 0 && d * q <= v < d * q + d
    ensures v / d == q
  {
    var a, b := v / d, v % d;
    assert v == d * a + b && 0 <= b < d;
    assert d * (a - q) == d * a - d * q;
    Multiple(d, a - q);
  }

  lemma Multiple(d: int, e: int)
    requires d >= 0
    ensures e >= 1 ==> d * e >= d
    ensures e <= -1 ==> d * e <= -d
  {
    assert d * e == d + d * (e - 1) && d * e == -d + d * (e + 1);
  }

  /** Dividing by 256 and then by a power of two is dividing by the product. */
  lemma DivTwice(v: int, k: nat)
    ensures v / Pow2(k + 8) == (v / 0x100) / Pow2(k)
  {
    Pow2Values();
    Pow2Add(8, k);
    var p, u := Pow2(k), v / 0x100;
    var q := u / p;
    hide Pow2;
    assert p * q <= u < p * q + p;
    assert 0x100 * (p * q) <= v < 0x100 * (p * q) + 0x100 * p;
    assert (0x100 * p) * q == 0x100 * (p * q) by { MulAssoc(0x100, p, q); }
    DivIs(v, 0x100 * p, q);
  }

  // ---------------------------------------------------------------- numbers as octets

  lemma PackConcat(a: seq<bool>, b: seq<bool>)
    requires |a| % 8 == 0 && |b| % 8 == 0
    ensures Pack(a + b) == Pack(a) + Pack(b)
  {
    hide Pack, Unpack;
    UnpackPack(a);
    UnpackPack(b);
    UnpackConcat(Pack(a), Pack(b));
    PackUnpack(Pack(a) + Pack(b));
  }

  lemma PackOne(v: nat)
    ensures Pack(FromNat(v, 8)) == [ByteOf(v)]
  {
    hide FromNat;
    var s := FromNat(v, 8);
    assert s[..0] == [] && s[0..] == s && Pack(s[..0]) == [];
    PackAppend([], s);
    assert [] + s == s;
  }

  lemma LowOctet(u: nat)
    ensures FromNat(u, 8) == FromNat(u % 0x100, 8)
  {
    Pow2Values();
    FromNatMod(u % 0x100, 8, u / 0x100);
  }

  /** The last octet of a field is the value modulo 256, those before it are the field of the quotient. */
  lemma NatShift(u: nat, n: nat)
    ensures FromNat(u, 8 * n + 8) == FromNat(u / 0x100, 8 * n) + FromNat(u % 0x100, 8)
  {
    hide FromNat, Shr;
    FromNatSplit(u, 8 * n, 8);
    Shr8(u);
    LowOctet(u);
  }

  lemma NegativeShift(u: nat, n: nat)
    ensures NotBits(FromNat(u, 8 * n + 8)) == NotBits(FromNat(u / 0x100, 8 * n)) + FromNat(255 - u % 0x100, 8)
  {
    hide FromNat;
    NatShift(u, n);
    NotConcat(FromNat(u / 0x100, 8 * n), FromNat(u % 0x100, 8));
    Pow2Values();
    Complement(u % 0x100, 8);
  }

  lemma FloorOfNegative(v: int)
    requires v < 0
    ensures v / 0x100 == -((-v - 1) / 0x100) - 1 && v % 0x100 == 255 - (-v - 1) % 0x100
  {
  }

  /** For two's complement fields the quotient is rounded down. */
  lemma TwosShift(v: int, n: nat)
    ensures TwosBits(v, 8 * n + 8) == TwosBits(v / 0x100, 8 * n) + FromNat(v % 0x100, 8)
  {
    hide FromNat, NotBits;
    if v >= 0 {
      NatShift(v, n);
    } else {
      FloorOfNegative(v);
      NegativeShift(-v - 1, n);
    }
  }

  /** Octet `i` of a two's complement field of `n` octets: the value shifted right, modulo 256. */
  lemma {:induction false} TwosOctets(v: int, n: nat, i: nat)
    requires i < n
    ensures Pack(TwosBits(v, 8 * n))[i] == ByteOf((v / Pow2(8 * (n - 1 - i))) % 0x100)
    decreases n
  {
    hide Pack, TwosBits, ByteOf, Pow2;
    var m := n - 1;
    var k := 8 * (m - i);
    TwosShift(v, m);
    PackConcat(TwosBits(v / 0x100, 8 * m), FromNat(v % 0x100, 8));
    PackOne(v % 0x100);
    if i == m {
      NoShift(v);
    } else {
      TwosOctets(v / 0x100, m, i);
      DivTwice(v, k - 8);
    }
  }

  lemma NoShift(v: int)
    ensures v / Pow2(0) == v
  {
  }

  // ---------------------------------------------------------------- messages as octets

  /** The fewest octets whose two's complement range holds the value. */
  predicate FewestOctets(v: int, n: nat) {
    && n >= 1 && -(Pow2(8 * n - 1) as int) <= v < Pow2(8 * n - 1)
    && (n > 1 ==> !(-(Pow2(8 * n - 9) as int) <= v < Pow2(8 * n - 9)))
  }

  /** Octets one after the other. */
  lemma PackFour(a: seq<bool>, b: seq<bool>, c: seq<bool>, d: seq<bool>, n: nat, k: nat)
    requires |a| == |c| == 8 && |b| == 8 * n && |d| == 8 * k
    ensures Pack(a + b + (c + d)) == Pack(a) + Pack(b) + (Pack(c) + Pack(d))
  {
    hide *;
    Eights(n);
    Eights(k);
    PackConcat(a, b);
    PackConcat(c, d);
    PackConcat(a + b, c + d);
  }

  lemma Eights(n: nat)
    ensures (8 * n) % 8 == 0 && (8 + 8 * n) % 8 == 0
  {
  }

  /** A value in two's complement octets, big endian. */
  function TwosPacked(v: int, n: nat): (o: seq<byte>)
    ensures |o| == n
  {
    Eights(n);
    Pack(TwosBits(v, 8 * n))
  }

  /** A request in pieces. */
  lemma InputPieces(m: Input)
    requires InputValid(m)
    ensures InputPdu(m) == [ByteOf(SignedOctets(m.invokeid))] + TwosPacked(m.invokeid, SignedOctets(m.invokeid)) +
                           [ByteOf(|m.command| - 1)] + m.command
  {
    var n, k := SignedOctets(m.invokeid), |m.command|;
    BitsOf(m);
    PackedIs(m.invokeid, n);
    hide *;
    PartsOf(m, n, k);
    FourParts([ByteOf(n)], TwosPacked(m.invokeid, n), [ByteOf(k - 1)], m.command);
  }

  lemma PackedIs(v: int, n: nat)
    ensures |TwosBits(v, 8 * n)| % 8 == 0 && TwosPacked(v, n) == Pack(TwosBits(v, 8 * n))
  {
    Eights(n);
  }

  lemma PartsOf(m: Input, n: nat, k: nat)
    requires InputValid(m) && n == SignedOctets(m.invokeid) && k == |m.command|
    ensures InputPdu(m) == [ByteOf(n)] + TwosPacked(m.invokeid, n) + ([ByteOf(k - 1)] + m.command)
  {
    var a, t, h, u := FromNat(n, 8), TwosBits(m.invokeid, 8 * n), FromNat(k - 1, 8), Unpack(m.command);
    hide *;
    PackedIs(m.invokeid, n);
    Eights(k);
    calc {
      InputPdu(m);
      { BitsOf(m); }
      Pack(a + t + (h + u));
      { PackFour(a, t, h, u, n, k); }
      Pack(a) + Pack(t) + (Pack(h) + Pack(u));
      { PackOne(n); PackOne(k - 1); PackUnpack(m.command); }
      [ByteOf(n)] + TwosPacked(m.invokeid, n) + ([ByteOf(k - 1)] + m.command);
    }
  }

  lemma FourParts(a: seq<byte>, b: seq<byte>, c: seq<byte>, d: seq<byte>)
    ensures a + b + (c + d) == a + b + c + d
  {
  }

  lemma BitsOf(m: Input)
    requires InputValid(m)
    ensures var n := SignedOctets(m.invokeid);
            var s := FromNat(n, 8) + TwosBits(m.invokeid, 8 * n) + (FromNat(|m.command| - 1, 8) + Unpack(m.command));
            |s| % 8 == 0 && InputPdu(m) == Pack(s)
  {
    hide Pack, Unpack, FromNat, TwosBits, SignedOctets;
    InputRoundTrip(m, []);
  }

  /** Where the parts of a concatenation stand. */
  lemma PlacesOf(a: byte, t: seq<byte>, b: byte, c: seq<byte>, n: nat)
    requires |t| == n
    ensures var p := [a] + t + [b] + c;
            && |p| == n + 2 + |c| && p[0] == a && p[n + 1] == b && p[n + 2..] == c
            && forall j :: 1 <= j <= n ==> p[j] == t[j - 1]
  {
  }

  lemma InputLayout(m: Input, n: nat)
    requires InputValid(m) && n == SignedOctets(m.invokeid)
    ensures var p, k := InputPdu(m), |m.command|;
            && |p| == n + 2 + k && p[0] == ByteOf(n) && p[n + 1] == ByteOf(k - 1) && p[n + 2..] == m.command
            && forall j :: 1 <= j <= n ==> p[j] == TwosPacked(m.invokeid, n)[j - 1]
  {
    assert |m.command| >= 1;
    hide *;
    InputPieces(m);
    PlacesOf(ByteOf(n), TwosPacked(m.invokeid, n), ByteOf(|m.command| - 1), m.command, n);
  }

  /**
   * A request on the wire: the number of octets of its id, the fewest that hold it; the id, big endian in two's
   * complement; the size of the command less one; the command.
   */
  lemma InputOctets(m: Input) returns (n: nat)
    requires InputValid(m)
    ensures n <= 8 && FewestOctets(m.invokeid, n)
    ensures var p, k := InputPdu(m), |m.command|;
            && |p| == n + 2 + k && p[0] as int == n && p[n + 1] as int == k - 1 && p[n + 2..] == m.command
            && (forall j :: 1 <= j <= n ==> p[j] as int == (m.invokeid / Pow2(8 * (n - j))) % 0x100)
  {
    n := SignedOctets(m.invokeid);
    AtMostEight(m.invokeid);
    Fewest(m.invokeid);
    InputLayout(m, n);
    SmallOctet(n);
    assert |m.command| - 1 < 0x100;
    hide *;
    SmallOctet(|m.command| - 1);
    var p := InputPdu(m);
    forall j | 1 <= j <= n ensures p[j] as int == (m.invokeid / Pow2(8 * (n - j))) % 0x100 {
      TwosOctet(m.invokeid, n, j);
    }
  }

  lemma SmallOctet(v: nat)
    requires v < 0x100
    ensures ByteOf(v) as int == v
  {
    hide ByteOf;
    ByteOfIs(v);
  }

  lemma TwosOctet(v: int, n: nat, j: nat)
    requires 1 <= j <= n
    ensures TwosPacked(v, n)[j - 1] as int == (v / Pow2(8 * (n - j))) % 0x100
  {
    PackedIs(v, n);
    hide *;
    TwosOctets(v, n, j - 1);
    SmallOctet((v / Pow2(8 * (n - j))) % 0x100);
  }

  lemma Fewest(v: int)
    ensures FewestOctets(v, SignedOctets(v))
  {
    hide SignedOctets;
    var n := SignedOctets(v);
    SignedOctetsLeast(v, n);
    if n > 1 { SignedOctetsLeast(v, n - 1); }
  }

  /** A reply on the wire: a request, the size of the result less one, and the result. */
  lemma OutputOctets(m: Output)
    requires OutputValid(m)
    ensures var p, q, k := OutputPdu(m), InputPdu(Input(m.invokeid, m.command)), |m.result|;
            && |p| == |q| + 1 + k && p[..|q|] == q && p[|q|] as int == k - 1 && p[|q| + 1..] == m.result
  {
    OutputBitsOf(m);
    var q := InputPdu(Input(m.invokeid, m.command));
    hide *;
    SmallOctet(|m.result| - 1);
    assert OutputPdu(m) == q + [ByteOf(|m.result| - 1)] + m.result;
  }

  lemma OutputBitsOf(m: Output)
    requires OutputValid(m)
    ensures OutputPdu(m) == InputPdu(Input(m.invokeid, m.command)) + [ByteOf(|m.result| - 1)] + m.result
    ensures |m.result| <= 0x100
  {
    hide Pack, Unpack, FromNat, InputBits, ByteOf, SignedOctets;
    var q := Input(m.invokeid, m.command);
    OutputIsInputAndResult(m);
    InputRoundTrip(q, []);
    PackConcat(InputBits(q), OctetBits(m.result));
    PackConcat(FromNat(|m.result| - 1, 8), Unpack(m.result));
    PackOne(|m.result| - 1);
    PackUnpack(m.result);
    ThreeParts(InputPdu(q), [ByteOf(|m.result| - 1)], m.result);
  }

  lemma ThreeParts(a: seq<byte>, b: seq<byte>, c: seq<byte>)
    ensures a + (b + c) == a + b + c
  {
  }

  // ---------------------------------------------------------------- reading octets

  lemma FromTwosValue(s: seq<bool>)
    requires s != []
    ensures TwosBits(TwosValue(s), |s|) == s && FitsTwos(TwosValue(s), |s|)
  {
    hide FromNat, ToNat;
    var w, u := |s|, ToNat(s);
    ToNatBound(s);
    FromNatToNat(s);
    SignBit(s);
    if s[0] {
      Complement(Pow2(w) - 1 - u, w);
    }
  }

  /** The first bit says which half of the range the number is in. */
  lemma SignBit(s: seq<bool>)
    requires s != []
    ensures if s[0] then Pow2(|s| - 1) <= ToNat(s) else ToNat(s) < Pow2(|s| - 1)
  {
    var t := s[1..];
    assert s == [s[0]] + t;
    ToNatConcat([s[0]], t);
    ToNatBound(t);
    assert [s[0]][..0] == [];
    assert ToNat([s[0]]) == if s[0] then 1 else 0;
  }

  /** Octets `a` to `b` as bits. */
  lemma UnpackRange(p: seq<byte>, z: seq<bool>, a: nat, b: nat, from: nat, to: nat)
    requires a <= b <= |p| && from == 8 * a && to == 8 * b
    ensures (Unpack(p) + z)[from..to] == Unpack(p[a..b])
  {
    hide *;
    SplitTwice(p, a, b);
    UnpackMiddle(p[..a], p[a..b], p[b..], z, from, to);
  }

  lemma SplitTwice(p: seq<byte>, a: nat, b: nat)
    requires a <= b <= |p|
    ensures p == p[..a] + (p[a..b] + p[b..])
  {
  }

  lemma UnpackMiddle(x: seq<byte>, y: seq<byte>, w: seq<byte>, z: seq<bool>, from: nat, to: nat)
    requires from == 8 * |x| && to == from + 8 * |y|
    ensures to <= |Unpack(x + (y + w)) + z| && (Unpack(x + (y + w)) + z)[from..to] == Unpack(y)
  {
    hide *;
    UnpackConcat(x, y + w);
    UnpackConcat(y, w);
    MiddleOf(Unpack(x), Unpack(y), Unpack(w), z, from, to);
  }

  lemma MiddleOf(a: seq<bool>, m: seq<bool>, b: seq<bool>, z: seq<bool>, from: nat, to: nat)
    requires from == |a| && to == from + |m|
    ensures (a + (m + b) + z)[from..to] == m
  {
  }

  lemma OneOctetAt(p: seq<byte>, z: seq<bool>, a: nat, from: nat, to: nat)
    requires a < |p| && from == 8 * a && to == from + 8
    ensures ToNat((Unpack(p) + z)[from..to]) == p[a] as int
  {
    hide Unpack, ByteBits, ToNat;
    UnpackRange(p, z, a, a + 1, from, to);
    assert p[a..a + 1] == [p[a]];
    UnpackOne(p[a]);
    ByteValIs(p[a]);
    assert ByteVal(p[a]) == ToNat(ByteBits(p[a]));
  }

  lemma CountedIs(r: seq<bool>, n: nat, to: nat)
    requires to == 8 + 8 * n <= |r| && ToNat(r[0..8]) == n
    ensures CountedAt(r) == Some(r[8..to])
  {
    hide ToNat;
    assert r[0..8] == r[..8];
  }

  lemma UnconstrainedIs(r: seq<bool>, n: nat, c: seq<bool>)
    requires 1 <= n <= 8 && CountedAt(r) == Some(c) && |c| == 8 * n
    ensures UnconstrainedAt(r).Some? && UnconstrainedAt(r).value == (TwosValue(c), 8 + 8 * n)
    ensures FitsTwos(TwosValue(c), 8 * n) && TwosBits(TwosValue(c), 8 * n) == c
  {
    hide CountedAt, TwosValue, TwosBits, FitsTwos, Wrap64;
    FromTwosValue(c);
    FitsWord(TwosValue(c), n);
  }

  /** The id that is read from a counted field of 1 to 8 octets. */
  lemma IdAt(p: seq<byte>, z: seq<bool>, n: nat)
    requires 1 <= n <= 8 && n + 1 <= |p| && p[0] as int == n
    ensures var at := UnconstrainedAt(Unpack(p) + z);
            at.Some? && at.value.1 == 8 + 8 * n
            && FitsTwos(at.value.0, 8 * n) && TwosPacked(at.value.0, n) == p[1..n + 1]
  {
    hide *;
    var r, o, to := Unpack(p) + z, p[1..n + 1], 8 + 8 * n;
    assert ToNat(r[0..8]) == n by { OneOctetAt(p, z, 0, 0, 8); }
    assert r[8..to] == Unpack(o) by { UnpackRange(p, z, 1, n + 1, 8, to); }
    CountedIs(r, n, to);
    UnconstrainedIs(r, n, Unpack(o));
    PackUnpack(o);
    PackedIs(TwosValue(Unpack(o)), n);
  }

  lemma FitsWord(v: int, n: nat)
    requires 1 <= n <= 8 && FitsTwos(v, 8 * n)
    ensures -0x8000_0000_0000_0000 <= v < 0x8000_0000_0000_0000 && Wrap64(v) == v
  {
    Pow2Monotone(8 * n - 1, 63);
    Pow2Values();
  }

  lemma OctetsIs(t: seq<bool>, o: seq<byte>, to: nat)
    requires to == 8 + 8 * |o| <= |t| && ToNat(t[0..8]) == |o| - 1 && t[8..to] == Unpack(o)
    ensures OctetsAt(t) == Some((o, to))
  {
    hide ToNat, Pack, Unpack;
    assert t[0..8] == t[..8];
    PackUnpack(o);
  }

  /** The octet string that begins at octet `a`. */
  lemma StringAt(p: seq<byte>, z: seq<bool>, a: nat, k: nat, t: seq<bool>)
    requires a + 1 + k <= |p| && p[a] as int == k - 1
    requires 8 * a <= |Unpack(p) + z| && t == (Unpack(p) + z)[8 * a..]
    ensures OctetsAt(t) == Some((p[a + 1..a + 1 + k], 8 + 8 * k))
  {
    hide *;
    var from, r, to, o := 8 * a, Unpack(p) + z, 8 + 8 * k, p[a + 1..a + 1 + k];
    var mid, end := from + 8, from + to;
    OneOctetAt(p, z, a, from, mid);
    UnpackRange(p, z, a + 1, a + 1 + k, mid, end);
    SliceOfRest(r, from, 0, 8, from, mid);
    SliceOfRest(r, from, 8, to, mid, end);
    OctetsIs(t, o, to);
  }

  lemma SliceOfRest(r: seq<bool>, from: nat, a: nat, b: nat, lo: nat, hi: nat)
    requires a <= b && lo == from + a && hi == from + b <= |r|
    ensures r[from..][a..b] == r[lo..hi]
  {
  }

  lemma InputIs(r: seq<bool>, id: sint64, n: nat, c: seq<byte>, k: nat)
    requires UnconstrainedAt(r) == Some((id, n)) && n <= |r| && OctetsAt(r[n..]) == Some((c, k))
    ensures InputAt(r) == Some((Input(id, c), n + k))
  {
    hide UnconstrainedAt, OctetsAt;
  }

  lemma DecodedIs(p: Pdu, m: Input, n: nat)
    requires InputAt(Padded(p)) == Some((m, n))
    ensures DecodedInput(p) == m
  {
    hide InputAt, Padded;
  }

  lemma PaddedIs(p: Pdu)
    requires |p| <= 1024
    ensures Padded(p) == Unpack(p) + Zeros(8 * (1024 - |p|)) && |Padded(p)| == 8192
  {
    hide Unpack;
  }

  lemma IdPart(p: Pdu, n: nat)
    requires |p| <= 1024 && 1 <= n <= 8 && n + 1 <= |p| && p[0] as int == n
    ensures var at := UnconstrainedAt(Padded(p));
            at.Some? && at.value.1 == 8 + 8 * n
            && FitsTwos(at.value.0, 8 * n) && TwosPacked(at.value.0, n) == p[1..n + 1]
  {
    hide *;
    PaddedIs(p);
    IdAt(p, Zeros(8 * (1024 - |p|)), n);
  }

  lemma StringPart(p: Pdu, a: nat, k: nat)
    requires |p| <= 1024 && a + 1 + k <= |p| && p[a] as int == k - 1
    ensures 8 * a <= |Padded(p)| && OctetsAt(Padded(p)[8 * a..]) == Some((p[a + 1..a + 1 + k], 8 + 8 * k))
  {
    hide *;
    PaddedIs(p);
    StringAt(p, Zeros(8 * (1024 - |p|)), a, k, Padded(p)[8 * a..]);
  }

  lemma DecodedParts(p: Pdu, n: nat, k: nat)
    requires |p| <= 1024 && 1 <= n <= 8 && n + 2 + k <= |p|
    requires p[0] as int == n && p[n + 1] as int == k - 1
    ensures var m := DecodedInput(p);
            && m.command == p[n + 2..n + 2 + k]
            && FitsTwos(m.invokeid, 8 * n) && TwosPacked(m.invokeid, n) == p[1..n + 1]
            && InputAt(Padded(p)) == Some((m, 8 * (n + 2 + k)))
  {
    hide *;
    IdPart(p, n);
    StringPart(p, n + 1, k);
    Joined(p, n, k, UnconstrainedAt(Padded(p)).value.0, p[n + 2..n + 2 + k]);
  }

  lemma Joined(p: Pdu, n: nat, k: nat, id: sint64, c: seq<byte>)
    requires UnconstrainedAt(Padded(p)) == Some((id, 8 + 8 * n)) && 8 * (n + 1) <= |Padded(p)|
    requires OctetsAt(Padded(p)[8 * (n + 1)..]) == Some((c, 8 + 8 * k))
    ensures InputAt(Padded(p)) == Some((Input(id, c), 8 * (n + 2 + k))) && DecodedInput(p) == Input(id, c)
  {
    hide *;
    assert 8 * (n + 1) == 8 + 8 * n;
    InputIs(Padded(p), id, 8 + 8 * n, c, 8 + 8 * k);
    DecodedIs(p, Input(id, c), 8 * (n + 2 + k));
  }

  /**
   * What any PDU decodes to whose first octet `n` is 1 to 8, if all the octets it announces are there: the id is the
   * number in the next `n` octets, big endian in two's complement, and the command is what the size octet behind
   * them says.
   */
  lemma DecodedOctets(p: Pdu, n: nat, k: nat)
    requires |p| <= 1024 && 1 <= n <= 8 && n + 2 + k <= |p|
    requires p[0] as int == n && p[n + 1] as int == k - 1
    ensures var m := DecodedInput(p);
            && m.command == p[n + 2..n + 2 + k]
            && -(Pow2(8 * n - 1) as int) <= m.invokeid < Pow2(8 * n - 1)
            && forall j :: 1 <= j <= n ==> p[j] as int == (m.invokeid / Pow2(8 * (n - j))) % 0x100
  {
    var m := DecodedInput(p);
    DecodedParts(p, n, k);
    assert FitsTwos(m.invokeid, 8 * n);
    assert -(Pow2(8 * n - 1) as int) <= m.invokeid < Pow2(8 * n - 1);
    hide *;
    forall j | 1 <= j <= n ensures p[j] as int == (m.invokeid / Pow2(8 * (n - j))) % 0x100 {
      TwosOctet(m.invokeid, n, j);
      assert p[1..n + 1][j - 1] == p[j];
    }
  }

  /** A reply holds in addition the result that the size octet behind the command says. */
  lemma DecodedReplyOctets(p: Pdu, n: nat, k: nat, l: nat)
    requires |p| <= 1024 && 1 <= n <= 8 && n + 3 + k + l <= |p|
    requires p[0] as int == n && p[n + 1] as int == k - 1 && p[n + 2 + k] as int == l - 1
    ensures var m, q := DecodedOutput(p), DecodedInput(p);
            m.invokeid == q.invokeid && m.command == q.command && m.result == p[n + 3 + k..n + 3 + k + l]
  {
    hide InputAt, OctetsAt, Unpack, FitsTwos, TwosPacked, DecodedInput, Padded, Zeros;
    DecodedParts(p, n, k);
    StringPart(p, n + 2 + k, l);
  }

  /** A PDU that is too short reads as if zeros followed it, and one that does not fit its buffer as an empty one. */
  lemma MissingOctets(p: Pdu, k: nat)
    ensures |p| + k <= 1024 ==>
              var q := p + seq(k, _ => 0);
              DecodedInput(p) == DecodedInput(q) && DecodedOutput(p) == DecodedOutput(q)
    ensures |p| > 1024 ==> DecodedInput(p) == DecodedInput([]) && DecodedOutput(p) == DecodedOutput([])
  {
    hide InputAt, OutputAt;
    if |p| + k <= 1024 {
      SamePadding(p, k);
    } else if |p| > 1024 {
      NoPadding(p);
    }
  }

  lemma SamePadding(p: Pdu, k: nat)
    requires |p| + k <= 1024
    ensures Padded(p + seq(k, _ => 0)) == Padded(p)
  {
    hide Unpack;
    UnpackConcat(p, seq(k, _ => 0));
    UnpackZeros(k);
    var n := 1024 - |p| - k;
    assert Zeros(8 * k) + Zeros(8 * n) == Zeros(8 * (1024 - |p|));
    ThreeBits(Unpack(p), Zeros(8 * k), Zeros(8 * n));
  }

  lemma ThreeBits(a: seq<bool>, b: seq<bool>, c: seq<bool>)
    ensures a + b + c == a + (b + c)
  {
  }

  lemma NoPadding(p: Pdu)
    requires |p| > 1024
    ensures Padded(p) == Padded([])
  {
    assert Unpack([]) + Zeros(8 * 1024) == Zeros(8 * 1024);
  }
}
