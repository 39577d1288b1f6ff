/**
 * What the packed encoding rules say about whole numbers, independently of how the codec computes it:
 * the bits of a value, and the value that a prefix of a bit string denotes.
 */
module Per {
  import opened Bits

  datatype Option<+T> = None | Some(value: T)

  /** A value at the front of a bit string, and what follows it. */
  datatype Read<+T> = Read(value: T, rest: seq<bool>)

  type uint32 = v: int | 0 <= v < 0x1_0000_0000
  type uint64 = v: int | 0 <= v < 0x1_0000_0000_0000_0000
  type sint64 = v: int | -0x8000_0000_0000_0000 <= v < 0x8000_0000_0000_0000

  const TWO64: int := 0x1_0000_0000_0000_0000

  /** The conversion of a value to a signed 64-bit word. */
  function Wrap64(v: int): sint64 {
    (v + 0x8000_0000_0000_0000) % TWO64 - 0x8000_0000_0000_0000
  }

  /** The conversion of a value to an unsigned 64-bit word. */
  function Unsigned64(v: int): uint64 {
    v % TWO64
  }

  lemma WrapFits(v: sint64)
    ensures Wrap64(v) == v && Wrap64(Unsigned64(v)) == v
  {
  }

  lemma WrapPeriodic(x: int, k: int)
    ensures Wrap64(x + TWO64 * k) == Wrap64(x)
  {
  }

  /** Wrapping at every step of an accumulation is wrapping once at its end. */
  lemma WrapStep(x: int, m: nat, b: int)
    ensures Wrap64(Wrap64(x) * m + b) == Wrap64(x * m + b)
  {
    var k := (x + 0x8000_0000_0000_0000) / TWO64;
    assert Wrap64(x) == x - TWO64 * k;
    hide Wrap64;
    calc {
      Wrap64(Wrap64(x) * m + b);
      Wrap64((x - TWO64 * k) * m + b);
      { Distribute(x, k, m); }
      Wrap64((x * m + b) + TWO64 * -(k * m));
      { WrapPeriodic(x * m + b, -(k * m)); }
      Wrap64(x * m + b);
    }
  }

  lemma Distribute(x: int, k: int, m: int)
    ensures (x - TWO64 * k) * m == x * m + TWO64 * -(k * m)
  {
    assert (x - TWO64 * k) * m == x * m - (TWO64 * k) * m;
  }

  // ---------------------------------------------------------------- numbers of octets

  /** The fewest octets, at least one, that hold an unsigned value. */
  function UnsignedOctets(v: nat): (n: nat)
    ensures n >= 1
  {
    if v < 0x100 then 1 else 1 + UnsignedOctets(v / 0x100)
  }

  /** The fewest octets whose two's complement range holds a value. */
  function SignedOctets(v: int): (n: nat)
    ensures n >= 1
    decreases if v < 0 then -v else v
  {
    if -0x80 <= v < 0x80 then 1 else 1 + SignedOctets(v / 0x100)
  }

  predicate FitsUnsigned(v: nat, n: nat) {
    v < Pow2(8 * n)
  }

  /** The two's complement range of a field of `w` bits. */
  predicate FitsTwos(v: int, w: nat) {
    1 <= w && -(Pow2(w - 1) as int) <= v < Pow2(w - 1)
  }

  lemma {:induction false} UnsignedOctetsLeast(v: nat, n: nat)
    requires n >= 1
    ensures FitsUnsigned(v, n) <==> UnsignedOctets(v) <= n
    decreases n
  {
    Pow2Values();
    if n > 1 {
      Pow2Add(8, 8 * (n - 1));
      hide Pow2;
      assert FitsUnsigned(v, n) <==> v / 0x100 < Pow2(8 * (n - 1));
      UnsignedOctetsLeast(v / 0x100, n - 1);
      Pow2Monotone(8, 8 * n);
    }
  }

  lemma {:induction false} SignedOctetsLeast(v: int, n: nat)
    requires n >= 1
    ensures FitsTwos(v, 8 * n) <==> SignedOctets(v) <= n
    decreases n
  {
    Pow2Values();
    if n > 1 {
      Pow2Add(8, 8 * (n - 1) - 1);
      assert FitsTwos(v, 8 * n) <==> FitsTwos(v / 0x100, 8 * (n - 1));
      SignedOctetsLeast(v / 0x100, n - 1);
    }
  }

  lemma UnsignedOctetsIs(v: nat, n: nat)
    requires n >= 1 && v < Pow2(8 * n) && (n > 1 ==> Pow2(8 * (n - 1)) <= v)
    ensures UnsignedOctets(v) == n
  {
    UnsignedOctetsLeast(v, n);
    if n > 1 { UnsignedOctetsLeast(v, n - 1); }
  }

  lemma SignedOctetsIs(v: int, u: nat, n: nat)
    requires u == if v >= 0 then v else -v - 1
    requires n >= 1 && u < Pow2(8 * n - 1) && (n > 1 ==> Pow2(8 * (n - 1) - 1) <= u)
    ensures SignedOctets(v) == n
  {
    SignedOctetsLeast(v, n);
    if n > 1 { SignedOctetsLeast(v, n - 1); }
  }

  /** Padding to `w` bits and reading `w` bits are inverse, for every width up to 64. */
  lemma FixedWidthRoundTrip(v: nat, w: nat, t: seq<bool>)
    requires v < Pow2(w)
    ensures var r := FromNat(v, w) + t;
            ToNat(r[..w]) == v && r[w..] == t
  {
    ToNatFromNat(v, w);
    assert (FromNat(v, w) + t)[..w] == FromNat(v, w);
  }

  // ---------------------------------------------------------------- two's complement fields

  /** A value as a two's complement field of `w` bits. */
  function TwosBits(v: int, w: nat): (s: seq<bool>)
    ensures |s| == w
  {
    if v >= 0 then FromNat(v, w) else NotBits(FromNat(-v - 1, w))
  }

  /** The value of a two's complement field. */
  function TwosValue(s: seq<bool>): int {
    ToNat(s) - (if s != [] && s[0] then Pow2(|s|) else 0)
  }

  lemma LeadingZero(u: nat, w: nat)
    requires 1 <= w && u < Pow2(w - 1)
    ensures FromNat(u, w)[0] == false && u < Pow2(w)
  {
    PadZeros(u, 1, w - 1);
  }

  /** Every value that fits a field is restored from it. */
  lemma TwosRoundTrip(v: int, w: nat)
    requires FitsTwos(v, w)
    ensures TwosValue(TwosBits(v, w)) == v
  {
    var u := if v >= 0 then v else -v - 1;
    LeadingZero(u, w);
    if v >= 0 {
      ToNatFromNat(u, w);
    } else {
      Complement(u, w);
      ToNatFromNat(Pow2(w) - 1 - u, w);
    }
  }

  /** Extending a field at its low end by one octet. */
  lemma TwosStep(a: seq<bool>, x: seq<bool>)
    requires a != [] && |x| == 8
    ensures TwosValue(a + x) == TwosValue(a) * 0x100 + ToNat(x)
  {
    Pow2Values();
    ToNatConcat(a, x);
    Pow2Add(|a|, 8);
  }

  // ---------------------------------------------------------------- encodings

  /** A constrained whole number (section 11.5.6): the offset in a field as wide as the range. */
  function ConstrainedBits(v: int, min: int, max: int): (s: seq<bool>)
    requires min <= v <= max
    ensures |s| == NumBits(max - min)
  {
    FromNat(v - min, NumBits(max - min))
  }

  /** A semi-constrained whole number (section 11.7): octet count and offset. */
  function SemiConstrainedBits(v: int, min: int): seq<bool>
    requires min <= v
  {
    var n := UnsignedOctets(v - min);
    FromNat(n, 8) + FromNat(v - min, 8 * n)
  }

  /** An unconstrained whole number (section 11.8): octet count and two's complement value. */
  function UnconstrainedBits(v: int): (s: seq<bool>)
    ensures |s| == 8 + 8 * SignedOctets(v)
  {
    var n := SignedOctets(v);
    FromNat(n, 8) + TwosBits(v, 8 * n)
  }

  /** The value at the front of `r` and the number of bits it takes. */
  function ConstrainedAt(r: seq<bool>, min: int, max: int): Option<(sint64, nat)>
    requires min <= max
  {
    var w := NumBits(max - min);
    if |r| < w then None else Some((Wrap64(ToNat(r[..w]) + min), w))
  }

  /** A one-octet count and that many octets. */
  function CountedAt(r: seq<bool>): (o: Option<seq<bool>>)
    ensures o.Some? ==> |o.value| % 8 == 0 && 8 + |o.value| <= |r|
  {
    if |r| < 8 || |r| < 8 + 8 * ToNat(r[..8]) then None else Some(r[8..8 + 8 * ToNat(r[..8])])
  }

  function SemiConstrainedAt(r: seq<bool>, min: int): Option<(sint64, nat)> {
    match CountedAt(r)
    case None => None
    case Some(c) => Some((Wrap64(ToNat(c) + min), 8 + |c|))
  }

  function UnconstrainedAt(r: seq<bool>): Option<(sint64, nat)> {
    match CountedAt(r)
    case None => None
    case Some(c) => Some((Wrap64(TwosValue(c)), 8 + |c|))
  }

  lemma ConstrainedRoundTrip(v: sint64, min: sint64, max: sint64, rest: seq<bool>)
    requires min <= v <= max
    ensures var e := ConstrainedBits(v, min, max);
            ConstrainedAt(e + rest, min, max) == Some((v, |e|))
  {
    var e := ConstrainedBits(v, min, max);
    NumBitsBounds(max - min);
    ToNatFromNat(v - min, NumBits(max - min));
    assert (e + rest)[..|e|] == e;
  }

  lemma CountedRoundTrip(n: nat, c: seq<bool>, rest: seq<bool>)
    requires n < 0x100 && |c| == 8 * n
    ensures CountedAt(FromNat(n, 8) + c + rest) == Some(c)
  {
    Pow2Values();
    var h := FromNat(n, 8);
    var r := h + c + rest;
    ToNatFromNat(n, 8);
    assert r[..8] == h;
    assert r[8..8 + 8 * n] == c;
  }

  lemma SemiConstrainedRoundTrip(v: sint64, min: sint64, rest: seq<bool>)
    requires min <= v
    ensures var e := SemiConstrainedBits(v, min);
            SemiConstrainedAt(e + rest, min) == Some((v, |e|))
  {
    hide FromNat, ToNat, UnsignedOctets;
    var u := v - min;
    var n := UnsignedOctets(u);
    Pow2Values();
    UnsignedOctetsLeast(u, 8);
    UnsignedOctetsLeast(u, n);
    CountedRoundTrip(n, FromNat(u, 8 * n), rest);
    ToNatFromNat(u, 8 * n);
  }

  /** Every 64-bit value is restored, from the fewest octets that can hold it. */
  lemma UnconstrainedRoundTrip(v: sint64, rest: seq<bool>)
    ensures var e := UnconstrainedBits(v);
            UnconstrainedAt(e + rest) == Some((v, |e|)) && 16 <= |e| <= 72
  {
    hide TwosBits, TwosValue, SignedOctets, FitsTwos, CountedAt, FromNat, Wrap64;
    var n := SignedOctets(v);
    AtMostEight(v);
    SignedOctetsLeast(v, n);
    CountedRoundTrip(n, TwosBits(v, 8 * n), rest);
    TwosRoundTrip(v, 8 * n);
    WrapFits(v);
  }

  lemma AtMostEight(v: sint64)
    ensures SignedOctets(v) <= 8
  {
    Pow2Values();
    SignedOctetsLeast(v, 8);
  }

  /** No field shorter than the one the codec uses could hold the value. */
  lemma UnconstrainedIsMinimal(v: sint64, n: nat)
    requires FitsTwos(v, 8 * n)
    ensures |UnconstrainedBits(v)| <= 8 + 8 * n
  {
    SignedOctetsLeast(v, n);
  }

  /**
   * The constrained decoder does not check the upper bound: everything it can return is in range
   * exactly when the number of values is a power of two.
   */
  lemma ConstrainedDecodeInRange(min: sint64, max: sint64)
    requires min <= max
    ensures (forall r: seq<bool> :: ConstrainedAt(r, min, max).Some? ==>
            min <= ConstrainedAt(r, min, max).value.0 <= max)
            <==> max - min + 1 == Pow2(NumBits(max - min))
  {
    hide NumBits, Pow2, FromNat, ToNat, Wrap64;
    if max - min + 1 == Pow2(NumBits(max - min)) {
      forall r: seq<bool> | ConstrainedAt(r, min, max).Some?
        ensures min <= ConstrainedAt(r, min, max).value.0 <= max
      {
        InRange(r, min, max);
      }
    } else {
      OneTooMany(min, max);
    }
  }

  lemma InRange(r: seq<bool>, min: sint64, max: sint64)
    requires min <= max && max - min + 1 == Pow2(NumBits(max - min)) && ConstrainedAt(r, min, max).Some?
    ensures min <= ConstrainedAt(r, min, max).value.0 <= max
  {
    hide NumBits, Pow2, FromNat, ToNat;
    ToNatBound(r[..NumBits(max - min)]);
  }

  /** The pattern of the value after the greatest one. */
  lemma OneTooMany(min: sint64, max: sint64)
    requires min <= max && max - min + 1 != Pow2(NumBits(max - min))
    ensures var bad := FromNat(max - min + 1, NumBits(max - min));
            && ConstrainedAt(bad, min, max).Some?
            && !(min <= ConstrainedAt(bad, min, max).value.0 <= max)
  {
    hide NumBits, Pow2, FromNat, ToNat, Wrap64;
    var n := max - min;
    var w := NumBits(n);
    NumBitsBounds(n);
    var bad := FromNat(n + 1, w);
    ToNatFromNat(n + 1, w);
    assert bad[..w] == bad;
    if n + 1 == TWO64 {
      Pow2Values();
      NumBitsUnique(n, 64);
    }
    WrapsBeyond(min, max);
  }

  lemma WrapsBeyond(min: sint64, max: sint64)
    requires min <= max && max - min + 1 != TWO64
    ensures Wrap64(max + 1) > max || Wrap64(max + 1) < min
  {
  }

  /** Three values take two bits, and the fourth pattern is decoded as well. */
  lemma AFourthOfThreeValues()
    ensures ConstrainedAt([true, true], 0, 2) == Some((3, 2))
  {
    assert [true, true][..2] == [true, true];
    assert NumBits(2) == 2 && ToNat([true, true]) == 3;
  }
}
