/**
 * The decimal encodings of `messages/acn.c`: BCD nibbles and ASCII characters, of fixed size, behind a
 * length octet, or up to a terminator. `bcd` selects between the two as the flag `bBCD` does.
 */
module Decimals {
  import opened Bits
  import opened Bytes
  import opened BitStreams
  import opened Per
  import opened Integers

  // ---------------------------------------------------------------- encodings

  /** `Acn_Get_Int_Size_BCD` of a number that is not negative: its digits, none for zero. */
  function NumDigits(v: nat): nat {
    if v == 0 then 0 else 1 + NumDigits(v / 10)
  }

  /** The bits of one digit: a nibble or a character. */
  function DigitWidth(bcd: bool): nat { if bcd then 4 else 8 }

  function DigitBits(d: nat, bcd: bool): (s: seq<bool>)
    ensures |s| == DigitWidth(bcd)
  {
    if bcd then FromNat(d, 4) else FromNat(0x30 + d, 8)
  }

  /** The last `n` decimal digits of `v`, most significant first. */
  function DecimalBits(v: nat, n: nat, bcd: bool): (s: seq<bool>)
    ensures |s| == DigitWidth(bcd) * n
  {
    if n == 0 then [] else DecimalBits(v / 10, n - 1, bcd) + DigitBits(v % 10, bcd)
  }

  function Magnitude(v: int): nat { if v < 0 then -v else v }

  /** The sign character that ASCII numbers begin with. */
  function SignBits(v: int, bcd: bool): seq<bool> {
    if bcd then [] else FromNat(if v < 0 then 0x2D else 0x2B, 8)
  }

  /** A number in a field of `size` nibbles or characters, the sign included. */
  function ConstSizeBits(v: int, size: nat, bcd: bool): seq<bool>
    requires !bcd ==> size > 0
  {
    SignBits(v, bcd) + DecimalBits(Magnitude(v), if bcd then size else size - 1, bcd)
  }

  /** `Acn_Get_Int_Size_BCD` and `Acn_Get_Int_Size_ASCII` */
  function SizeOf(v: int, bcd: bool): (n: nat)
    ensures !bcd ==> n > 0
  {
    NumDigits(Magnitude(v)) + (if bcd then 0 else 1)
  }

  function LengthEmbeddedBits(v: int, bcd: bool): seq<bool> {
    FromNat(SizeOf(v, bcd), 8) + ConstSizeBits(v, SizeOf(v, bcd), bcd)
  }

  /** The terminator is the nibble F or the character NUL. */
  function NullTerminatedBits(v: int, bcd: bool): seq<bool> {
    ConstSizeBits(v, SizeOf(v, bcd), bcd) + (if bcd then FromNat(0xF, 4) else FromNat(0, 8))
  }

  // ---------------------------------------------------------------- parsers

  /** What the decoder of fixed-size numbers takes for a digit; BCD nibbles above 9 are not rejected. */
  function DigitAt(r: seq<bool>, bcd: bool): Option<nat> {
    if |r| < DigitWidth(bcd) then None
    else if bcd then Some(ToNat(r[..4]))
    else if 0x30 <= ToNat(r[..8]) <= 0x39 then Some(ToNat(r[..8]) - 0x30) else None
  }

  /** `n` more digits after those that made `acc`. */
  function DecimalAt(r: seq<bool>, acc: nat, n: nat, bcd: bool): Option<Read<nat>>
    decreases n
  {
    if n == 0 then Some(Read(acc, r))
    else match DigitAt(r, bcd)
         case None => None
         case Some(d) => DecimalAt(r[DigitWidth(bcd)..], acc * 10 + d, n - 1, bcd)
  }

  /** `(byte)((int)digit - '0')` */
  function WrapCharacter(x: nat): nat {
    (x as int - 0x30) % 0x100
  }

  /** Digits up to the terminator, which is any nibble above 9 or a NUL; other characters wrap around. */
  function UntilAt(r: seq<bool>, acc: nat, bcd: bool): Option<Read<nat>>
    decreases |r|
  {
    var w := DigitWidth(bcd);
    if |r| < w then None
    else
      var x := ToNat(r[..w]);
      if (if bcd then x > 9 else x == 0) then Some(Read(acc, r[w..]))
      else UntilAt(r[w..], acc * 10 + (if bcd then x else WrapCharacter(x)), bcd)
  }

  /** The sign in front of an ASCII number, as a factor. */
  function SignAt(r: seq<bool>, bcd: bool): Option<Read<int>> {
    if bcd then Some(Read(1, r))
    else if |r| < 8 then None
    else if ToNat(r[..8]) == 0x2B then Some(Read(1, r[8..]))
    else if ToNat(r[..8]) == 0x2D then Some(Read(-1, r[8..]))
    else None
  }

  /** The product of sign and magnitude in 64-bit arithmetic. */
  function Signed(sign: int, magnitude: nat): sint64 {
    Wrap64(sign * Wrap64(magnitude))
  }

  function Digits(size: nat, bcd: bool): nat {
    if bcd || size == 0 then size else size - 1
  }

  function WithSign(sign: int, o: Option<Read<nat>>): Option<Read<sint64>> {
    match o
    case None => None
    case Some(m) => Some(Read(Signed(sign, m.value), m.rest))
  }

  function ConstSizeAt(r: seq<bool>, size: nat, bcd: bool): Option<Read<sint64>> {
    match SignAt(r, bcd)
    case None => None
    case Some(s) => WithSign(s.value, DecimalAt(s.rest, 0, Digits(size, bcd), bcd))
  }

  function LengthEmbeddedAt(r: seq<bool>, bcd: bool): Option<Read<sint64>> {
    if |r| < 8 then None else ConstSizeAt(r[8..], ToNat(r[..8]), bcd)
  }

  function NullTerminatedAt(r: seq<bool>, bcd: bool): Option<Read<sint64>> {
    match SignAt(r, bcd)
    case None => None
    case Some(s) => WithSign(s.value, UntilAt(s.rest, 0, bcd))
  }

  // ---------------------------------------------------------------- round trips

  lemma DigitFront(d: nat, bcd: bool, t: seq<bool>)
    requires d < 10
    ensures var r, w := DigitBits(d, bcd) + t, DigitWidth(bcd);
            && DigitAt(r, bcd) == Some(d) && r[w..] == t && |r| >= w
            && ToNat(r[..w]) == if bcd then d else d + 0x30
  {
    Pow2Values();
    FixedWidthRoundTrip(if bcd then d else 0x30 + d, DigitWidth(bcd), t);
  }

  /** The digits of a number, read back in front of whatever else follows. */
  lemma {:induction false} DecimalFront(v: nat, n: nat, m: nat, bcd: bool, t: seq<bool>)
    requires NumDigits(v) <= n
    ensures DecimalAt(DecimalBits(v, n, bcd) + t, 0, n + m, bcd) == DecimalAt(t, v, m, bcd)
    decreases n
  {
    hide DigitBits, DigitAt;
    if n == 0 {
      assert DecimalBits(v, 0, bcd) + t == t;
    } else {
      var d := DigitBits(v % 10, bcd);
      assert DecimalBits(v, n, bcd) + t == DecimalBits(v / 10, n - 1, bcd) + (d + t);
      DecimalFront(v / 10, n - 1, m + 1, bcd, d + t);
      DigitFront(v % 10, bcd, t);
    }
  }

  lemma {:induction false} UntilFront(v: nat, n: nat, bcd: bool, t: seq<bool>)
    requires NumDigits(v) <= n
    ensures UntilAt(DecimalBits(v, n, bcd) + t, 0, bcd) == UntilAt(t, v, bcd)
    decreases n
  {
    hide DigitBits, DigitAt;
    if n == 0 {
      assert DecimalBits(v, 0, bcd) + t == t;
    } else {
      var d := DigitBits(v % 10, bcd);
      assert DecimalBits(v, n, bcd) + t == DecimalBits(v / 10, n - 1, bcd) + (d + t);
      UntilFront(v / 10, n - 1, bcd, d + t);
      DigitFront(v % 10, bcd, t);
    }
  }

  lemma SignFront(v: int, bcd: bool, t: seq<bool>)
    ensures SignAt(SignBits(v, bcd) + t, bcd) == Some(Read(if !bcd && v < 0 then -1 else 1, t))
  {
    Pow2Values();
    if bcd {
      assert SignBits(v, bcd) + t == t;
    } else {
      FixedWidthRoundTrip(if v < 0 then 0x2D else 0x2B, 8, t);
    }
  }

  /** Sign and magnitude give back the value, the smallest one included if the product wraps around. */
  lemma SignedFits(v: sint64)
    ensures Signed(if v < 0 then -1 else 1, Magnitude(v)) == v
  {
  }

  /** Every number that fits its field is restored, BCD numbers if they are not negative. */
  lemma ConstSizeRoundTrip(v: sint64, size: nat, bcd: bool, t: seq<bool>)
    requires (bcd ==> v >= 0) && SizeOf(v, bcd) <= size
    ensures ConstSizeAt(ConstSizeBits(v, size, bcd) + t, size, bcd) == Some(Read(v, t))
  {
    hide SignBits, DecimalBits, SignAt, Signed, NumDigits;
    var n, d := Digits(size, bcd), DecimalBits(Magnitude(v), Digits(size, bcd), bcd);
    assert ConstSizeBits(v, size, bcd) + t == SignBits(v, bcd) + (d + t);
    SignFront(v, bcd, d + t);
    DecimalFront(Magnitude(v), n, 0, bcd, t);
    SignedFits(v);
  }

  lemma NullTerminatedRoundTrip(v: sint64, bcd: bool, t: seq<bool>)
    requires bcd ==> v >= 0
    ensures NullTerminatedAt(NullTerminatedBits(v, bcd) + t, bcd) == Some(Read(v, t))
  {
    hide SignBits, DecimalBits, SignAt, Signed, NumDigits;
    var n := NumDigits(Magnitude(v));
    var d, e := DecimalBits(Magnitude(v), n, bcd), (if bcd then FromNat(0xF, 4) else FromNat(0, 8));
    assert NullTerminatedBits(v, bcd) + t == SignBits(v, bcd) + (d + (e + t));
    SignFront(v, bcd, d + (e + t));
    UntilFront(Magnitude(v), n, bcd, e + t);
    Terminator(Magnitude(v), bcd, t);
    SignedFits(v);
  }

  lemma Terminator(acc: nat, bcd: bool, t: seq<bool>)
    ensures UntilAt((if bcd then FromNat(0xF, 4) else FromNat(0, 8)) + t, acc, bcd) == Some(Read(acc, t))
  {
    Pow2Values();
    FixedWidthRoundTrip(if bcd then 0xF else 0, DigitWidth(bcd), t);
  }

  lemma LengthEmbeddedRoundTrip(v: sint64, bcd: bool, t: seq<bool>)
    requires bcd ==> v >= 0
    ensures SizeOf(v, bcd) <= 20
    ensures LengthEmbeddedAt(LengthEmbeddedBits(v, bcd) + t, bcd) == Some(Read(v, t))
  {
    hide ConstSizeBits, ConstSizeAt, FromNat, ToNat, Pow2;
    var n := SizeOf(v, bcd);
    DigitsOfWord(Magnitude(v));
    var c := ConstSizeBits(v, n, bcd);
    Pow2Values();
    assert LengthEmbeddedBits(v, bcd) + t == FromNat(n, 8) + (c + t);
    FixedWidthRoundTrip(n, 8, c + t);
    ConstSizeRoundTrip(v, n, bcd, t);
  }

  function Pow10(n: nat): nat {
    if n == 0 then 1 else 10 * Pow10(n - 1)
  }

  lemma {:induction false} NumDigitsLeast(v: nat, n: nat)
    ensures NumDigits(v) <= n <==> v < Pow10(n)
    decreases n
  {
    if n > 0 { NumDigitsLeast(v / 10, n - 1); }
  }

  lemma DigitsOfWord(v: nat)
    requires v <= 0x8000_0000_0000_0000
    ensures NumDigits(v) <= 19
  {
    NumDigitsLeast(v, 19);
    assert Pow10(5) == 100_000;
    assert Pow10(10) == 100_000 * Pow10(5);
    assert Pow10(15) == 100_000 * Pow10(10);
    assert Pow10(19) == 10_000 * Pow10(15);
  }

  // ---------------------------------------------------------------- the encoders

  /** `v` without its last `i` decimal digits. */
  function Quot(v: nat, i: nat): nat {
    if i == 0 then v else Quot(v / 10, i - 1)
  }

  lemma {:induction false} QuotNext(v: nat, i: nat)
    ensures Quot(v, i + 1) == Quot(v, i) / 10
  {
    if i > 0 { QuotNext(v / 10, i - 1); }
  }

  /** `Acn_Get_Int_Size_BCD` */
  method GetIntSizeBCD(v: sint64) returns (ret: nat)
    ensures ret == if v < 0 then 0 else NumDigits(v)
  {
    var intVal: int := v;
    ret := 0;
    while intVal > 0
      invariant ret >= 0 && (v >= 0 ==> intVal >= 0 && ret + NumDigits(intVal) == NumDigits(v))
                && (v < 0 ==> ret == 0 && intVal < 0)
    {
      intVal := intVal / 10;
      ret := ret + 1;
    }
  }

  /** The decimal digits of a number in a zeroed table, last digit first. */
  method FillDigits(tmp: array<nat>, v: uint64)
    requires tmp.Length == 100
    modifies tmp
    ensures forall i :: 0 <= i < 100 ==> tmp[i] == Quot(v, i) % 10
  {
    hide Pow2, Pow10;
    forall i | 0 <= i < 100 {
      tmp[i] := 0;
    }
    var intVal: nat, total := v, 0;
    NumDigitsWord(v);
    while intVal > 0
      invariant 0 <= total && total + NumDigits(intVal) <= 100 && intVal == Quot(v, total)
      invariant forall i :: 0 <= i < total ==> tmp[i] == Quot(v, i) % 10
      invariant forall i :: total <= i < 100 ==> tmp[i] == 0
    {
      QuotNext(v, total);
      tmp[total] := intVal % 10;
      intVal, total := intVal / 10, total + 1;
    }
    forall i | total <= i < 100 ensures Quot(v, i) == 0 {
      QuotZero(v, total, i);
    }
  }

  lemma NumDigitsWord(v: uint64)
    ensures NumDigits(v) <= 20
  {
    NumDigitsLeast(v, 20);
    assert Pow10(5) == 100_000;
    assert Pow10(10) == 100_000 * Pow10(5);
    assert Pow10(15) == 100_000 * Pow10(10);
    assert Pow10(20) == 100_000 * Pow10(15);
  }

  lemma {:induction false} QuotZero(v: nat, i: nat, j: nat)
    requires Quot(v, i) == 0 && i <= j
    ensures Quot(v, j) == 0
    decreases j
  {
    if i < j {
      QuotZero(v, i, j - 1);
      QuotNext(v, j - 1);
    }
  }

  /** The digits of 2^63, last digit first, as the source spells them out. */
  const MIN_DIGITS: seq<nat> := [8, 0, 8, 5, 7] + ([7, 4, 5, 8, 6] + ([3, 0, 2, 7, 3] + [3, 2, 2, 9]))

  predicate DigitsFrom(v: nat, ds: seq<nat>) {
    if ds == [] then v == 0 else ds[0] == v % 10 && DigitsFrom(v / 10, ds[1..])
  }

  lemma {:induction false} DigitsFromAt(v: nat, ds: seq<nat>, i: nat)
    requires DigitsFrom(v, ds)
    ensures Quot(v, i) % 10 == if i < |ds| then ds[i] else 0
    decreases i
  {
    if ds == [] {
      QuotZero(0, 0, i);
    } else if i > 0 {
      DigitsFromAt(v / 10, ds[1..], i - 1);
    }
  }

  lemma MinDigits()
    ensures forall i: nat :: Quot(0x8000_0000_0000_0000, i) % 10 == if i < |MIN_DIGITS| then MIN_DIGITS[i] else 0
    ensures NumDigits(0x8000_0000_0000_0000) == |MIN_DIGITS|
  {
    MinDigitsHold();
    DigitsCount(0x8000_0000_0000_0000, MIN_DIGITS);
    forall i: nat ensures Quot(0x8000_0000_0000_0000, i) % 10 == if i < |MIN_DIGITS| then MIN_DIGITS[i] else 0 {
      DigitsFromAt(0x8000_0000_0000_0000, MIN_DIGITS, i);
    }
  }

  lemma {:induction false} DigitsCount(v: nat, ds: seq<nat>)
    requires DigitsFrom(v, ds) && (ds != [] ==> ds[|ds| - 1] != 0)
    ensures NumDigits(v) == |ds|
  {
    if ds != [] {
      DigitsCount(v / 10, ds[1..]);
    }
  }

  lemma DigitsPush(v: nat, d: nat, ds: seq<nat>)
    requires d < 10 && DigitsFrom(v, ds)
    ensures DigitsFrom(10 * v + d, [d] + ds)
  {
    assert ([d] + ds)[1..] == ds;
  }

  lemma DigitsPushFive(v: nat, a: nat, b: nat, c: nat, d: nat, e: nat, ds: seq<nat>)
    requires a < 10 && b < 10 && c < 10 && d < 10 && e < 10 && DigitsFrom(v, ds)
    ensures DigitsFrom(100000 * v + 10000 * e + 1000 * d + 100 * c + 10 * b + a, [a, b, c, d, e] + ds)
  {
    hide DigitsFrom;
    var s1, v1 := [e] + ds, 10 * v + e;
    var s2, v2 := [d] + s1, 10 * v1 + d;
    var s3, v3 := [c] + s2, 10 * v2 + c;
    var s4, v4 := [b] + s3, 10 * v3 + b;
    DigitsPush(v, e, ds);
    DigitsPush(v1, d, s1);
    DigitsPush(v2, c, s2);
    DigitsPush(v3, b, s3);
    DigitsPush(v4, a, s4);
    FiveDigits(a, b, c, d, e, ds);
  }

  lemma FiveDigits(a: nat, b: nat, c: nat, d: nat, e: nat, ds: seq<nat>)
    ensures [a, b, c, d, e] + ds == [a] + ([b] + ([c] + ([d] + ([e] + ds))))
  {
  }

  lemma MinDigitsHold()
    ensures DigitsFrom(0x8000_0000_0000_0000, MIN_DIGITS)
  {
    FirstDigits();
    hide DigitsFrom;
    var ds := [3, 2, 2, 9];
    DigitsPushFive(9223, 3, 0, 2, 7, 3, ds);
    DigitsPushFive(922337203, 7, 4, 5, 8, 6, [3, 0, 2, 7, 3] + ds);
    DigitsPushFive(92233720368547, 8, 0, 8, 5, 7, [7, 4, 5, 8, 6] + ([3, 0, 2, 7, 3] + ds));
  }

  lemma FirstDigits()
    ensures DigitsFrom(9223, [3, 2, 2, 9])
  {
    assert DigitsFrom(92, [2, 9]);
    DigitsPush(92, 2, [2, 9]);
    DigitsPush(922, 3, [2, 2, 9]);
  }

  /** The loop that writes the table from its end. */
  method AppendDigits(s: BitStream, tmp: array<nat>, n: nat, bcd: bool, ghost v: nat)
    requires {tmp as object} !! {s.buf as object}
    requires n <= tmp.Length && forall i :: 0 <= i < n ==> tmp[i] == Quot(v, i) % 10
    requires s.Writable() && s.Room(DigitWidth(bcd) * n)
    modifies s, s.buf
    ensures s.Writable() && s.Written() == old(s.Written()) + DecimalBits(v, n, bcd)
  {
    hide Unpack, FromNat, NumDigits, DecimalBits, Quot, DigitBits;
    ghost var w0 := s.Written();
    var i := n;
    NoDigits(v, n, bcd);
    while i > 0
      invariant 0 <= i <= n && s.Writable() && s.Room(DigitWidth(bcd) * i)
      invariant forall k :: 0 <= k < n ==> tmp[k] == Quot(v, k) % 10
      invariant s.Written() == w0 + DecimalBits(Quot(v, i), n - i, bcd)
    {
      i := i - 1;
      OneMoreDigit(v, i, n, bcd, w0);
      AppendDigit(s, tmp[i], bcd);
    }
  }

  lemma NoDigits(v: nat, n: nat, bcd: bool)
    ensures DecimalBits(Quot(v, n), 0, bcd) == [] && Quot(v, 0) == v
  {
  }

  lemma OneMoreDigit(v: nat, i: nat, n: nat, bcd: bool, w: seq<bool>)
    requires i < n
    ensures w + DecimalBits(Quot(v, i + 1), n - i - 1, bcd) + DigitBits(Quot(v, i) % 10, bcd) ==
            w + DecimalBits(Quot(v, i), n - i, bcd)
  {
    hide Quot, DigitBits;
    QuotNext(v, i);
  }

  method AppendDigit(s: BitStream, d: nat, bcd: bool)
    requires d < 10 && s.Writable() && s.Room(DigitWidth(bcd))
    modifies s, s.buf
    ensures s.Writable() && s.Written() == old(s.Written()) + DigitBits(d, bcd)
  {
    hide Unpack, ByteBits, FromNat;
    ByteOfBits(0x30 + d);
    if bcd {
      Nibble(d);
      s.AppendPartialByte(ByteOf(d), 4, false);
    } else {
      s.AppendByte0(ByteOf(0x30 + d));
    }
  }

  lemma Nibble(d: nat)
    requires d < 16
    ensures var b := ByteOf(d);
            b & LowMask(4) == b && PartialBits(b, 4, false) == FromNat(d, 4)
  {
    Pow2Values();
    ByteOfBits(d);
    PadZeros(d, 4, 4);
    BitsLowMask(ByteOf(d), 4);
    SameBits(ByteOf(d) & LowMask(4), ByteOf(d));
  }

  /** ASCII numbers start with their sign. */
  method PutSign(s: BitStream, v: sint64, bcd: bool)
    requires s.Writable() && s.Room(|SignBits(v, bcd)|)
    modifies s, s.buf
    ensures s.Writable() && s.Written() == old(s.Written()) + SignBits(v, bcd)
  {
    hide Unpack, FromNat, ByteBits;
    if !bcd {
      ByteOfBits(0x2D);
      ByteOfBits(0x2B);
      s.AppendByte0(if v < 0 then ByteOf(0x2D) else ByteOf(0x2B));
    }
  }

  /** The table of digits; those of the smallest number are a constant of the source. */
  method DigitTable(tmp: array<nat>, v: sint64)
    requires tmp.Length == 100
    modifies tmp
    ensures forall i :: 0 <= i < 100 ==> tmp[i] == Quot(Magnitude(v), i) % 10
  {
    hide Quot, DigitsFrom;
    if v == -0x8000_0000_0000_0000 {
      MinDigits();
      forall i | 0 <= i < 100 {
        tmp[i] := if i < |MIN_DIGITS| then MIN_DIGITS[i] else 0;
      }
    } else {
      var intVal: int := v;
      FillDigits(tmp, if intVal < 0 then -intVal else intVal);
    }
  }

  /** The smallest number is written in characters even under the BCD flag. */
  predicate InNibbles(v: int, bcd: bool) { bcd && v != -0x8000_0000_0000_0000 }

  /**
   * `Acn_Enc_Int_BCD_OR_ASCII_ConstSize`. The source asserts that other numbers fit their field; of the smallest
   * number it writes as many digits as there is room for.
   */
  method EncConstSize(s: BitStream, v: sint64, size: nat, bcd: bool)
    requires size <= 100 && (!InNibbles(v, bcd) ==> size > 0)
    requires v != -0x8000_0000_0000_0000 ==> (bcd ==> v >= 0) && SizeOf(v, bcd) <= size
    requires s.Writable() && s.Room(|ConstSizeBits(v, size, InNibbles(v, bcd))|)
    modifies s, s.buf
    ensures s.Writable() && s.Written() == old(s.Written()) + ConstSizeBits(v, size, InNibbles(v, bcd))
  {
    hide Unpack, NumDigits, DecimalBits, Quot, SignBits;
    ghost var w0 := s.Written();
    var tmp := new nat[100];
    DigitTable(tmp, v);
    var nibbles := InNibbles(v, bcd);
    PutSign(s, v, nibbles);
    var n := if nibbles then size else size - 1;
    AppendDigits(s, tmp, n, nibbles, Magnitude(v));
    AppendTwo(w0, SignBits(v, nibbles), DecimalBits(Magnitude(v), n, nibbles));
  }

  // ---------------------------------------------------------------- the decoders

  /** A nibble or a character. */
  method ReadUnit(s: BitStream, bcd: bool) returns (ok: bool, x: nat)
    requires s.Valid() && Safe(s, DigitWidth(bcd) <= |s.Rest()|)
    modifies s
    ensures s.Valid() && ok == (DigitWidth(bcd) <= old(|s.Rest()|))
    ensures ok ==>
              && s.Room(0) && x == ToNat(old(s.Rest())[..DigitWidth(bcd)])
              && s.Rest() == old(s.Rest())[DigitWidth(bcd)..]
    ensures ok ==> x < 0x100
  {
    hide Unpack, ByteBits, ToNat, ByteVal;
    ghost var r := s.Rest();
    var b;
    if bcd {
      ok, b := s.ReadPartialByte(4);
      if ok { PaddedVal(b, r[..4]); }
    } else {
      ok, b := s.ReadByte();
      if ok { WholeVal(b); }
    }
    x := ByteVal(b);
  }

  lemma WholeVal(b: byte)
    ensures ByteVal(b) == ToNat(ByteBits(b))
  {
  }

  lemma UnsignedStep(acc: nat, d: nat)
    ensures Unsigned64(Unsigned64(acc) * 10 + d) == Unsigned64(acc * 10 + d)
  {
    var k, r := acc / TWO64, acc % TWO64;
    assert acc == TWO64 * k + r;
    hide Unsigned64;
    UnsignedPeriodic(r, k);
    UnsignedPeriodic(r, 0);
    UnsignedPeriodic(r * 10 + d, 10 * k);
    assert acc * 10 + d == (r * 10 + d) + TWO64 * (10 * k);
    SmallUnsigned(r);
  }

  lemma UnsignedPeriodic(x: int, k: int)
    ensures Unsigned64(x + TWO64 * k) == Unsigned64(x)
  {
  }

  lemma SmallUnsigned(x: uint64)
    ensures Unsigned64(x) == x
  {
  }

  /** The loop of the fixed-size decoder. */
  method DecDigits(s: BitStream, size: nat, bcd: bool) returns (ok: bool, ret: uint64)
    requires s.Valid() && s.Room(0) && Safe(s, DecimalAt(s.Rest(), 0, size, bcd).Some?)
    modifies s
    ensures s.Valid() && ok == DecimalAt(old(s.Rest()), 0, size, bcd).Some?
    ensures ok ==> var m := DecimalAt(old(s.Rest()), 0, size, bcd).value;
                   s.Room(0) && ret == Unsigned64(m.value) && s.Rest() == m.rest
  {
    hide Unpack, ToNat, Unsigned64;
    ghost var acc: nat, whole := 0, DecimalAt(s.Rest(), 0, size, bcd);
    NothingRead();
    var n := size;
    ok, ret := true, 0;
    while n > 0
      invariant ok && n >= 0 && s.Valid() && s.Room(0) && Safe(s, whole.Some?)
      invariant whole == DecimalAt(s.Rest(), acc, n, bcd) && ret == Unsigned64(acc)
    {
      var x;
      ok, x := ReadUnit(s, bcd);
      if !ok {
        return;
      }
      if !bcd {
        if !(0x30 <= x <= 0x39) {
          return false, 0;
        }
        x := x - 0x30;
      }
      UnsignedStep(acc, x);
      ret, acc := Unsigned64(ret * 10 + x), acc * 10 + x;
      n := n - 1;
    }
  }

  lemma NothingRead()
    ensures Unsigned64(0) == 0
  {
  }

  /** The sign of an ASCII number. */
  method DecSign(s: BitStream, bcd: bool) returns (ok: bool, sign: int)
    requires s.Valid() && s.Room(0) && Safe(s, SignAt(s.Rest(), bcd).Some?)
    modifies s
    ensures s.Valid() && ok == SignAt(old(s.Rest()), bcd).Some?
    ensures ok ==>
              && s.Room(0) && sign == SignAt(old(s.Rest()), bcd).value.value
              && s.Rest() == SignAt(old(s.Rest()), bcd).value.rest
  {
    hide Unpack, ToNat;
    ok, sign := true, 1;
    if !bcd {
      var digit;
      ok, digit := ReadUnit(s, false);
      if ok {
        if digit == 0x2D {
          sign := -1;
        } else if digit != 0x2B {
          ok := false;
        }
      }
    }
  }

  /** `Acn_Dec_Int_BCD_OR_ASCII_ConstSize` */
  method DecConstSize(s: BitStream, size: nat, bcd: bool) returns (ok: bool, v: sint64)
    requires s.Valid() && s.Room(0) && Safe(s, ConstSizeAt(s.Rest(), size, bcd).Some?)
    modifies s
    ensures s.Valid() && ok == ConstSizeAt(old(s.Rest()), size, bcd).Some?
    ensures ok ==> ConstSizeAt(old(s.Rest()), size, bcd) == Some(Read(v, s.Rest()))
  {
    hide Unpack, ToNat, SignAt, DecimalAt, Wrap64, Unsigned64;
    v := 0;
    var sign, ret;
    ok, sign := DecSign(s, bcd);
    if ok {
      ghost var r := s.Rest();
      ok, ret := DecDigits(s, Digits(size, bcd), bcd);
      if ok {
        WrapUnsigned(DecimalAt(r, 0, Digits(size, bcd), bcd).value.value);
        v := Wrap64(sign * Wrap64(ret));
      }
    }
  }

  lemma WrapUnsigned(m: nat)
    ensures Wrap64(Unsigned64(m)) == Wrap64(m)
  {
  }

  /** `Acn_Dec_Int_BCD_OR_ASCII_VarSize_NullTerminated` */
  method DecNullTerminated(s: BitStream, bcd: bool) returns (ok: bool, v: sint64)
    requires s.Valid() && s.Room(0) && Safe(s, NullTerminatedAt(s.Rest(), bcd).Some?)
    modifies s
    ensures s.Valid() && ok == NullTerminatedAt(old(s.Rest()), bcd).Some?
    ensures ok ==> NullTerminatedAt(old(s.Rest()), bcd) == Some(Read(v, s.Rest()))
  {
    hide Unpack, ToNat, SignAt, UntilAt, Wrap64, Unsigned64;
    v := 0;
    var sign, ret;
    ok, sign := DecSign(s, bcd);
    if ok {
      ghost var r := s.Rest();
      ok, ret := DecUntil(s, bcd);
      if ok {
        WrapUnsigned(UntilAt(r, 0, bcd).value.value);
        v := Wrap64(sign * Wrap64(ret));
      }
    }
  }

  /** The loop that ends at the terminator. */
  method DecUntil(s: BitStream, bcd: bool) returns (ok: bool, ret: uint64)
    requires s.Valid() && s.Room(0) && Safe(s, UntilAt(s.Rest(), 0, bcd).Some?)
    modifies s
    ensures s.Valid() && ok == UntilAt(old(s.Rest()), 0, bcd).Some?
    ensures ok ==> var m := UntilAt(old(s.Rest()), 0, bcd).value;
                   s.Room(0) && ret == Unsigned64(m.value) && s.Rest() == m.rest
  {
    hide Unpack, ToNat, Unsigned64;
    ghost var acc: nat, whole := 0, UntilAt(s.Rest(), 0, bcd);
    NothingRead();
    ok, ret := true, 0;
    while true
      invariant ok && s.Valid() && s.Room(0) && Safe(s, whole.Some?)
      invariant whole == UntilAt(s.Rest(), acc, bcd) && ret == Unsigned64(acc)
      decreases |s.Rest()|
    {
      var x;
      ok, x := ReadUnit(s, bcd);
      if !ok {
        return;
      }
      if bcd {
        if x > 9 {
          return;
        }
      } else {
        if x == 0 {
          return;
        }
        x := WrapCharacter(x);
      }
      UnsignedStep(acc, x);
      ret, acc := Unsigned64(ret * 10 + x), acc * 10 + x;
    }
  }

  // ---------------------------------------------------------------- length-embedded and terminated numbers

  /** `Acn_Get_Int_Size_ASCII` */
  method GetIntSizeASCII(v: sint64) returns (ret: nat)
    ensures ret == SizeOf(v, false)
  {
    if v == -0x8000_0000_0000_0000 {
      MinDigits();
      return 20;
    }
    var m: int := v;
    ret := GetIntSizeBCD(if m < 0 then -m else m);
    ret := ret + 1;
  }

  method GetIntSize(v: sint64, bcd: bool) returns (ret: nat)
    requires bcd ==> v >= 0
    ensures ret == SizeOf(v, bcd) <= 20
  {
    DigitsOfWord(Magnitude(v));
    if bcd {
      ret := GetIntSizeBCD(v);
    } else {
      ret := GetIntSizeASCII(v);
    }
  }

  method EncLengthEmbedded(s: BitStream, v: sint64, bcd: bool)
    requires (bcd ==> v >= 0) && s.Writable() && s.Room(|LengthEmbeddedBits(v, bcd)|)
    modifies s, s.buf
    ensures s.Writable() && s.Written() == old(s.Written()) + LengthEmbeddedBits(v, bcd)
  {
    hide Unpack, ByteBits, FromNat, ConstSizeBits;
    ghost var w0 := s.Written();
    var n := GetIntSize(v, bcd);
    ByteOfBits(n);
    s.AppendByte0(ByteOf(n));
    EncConstSize(s, v, n, bcd);
    AppendTwo(w0, FromNat(n, 8), ConstSizeBits(v, n, bcd));
  }

  method DecLengthEmbedded(s: BitStream, bcd: bool) returns (ok: bool, v: sint64)
    requires s.Valid() && s.Room(0) && Safe(s, LengthEmbeddedAt(s.Rest(), bcd).Some?)
    modifies s
    ensures s.Valid() && ok == LengthEmbeddedAt(old(s.Rest()), bcd).Some?
    ensures ok ==> LengthEmbeddedAt(old(s.Rest()), bcd) == Some(Read(v, s.Rest()))
  {
    hide Unpack, ToNat, ConstSizeAt;
    v := 0;
    var n;
    ok, n := ReadUnit(s, false);
    if ok {
      ok, v := DecConstSize(s, n, bcd);
    }
  }

  method EncNullTerminated(s: BitStream, v: sint64, bcd: bool)
    requires (bcd ==> v >= 0) && s.Writable() && s.Room(|NullTerminatedBits(v, bcd)|)
    modifies s, s.buf
    ensures s.Writable() && s.Written() == old(s.Written()) + NullTerminatedBits(v, bcd)
  {
    hide Unpack, ByteBits, FromNat, ConstSizeBits;
    ghost var w0 := s.Written();
    var n := GetIntSize(v, bcd);
    EncConstSize(s, v, n, bcd);
    if bcd {
      Nibble(0xF);
      s.AppendPartialByte(ByteOf(0xF), 4, false);
      AppendTwo(w0, ConstSizeBits(v, n, bcd), FromNat(0xF, 4));
    } else {
      ByteOfBits(0);
      s.AppendByte0(ByteOf(0));
      AppendTwo(w0, ConstSizeBits(v, n, bcd), FromNat(0, 8));
    }
  }
}
