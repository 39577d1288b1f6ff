/** Bit strings, most significant bit first, and the numbers they denote. */
module Bits {

  function Pow2(n: nat): (p: nat)
    ensures p > 0
  {
    if n == 0 then 1 else 2 * Pow2(n - 1)
  }

  /** The natural number that a bit string denotes. */
  function ToNat(s: seq<bool>): nat {
    if s == [] then 0 else 2 * ToNat(s[..|s| - 1]) + (if s[|s| - 1] then 1 else 0)
  }

  /** The `w` low-order bits of `v`. */
  function FromNat(v: nat, w: nat): (s: seq<bool>)
    ensures |s| == w
  {
    if w == 0 then [] else FromNat(v / 2, w - 1) + [v % 2 == 1]
  }

  function Zeros(n: nat): (s: seq<bool>)
    ensures |s| == n
  {
    seq(n, _ => false)
  }

  function Ones(n: nat): (s: seq<bool>)
    ensures |s| == n
  {
    seq(n, _ => true)
  }

  function NotBits(s: seq<bool>): (r: seq<bool>)
    ensures |r| == |s|
  {
    seq(|s|, i requires 0 <= i < |s| => !s[i])
  }

  /** `v >> n` on an unsigned word. */
  function Shr(v: nat, n: nat): nat {
    if n == 0 then v else Shr(v / 2, n - 1)
  }

  /** The number of significant bits of `v`. */
  function NumBits(v: nat): nat {
    if v == 0 then 0 else 1 + NumBits(v / 2)
  }

  lemma {:induction false} Pow2Add(a: nat, b: nat)
    ensures Pow2(a + b) == Pow2(a) * Pow2(b)
  {
    if a > 0 {
      Pow2Add(a - 1, b);
      assert Pow2(a + b) == 2 * Pow2(a - 1 + b);
      assert Pow2(a) * Pow2(b) == 2 * (Pow2(a - 1) * Pow2(b)) by { MulAssoc(2, Pow2(a - 1), Pow2(b)); }
    }
  }

  lemma MulAssoc(a: int, b: int, c: int)
    ensures (a * b) * c == a * (b * c)
  {
  }

  lemma {:induction false} Pow2Monotone(a: nat, b: nat)
    requires a <= b
    ensures Pow2(a) <= Pow2(b)
  {
    if a < b { Pow2Monotone(a, b - 1); }
  }

  /** The powers of two that the integer widths of the codec refer to. */
  lemma Pow2Values()
    ensures Pow2(1) == 2 && Pow2(4) == 16 && Pow2(5) == 32 && Pow2(6) == 64 && Pow2(7) == 0x80 && Pow2(8) == 0x100
    ensures Pow2(15) == 0x8000 && Pow2(16) == 0x1_0000 && Pow2(23) == 0x80_0000 && Pow2(24) == 0x100_0000
    ensures Pow2(31) == 0x8000_0000 && Pow2(32) == 0x1_0000_0000
    ensures Pow2(39) == 0x80_0000_0000 && Pow2(40) == 0x100_0000_0000
    ensures Pow2(47) == 0x8000_0000_0000 && Pow2(48) == 0x1_0000_0000_0000
    ensures Pow2(55) == 0x80_0000_0000_0000 && Pow2(56) == 0x100_0000_0000_0000
    ensures Pow2(63) == 0x8000_0000_0000_0000 && Pow2(64) == 0x1_0000_0000_0000_0000
  {
    assert Pow2(8) == 0x100;
    Pow2Add(8, 8);
    Pow2Add(16, 8);
    Pow2Add(24, 8);
    Pow2Add(32, 8);
    Pow2Add(40, 8);
    Pow2Add(48, 8);
    Pow2Add(56, 8);
  }

  lemma {:induction false} ToNatBound(s: seq<bool>)
    ensures ToNat(s) < Pow2(|s|)
  {
    if s != [] { ToNatBound(s[..|s| - 1]); }
  }

  /** Decoding a fixed-width field gives back the value it was built from. */
  lemma {:induction false} ToNatFromNat(v: nat, w: nat)
    requires v < Pow2(w)
    ensures ToNat(FromNat(v, w)) == v
  {
    if w > 0 {
      ToNatFromNat(v / 2, w - 1);
      assert FromNat(v, w)[..w - 1] == FromNat(v / 2, w - 1);
    }
  }

  /** Writing the value of a field gives back the field. */
  lemma {:induction false} FromNatToNat(s: seq<bool>)
    ensures FromNat(ToNat(s), |s|) == s
  {
    if s != [] { FromNatToNat(s[..|s| - 1]); }
  }

  /** Reading a field in two parts. */
  lemma {:induction false} ToNatConcat(a: seq<bool>, b: seq<bool>)
    ensures ToNat(a + b) == ToNat(a) * Pow2(|b|) + ToNat(b)
  {
    if b == [] {
      assert a + b == a;
    } else {
      var b' := b[..|b| - 1];
      ToNatConcat(a, b');
      assert (a + b)[..|a + b| - 1] == a + b';
      assert ToNat(a) * Pow2(|b|) == 2 * (ToNat(a) * Pow2(|b'|)) by {
        MulAssoc(ToNat(a), 2, Pow2(|b'|));
        MulAssoc(2, ToNat(a), Pow2(|b'|));
      }
    }
  }

  /** Writing a field in two parts. */
  lemma {:induction false} FromNatSplit(v: nat, a: nat, b: nat)
    ensures FromNat(v, a + b) == FromNat(Shr(v, b), a) + FromNat(v, b)
  {
    if b > 0 {
      FromNatSplit(v / 2, a, b - 1);
      assert FromNat(v, a + b) == FromNat(v / 2, a + (b - 1)) + [v % 2 == 1];
    }
  }

  lemma {:induction false} ShrAdd(v: nat, a: nat, b: nat)
    ensures Shr(v, a + b) == Shr(Shr(v, a), b)
  {
    if a > 0 { ShrAdd(v / 2, a - 1, b); }
  }

  lemma {:induction false} ShrSmall(v: nat, n: nat)
    requires v < Pow2(n)
    ensures Shr(v, n) == 0
  {
    if n > 0 { ShrSmall(v / 2, n - 1); }
  }

  lemma {:induction false} ShrBound(v: nat, a: nat, b: nat)
    requires v < Pow2(a + b)
    ensures Shr(v, a) < Pow2(b)
  {
    if a > 0 { ShrBound(v / 2, a - 1, b); }
  }

  lemma {:induction false} ShrPositive(v: nat, n: nat)
    ensures Shr(v, n) > 0 <==> Pow2(n) <= v
  {
    if n > 0 { ShrPositive(v / 2, n - 1); }
  }

  /** Shifting right is dividing by the power of two, rounding down. */
  lemma {:induction false} ShrBounds(v: nat, n: nat)
    ensures Pow2(n) * Shr(v, n) <= v < Pow2(n) * Shr(v, n) + Pow2(n)
  {
    if n > 0 {
      ShrBounds(v / 2, n - 1);
      MulAssoc(2, Pow2(n - 1), Shr(v, n));
    }
  }

  /** The shifts by whole words, as divisions. */
  lemma ShrValues(v: nat)
    ensures Shr(v, 8) == v / 0x100 && Shr(v, 16) == v / 0x1_0000
    ensures Shr(v, 24) == v / 0x100_0000 && Shr(v, 32) == v / 0x1_0000_0000
  {
    Shr8(v);
    Shr8(v / 0x100);
    Shr8(v / 0x1_0000);
    Shr8(v / 0x100_0000);
    ShrAdd(v, 8, 8);
    ShrAdd(v, 16, 8);
    ShrAdd(v, 24, 8);
  }

  lemma Shr8(v: nat)
    ensures Shr(v, 8) == v / 0x100
  {
    ShrAdd(v, 4, 4);
    Shr4(v);
    Shr4(v / 16);
  }

  lemma Shr4(v: nat)
    ensures Shr(v, 4) == v / 16
  {
    assert Shr(v, 4) == Shr(v / 2, 3) == Shr(v / 2 / 2, 2) == Shr(v / 2 / 2 / 2, 1) == Shr(v / 2 / 2 / 2 / 2, 0);
  }

  /** The high bits do not matter for the low field. */
  lemma {:induction false} FromNatMod(v: nat, w: nat, k: nat)
    ensures FromNat(v + k * Pow2(w), w) == FromNat(v, w)
  {
    if w > 0 {
      var p := Pow2(w - 1);
      assert k * Pow2(w) == 2 * (k * p) by {
        MulAssoc(k, 2, p);
        MulAssoc(2, k, p);
      }
      assert (v + 2 * (k * p)) / 2 == v / 2 + k * p;
      assert (v + 2 * (k * p)) % 2 == v % 2;
      FromNatMod(v / 2, w - 1, k);
    }
  }

  lemma {:induction false} FromZero(w: nat)
    ensures FromNat(0, w) == Zeros(w)
  {
    if w > 0 { FromZero(w - 1); }
  }

  /** Leading zeros widen a field without changing its value. */
  lemma PadZeros(v: nat, a: nat, b: nat)
    requires v < Pow2(b)
    ensures Zeros(a) + FromNat(v, b) == FromNat(v, a + b)
  {
    FromNatSplit(v, a, b);
    FromZero(a);
    ShrSmall(v, b);
  }

  /** Complementing a field is subtracting it from the all-ones value. */
  lemma {:induction false} Complement(v: nat, w: nat)
    requires v < Pow2(w)
    ensures NotBits(FromNat(v, w)) == FromNat(Pow2(w) - 1 - v, w)
  {
    if w > 0 {
      Complement(v / 2, w - 1);
      assert (Pow2(w) - 1 - v) / 2 == Pow2(w - 1) - 1 - v / 2;
      assert (Pow2(w) - 1 - v) % 2 == 1 - v % 2;
      assert NotBits(FromNat(v, w)) == NotBits(FromNat(v / 2, w - 1)) + [v % 2 != 1];
    }
  }

  lemma NotConcat(a: seq<bool>, b: seq<bool>)
    ensures NotBits(a + b) == NotBits(a) + NotBits(b)
  {
  }

  /** `NumBits` is the width of the shortest field that holds `v`. */
  lemma {:induction false} NumBitsBounds(v: nat)
    ensures v < Pow2(NumBits(v))
    ensures v > 0 ==> Pow2(NumBits(v) - 1) <= v
  {
    if v > 0 {
      NumBitsBounds(v / 2);
    }
  }

  lemma NumBitsUnique(v: nat, n: nat)
    requires v < Pow2(n)
    requires n > 0 ==> Pow2(n - 1) <= v
    ensures NumBits(v) == n
  {
    NumBitsBounds(v);
    if NumBits(v) < n {
      Pow2Monotone(NumBits(v), n - 1);
    } else if n < NumBits(v) {
      Pow2Monotone(n, NumBits(v) - 1);
    }
  }

  lemma {:induction false} NumBitsAtMost(v: nat, n: nat)
    requires v < Pow2(n)
    ensures NumBits(v) <= n
  {
    if n > 0 { NumBitsAtMost(v / 2, n - 1); }
  }

  /** A number above a word boundary is its high word followed by a full low word. */
  lemma {:induction false} NumBitsSplit(v: nat, w: nat)
    requires Pow2(w) <= v
    ensures NumBits(v) == NumBits(Shr(v, w)) + w
  {
    if w > 0 { NumBitsSplit(v / 2, w - 1); }
  }
}
