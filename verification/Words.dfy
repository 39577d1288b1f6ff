/**
 * Conversions between signed and unsigned words that the octet-wise encodings share (`messages/ber.c`,
 * `messages/acn.c`).
 */
module Words {
  import opened Bits
  import opened Per

  type sint32 = v: int | -0x8000_0000 <= v < 0x8000_0000

  /** The conversion of a value to a signed 32-bit word. */
  function Wrap32(v: int): sint32 {
    (v + 0x8000_0000) % 0x1_0000_0000 - 0x8000_0000
  }

  /** `~v` on a 64-bit word. */
  function Not64(v: uint64): uint64 {
    TWO64 - 1 - v
  }

  /** `int2uint` and `To_UInt`: the two's complement word, computed without relying on the representation. */
  method Int2UInt(v: sint64) returns (ret: uint64)
    ensures ret == Unsigned64(v) && Wrap64(ret) == v
  {
    var w: int := v;
    if w < 0 {
      ret := Not64(-w - 1);
    } else {
      ret := w;
    }
  }

  /** `uint2int`: the word's low octets are a two's complement number; its high octets are zero. */
  method UInt2Int(v: uint64, size: nat) returns (ret: sint64)
    requires 1 <= size <= 8 && v < Pow2(8 * size)
    ensures ret == if v < Pow2(8 * size - 1) then v else v - Pow2(8 * size)
  {
    hide Pow2, Shr;
    Pow2Values();
    Pow2Monotone(8 * size, 64);
    SignBit(v, 8 * size);
    if Shr(v, 8 * size - 1) % 2 == 0 {
      WrapFits(v);
      return Wrap64(v);
    }
    var w, i: int := v, 7;
    while i >= size
      invariant size - 1 <= i <= 7 && w == v + TWO64 - Pow2(8 * (i + 1)) < TWO64
    {
      HighOctet(i);
      Pow2Monotone(8 * size, 8 * i);
      w, i := w + 0xFF * Pow2(8 * i), i - 1;
    }
    ret := Wrap64(-1 - Wrap64(Not64(w)));
    ExtendedWord(v, w, Pow2(8 * size));
  }

  lemma HighOctet(i: nat)
    ensures 0xFF * Pow2(8 * i) + Pow2(8 * i) == Pow2(8 * (i + 1))
  {
    Pow2Values();
    Pow2Add(8, 8 * i);
  }

  /** The test of the sign bit, with the mask `0x80 << 8 * (size - 1)`. */
  lemma SignBit(v: nat, w: nat)
    requires w > 0 && v < Pow2(w)
    ensures Shr(v, w - 1) % 2 == 0 <==> v < Pow2(w - 1)
    ensures Pow2(w) == 2 * Pow2(w - 1)
  {
    ShrBound(v, w - 1, 1);
    ShrPositive(v, w - 1);
  }

  lemma ExtendedWord(v: uint64, w: uint64, p: nat)
    requires p <= TWO64 && v < p <= 2 * v && w == v + TWO64 - p
    ensures Wrap64(-1 - Wrap64(Not64(w))) == v - p
  {
  }

  /** The low octets of the word of a value are its two's complement field. */
  lemma LowBits(v: sint64, w: nat)
    requires FitsTwos(v, w) && w <= 64
    ensures FromNat(Unsigned64(v), w) == TwosBits(v, w)
  {
    hide FromNat, Pow2;
    var x: int := v;
    if x < 0 {
      var p, q := Pow2(w), Pow2(64 - w);
      FitsUnsignedToo(x, w);
      Complement(-x - 1, w);
      FromNatMod(p + x, w, q - 1);
      WordOfNegative(x, w);
    }
  }

  lemma FitsUnsignedToo(v: int, w: nat)
    requires FitsTwos(v, w) && v < 0
    ensures -v - 1 < Pow2(w)
  {
    Pow2Monotone(w - 1, w);
  }

  lemma WordOfNegative(x: int, w: nat)
    requires w <= 64 && -0x8000_0000_0000_0000 <= x < 0
    ensures Pow2(w) + x + (Pow2(64 - w) - 1) * Pow2(w) == Unsigned64(x)
  {
    hide Pow2;
    Pow2Values();
    Pow2Add(64 - w, w);
    assert (Pow2(64 - w) - 1) * Pow2(w) == Pow2(64 - w) * Pow2(w) - Pow2(w);
  }

  /** Reading a field as a word and converting it is reading it as a two's complement number. */
  lemma FieldValue(s: seq<bool>)
    requires s != []
    ensures TwosValue(s) == if ToNat(s) < Pow2(|s| - 1) then ToNat(s) else ToNat(s) - Pow2(|s|)
    ensures ToNat(s) < Pow2(|s|)
  {
    var h, t := s[..1], s[1..];
    assert s == h + t;
    ToNatConcat(h, t);
    ToNatBound(t);
    ToNatBound(s);
    assert h[..0] == [] && ToNat(h) == if s[0] then 1 else 0;
  }

  /** Keeping a word while octets are shifted in is keeping the number and reducing it at the end. */
  lemma WordStep(x: int, b: nat)
    ensures Unsigned64(Unsigned64(x) * 0x100 + b) == Unsigned64(x * 0x100 + b)
  {
    var k, r := x / TWO64, x % TWO64;
    assert x * 0x100 + b == (r * 0x100 + b) + TWO64 * (0x100 * k);
    WordPeriodic(r * 0x100 + b, 0x100 * k);
  }

  lemma WordPeriodic(x: int, k: int)
    ensures Unsigned64(x + TWO64 * k) == Unsigned64(x)
  {
  }
}
