/**
 * Binary interchange layouts (section 3.4 of IEEE 754-2008): a sign bit, a biased
 * exponent of `exponentWidth` bits and a trailing significand of
 * `significandWidth` bits, held in one unsigned integer. The library's Float32
 * and Float64 are the two instances Binary32 and Binary64.
 */
module Formats {
  import opened Arithmetic
  import opened ExactFloats

  datatype Format = Format(exponentWidth: nat, significandWidth: nat, bias: nat) {

    /** The shape of a standard binary format: bias 2^(w-1) - 1, more exponent range than precision. */
    predicate Valid() {
      exponentWidth >= 2 && significandWidth >= 1 &&
      bias == Pow2(exponentWidth - 1) - 1 && significandWidth < bias
    }

    function Width(): nat {
      1 + exponentWidth + significandWidth
    }

    /** The weight of the sign bit. */
    function SignWeight(): nat {
      Pow2(exponentWidth + significandWidth)
    }

    /** The all-ones biased exponent, reserved for infinities and NaNs. */
    function MaxBiased(): nat {
      Pow2(exponentWidth) - 1
    }

    /** Exponent of one unit in the last place of a subnormal (2^-149 for Binary32). */
    function MinQuantum(): int {
      1 - bias - significandWidth
    }

    /** Exponent of the leading bit of the smallest normal value (-126 for Binary32). */
    function MinExponent(): int {
      1 - bias
    }

    /** Exponent of the leading bit of the largest finite value (127 for Binary32). */
    function MaxExponent(): int {
      Pow2(exponentWidth) - 2 - bias
    }

    function Encode(negative: bool, biased: nat, trailing: nat): nat {
      (if negative then SignWeight() else 0) + biased * Pow2(significandWidth) + trailing
    }

    predicate IsBits(bits: nat) {
      bits < Pow2(Width())
    }

    function SignBit(bits: nat): bool {
      bits >= SignWeight()
    }

    function BiasedExponent(bits: nat): nat {
      bits / Pow2(significandWidth) % Pow2(exponentWidth)
    }

    function Trailing(bits: nat): nat {
      bits % Pow2(significandWidth)
    }

    predicate IsFinite(bits: nat) {
      IsBits(bits) && BiasedExponent(bits) < MaxBiased()
    }

    predicate IsInfinite(bits: nat) {
      IsBits(bits) && BiasedExponent(bits) == MaxBiased() && Trailing(bits) == 0
    }

    predicate IsNaN(bits: nat) {
      IsBits(bits) && BiasedExponent(bits) == MaxBiased() && Trailing(bits) != 0
    }

    /**
     * The exact value of a finite pattern (`toExactFloat`): a normal value gets the
     * implicit leading bit, a subnormal or zero sits at the subnormal exponent.
     */
    function Decode(bits: nat): (v: ExactFloat)
      requires IsFinite(bits)
      ensures v.sign == SignBit(bits)
      ensures v.exponent >= MinQuantum() && v.significand < Pow2(significandWidth + 1)
      ensures v.significand == 0 <==> BiasedExponent(bits) == 0 && Trailing(bits) == 0
    {
      var biased := BiasedExponent(bits);
      var t := Trailing(bits);
      if biased == 0 then ExactFloat(SignBit(bits), MinQuantum(), t)
      else ExactFloat(SignBit(bits), biased - bias - significandWidth, t + Pow2(significandWidth))
    }

    function SignedZero(negative: bool): nat {
      Encode(negative, 0, 0)
    }

    function SignedInfinity(negative: bool): nat {
      Encode(negative, MaxBiased(), 0)
    }

    /** The finite value of largest magnitude with the given sign. */
    function LargestFinite(negative: bool): nat
      requires Valid()
    {
      Encode(negative, MaxBiased() - 1, Pow2(significandWidth) - 1)
    }

    /** The quiet NaN the library uses as its canonical NaN. */
    function NaN(): nat
      requires Valid()
    {
      Encode(false, MaxBiased(), Pow2(significandWidth - 1))
    }

    /** Flips the sign bit (the library's `negate` on a float). */
    function NegateBits(bits: nat): (r: nat)
      requires IsBits(bits)
      ensures IsBits(r) && SignBit(r) == !SignBit(bits)
    {
      Weights(this);
      if SignBit(bits) then bits - SignWeight() else bits + SignWeight()
    }
  }

  const Binary32: Format := Format(8, 23, 127)
  const Binary64: Format := Format(11, 52, 1023)

  lemma Binary32Constants()
    ensures Binary32.Valid() && Binary32.Width() == 32
    ensures Binary32.MinQuantum() == -149 && Binary32.MinExponent() == -126 && Binary32.MaxExponent() == 127
    ensures Binary32.SignedZero(true) == 0x8000_0000
    ensures Binary32.SignedInfinity(false) == 0x7F80_0000 && Binary32.SignedInfinity(true) == 0xFF80_0000
    ensures Binary32.LargestFinite(false) == 0x7F7F_FFFF && Binary32.LargestFinite(true) == 0xFF7F_FFFF
    ensures Binary32.NaN() == 0x7FC0_0000
  {
    Pow2Table();
    assert Binary32.SignWeight() == Pow2(31);
  }

  lemma Binary64Constants()
    ensures Binary64.Valid() && Binary64.Width() == 64
    ensures Binary64.MinQuantum() == -1074 && Binary64.MaxExponent() == 1023
    ensures Binary64.SignedInfinity(false) == 0x7FF0_0000_0000_0000
  {
    Pow2Table();
    assert Binary64.SignWeight() == Pow2(63);
  }

  /** The weight of the sign bit is the product of the two field ranges, and half the pattern range. */
  lemma Weights(f: Format)
    ensures f.SignWeight() == Pow2(f.exponentWidth) * Pow2(f.significandWidth)
    ensures Pow2(f.Width()) == 2 * f.SignWeight()
  {
    Pow2Add(f.exponentWidth, f.significandWidth);
  }

  /** Mixed-radix digits: s, hi, lo are recovered from (s*b + hi)*a + lo. */
  lemma Digits(a: nat, b: nat, s: nat, hi: nat, lo: nat)
    requires a > 0 && b > 0 && hi < b && lo < a
    ensures ((s * b + hi) * a + lo) / a == s * b + hi && ((s * b + hi) * a + lo) % a == lo
    ensures (s * b + hi) / b == s && (s * b + hi) % b == hi
  {
    DivModUnique((s * b + hi) * a + lo, a, s * b + hi, lo);
    DivModUnique(s * b + hi, b, s, hi);
  }

  /** Splitting an encoded pattern gives back its sign, biased exponent and trailing bits. */
  lemma FieldsOfEncode(f: Format, negative: bool, biased: nat, trailing: nat)
    requires biased < Pow2(f.exponentWidth) && trailing < Pow2(f.significandWidth)
    ensures var bits := f.Encode(negative, biased, trailing);
            f.IsBits(bits) && f.SignBit(bits) == negative &&
            f.BiasedExponent(bits) == biased && f.Trailing(bits) == trailing
  {
    var a, b := Pow2(f.significandWidth), Pow2(f.exponentWidth);
    Weights(f);
    var s: nat := if negative then 1 else 0;
    assert f.Encode(negative, biased, trailing) == s * (b * a) + biased * a + trailing;
    DigitsOf(a, b, s, biased, trailing);
  }

  /** The number with digits s (0 or 1), hi and lo in radix b * a, b and a. */
  lemma DigitsOf(a: nat, b: nat, s: nat, hi: nat, lo: nat)
    requires a > 0 && b > 0 && s <= 1 && hi < b && lo < a
    ensures var n := s * (b * a) + hi * a + lo;
            n < 2 * (b * a) && (n >= b * a <==> s == 1) && n / a % b == hi && n % a == lo
  {
    LowBits(a, b, hi, lo);
    EncodeAsDigits(a, b, s, hi, lo);
    Digits(a, b, s, hi, lo);
  }


  lemma LowBits(a: nat, b: nat, hi: nat, lo: nat)
    requires hi < b && lo < a
    ensures hi * a + lo < b * a
  {
    MulMonotone(hi, b - 1, a);
    assert (b - 1) * a == b * a - a;
  }

  lemma EncodeAsDigits(a: nat, b: nat, s: nat, hi: nat, lo: nat)
    ensures (s * b + hi) * a + lo == s * (b * a) + hi * a + lo
  {
    assert (s * b + hi) * a == s * b * a + hi * a;
  }

  /** Every pattern is the encoding of its own fields. */
  lemma EncodeOfFields(f: Format, bits: nat)
    requires f.IsBits(bits)
    ensures f.BiasedExponent(bits) < Pow2(f.exponentWidth) && f.Trailing(bits) < Pow2(f.significandWidth)
    ensures f.Encode(f.SignBit(bits), f.BiasedExponent(bits), f.Trailing(bits)) == bits
  {
    Weights(f);
    SplitDigits(Pow2(f.significandWidth), Pow2(f.exponentWidth), bits);
  }

  lemma SplitDigits(a: nat, b: nat, bits: nat)
    requires a > 0 && b > 0 && bits < 2 * (b * a)
    ensures var s: nat := if bits >= b * a then 1 else 0;
            bits == s * (b * a) + (bits / a % b) * a + bits % a
  {
    if bits >= b * a {
      SplitUpper(a, b, bits);
    } else {
      SplitBelow(a, b, bits);
      DivModUnique(bits / a, b, 0, bits / a);
    }
  }

  /** A pattern with the sign bit set: its digits below the sign are those of bits - b * a. */
  lemma SplitUpper(a: nat, b: nat, bits: nat)
    requires a > 0 && b > 0 && b * a <= bits < 2 * (b * a)
    ensures bits == b * a + (bits / a % b) * a + bits % a
  {
    var r: nat := bits - b * a;
    SplitBelow(a, b, r);
    var hi, lo := r / a, r % a;
    assert bits == (b + hi) * a + lo by {
      assert (b + hi) * a == b * a + hi * a;
    }
    DivModUnique(bits, a, b + hi, lo);
    DivModUnique(b + hi, b, 1, hi);
  }



  /** Below b * a, the quotient by a is a digit below b. */
  lemma SplitBelow(a: nat, b: nat, r: nat)
    requires a > 0 && r < b * a
    ensures r == (r / a) * a + r % a && r / a < b
  {
    if r / a >= b {
      MulMonotone(b, r / a, a);
    }
  }


  /** Negating a float flips its sign bit and nothing else, and negates its value. */
  lemma NegateBitsFields(f: Format, bits: nat)
    requires f.IsBits(bits)
    ensures f.IsBits(f.NegateBits(bits)) && f.NegateBits(f.NegateBits(bits)) == bits
    ensures f.SignBit(f.NegateBits(bits)) == !f.SignBit(bits)
    ensures f.BiasedExponent(f.NegateBits(bits)) == f.BiasedExponent(bits)
    ensures f.Trailing(f.NegateBits(bits)) == f.Trailing(bits)
    ensures f.IsFinite(bits) ==> f.IsFinite(f.NegateBits(bits)) && f.Decode(f.NegateBits(bits)) == Negate(f.Decode(bits))
  {
    EncodeOfFields(f, bits);
    var s, e, t := f.SignBit(bits), f.BiasedExponent(bits), f.Trailing(bits);
    assert f.NegateBits(bits) == f.Encode(!s, e, t);
    FieldsOfEncode(f, !s, e, t);
    FieldsOfEncode(f, s, e, t);
  }

  /**
   * The special patterns fall in the classes their names promise: the signed
   * infinities are infinite, the canonical NaN is a NaN, and the signed zeros and
   * the largest finite values are finite, each with the requested sign.
   */
  lemma SpecialPatterns(f: Format, negative: bool)
    requires f.Valid()
    ensures f.IsInfinite(f.SignedInfinity(negative)) && f.SignBit(f.SignedInfinity(negative)) == negative
    ensures f.IsNaN(f.NaN()) && !f.IsFinite(f.NaN()) && !f.IsInfinite(f.NaN())
    ensures f.IsFinite(f.SignedZero(negative)) && f.SignBit(f.SignedZero(negative)) == negative
    ensures f.IsFinite(f.LargestFinite(negative)) && f.SignBit(f.LargestFinite(negative)) == negative
  {
    var a := Pow2(f.significandWidth);
    Pow2StrictlyMonotone(f.significandWidth - 1, f.significandWidth);
    FieldsOfEncode(f, negative, f.MaxBiased(), 0);
    FieldsOfEncode(f, false, f.MaxBiased(), Pow2(f.significandWidth - 1));
    FieldsOfEncode(f, negative, 0, 0);
    Pow2Monotone(1, f.exponentWidth);
    FieldsOfEncode(f, negative, f.MaxBiased() - 1, a - 1);
  }
}
