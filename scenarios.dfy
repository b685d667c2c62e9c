/**
 * The conversion scenarios of TestConversions.java on binary32 (the library's
 * Float32), each assertion of the test as a proved fact about the model. A
 * fresh `new Environment(mode)` is a call of the pure encoder in that mode; the
 * tests that reuse one environment are methods over an Environment object.
 */
module ConversionScenarios {
  import opened Arithmetic
  import opened ExactFloats
  import opened Rounding
  import opened Formats
  import opened Engine
  import opened IntegerConversion
  import opened Environments
  import Floats
  import Conversions

  /** Bits of Float32.fromExact(v, new Environment(mode)). */
  function Encode32(v: ExactFloat, mode: RoundingMode): nat {
    Binary32Constants();
    RoundToFormat(Binary32, v, mode).bits
  }

  /** Bits of Conversions.roundToIntegral(new Float32(bits), new Environment(mode)). */
  function Integral32(bits: nat, mode: RoundingMode): nat
    requires bits < 0x1_0000_0000
  {
    Binary32Constants();
    Pow2Table();
    RoundToIntegral(Binary32, bits, mode).bits
  }

  // Evaluation helpers: the encoder's steps for a value whose binade is known.

  lemma Eval32(v: ExactFloat, mode: RoundingMode, len: nat, q: int, e0: int, x: nat, u: nat)
    requires len >= 1 && Pow2(len - 1) <= v.significand < Pow2(len)
    requires q == IntMax(v.exponent + len - 1 - 23, -149) && e0 == IntMin(v.exponent, q)
    requires x == v.significand * Pow2(v.exponent - e0) && u == Pow2(q - e0)
    ensures Binary32.Valid() && u > 0 && q >= Binary32.MinQuantum()
    ensures RoundScaled(x, u, v.sign, mode) <= Pow2(24)
    ensures RoundToFormat(Binary32, v, mode) ==
            Pack(Binary32, v.sign, RoundScaled(x, u, v.sign, mode), q, x % u != 0, v.exponent + len - 1 < -126, mode)
  {
    Binary32Constants();
    BitLengthUnique(v.significand, len - 1);
    assert Lead(v) == v.exponent + len - 1;
    assert Quantum(Binary32, v) == q;
    assert Base(Binary32, v) == e0;
    assert Magnitude(Binary32, v) == x && Unit(Binary32, v) == u;
    QuantumBounds(Binary32, v);
    assert Kept(Binary32, v, mode) == RoundScaled(x, u, v.sign, mode);
  }

  /** A value that rounds to k < 2^23 units of 2^-149 is the subnormal pattern k. */
  lemma Subnormal32(v: ExactFloat, mode: RoundingMode, len: nat, e0: int, x: nat, u: nat, k: nat)
    requires len >= 1 && Pow2(len - 1) <= v.significand < Pow2(len)
    requires v.exponent + len - 1 < -126 && e0 == IntMin(v.exponent, -149)
    requires x == v.significand * Pow2(v.exponent - e0) && u == Pow2(-149 - e0)
    requires u > 0 && RoundScaled(x, u, v.sign, mode) == k && k < 0x80_0000
    ensures RoundToFormat(Binary32, v, mode) ==
            Outcome((if v.sign then 0x8000_0000 else 0) + k, if x % u != 0 then {Inexact, Underflow} else {})
  {
    Eval32(v, mode, len, -149, e0, x, u);
    Pow2Table();
  }

  /** A value that rounds to k in [2^23, 2^24) units of 2^q is the normal pattern with biased exponent q + 150. */
  lemma Normal32(v: ExactFloat, mode: RoundingMode, len: nat, q: int, e0: int, x: nat, u: nat, k: nat)
    requires len >= 1 && Pow2(len - 1) <= v.significand < Pow2(len)
    requires q == IntMax(v.exponent + len - 1 - 23, -149) && e0 == IntMin(v.exponent, q) && q <= 104
    requires x == v.significand * Pow2(v.exponent - e0) && u == Pow2(q - e0)
    requires u > 0 && RoundScaled(x, u, v.sign, mode) == k && 0x80_0000 <= k < 0x100_0000
    ensures Encode32(v, mode) == (if v.sign then 0x8000_0000 else 0) + (q + 150) * 0x80_0000 + (k - 0x80_0000)
  {
    Eval32(v, mode, len, q, e0, x, u);
    Pow2Table();
  }

  /** A value that rounds up to 2^24 units of 2^q carries into the next binade. */
  lemma Carry32(v: ExactFloat, mode: RoundingMode, len: nat, q: int, e0: int, x: nat, u: nat)
    requires len >= 1 && Pow2(len - 1) <= v.significand < Pow2(len)
    requires q == IntMax(v.exponent + len - 1 - 23, -149) && e0 == IntMin(v.exponent, q) && q <= 103
    requires x == v.significand * Pow2(v.exponent - e0) && u == Pow2(q - e0)
    requires u > 0 && RoundScaled(x, u, v.sign, mode) == 0x100_0000
    ensures Encode32(v, mode) == (if v.sign then 0x8000_0000 else 0) + (q + 151) * 0x80_0000
  {
    Eval32(v, mode, len, q, e0, x, u);
    Pow2Table();
  }

  /** A value whose kept bits sit above the largest exponent overflows. */
  lemma Overflow32(v: ExactFloat, mode: RoundingMode, len: nat, q: int, e0: int, x: nat, u: nat, k: nat)
    requires len >= 1 && Pow2(len - 1) <= v.significand < Pow2(len)
    requires q == IntMax(v.exponent + len - 1 - 23, -149) && e0 == IntMin(v.exponent, q) && q >= 105
    requires x == v.significand * Pow2(v.exponent - e0) && u == Pow2(q - e0)
    requires u > 0 && RoundScaled(x, u, v.sign, mode) == k && 0x80_0000 <= k <= 0x100_0000
    ensures RoundToFormat(Binary32, v, mode) ==
            Outcome(if OverflowsToInfinity(mode, v.sign) then (if v.sign then 0xFF80_0000 else 0x7F80_0000)
                    else (if v.sign then 0xFF7F_FFFF else 0x7F7F_FFFF), {Overflow, Inexact})
  {
    Eval32(v, mode, len, q, e0, x, u);
    PackOverflow32(v.sign, k, q, x % u != 0, v.exponent + len - 1 < -126, mode);
  }

  lemma PackOverflow32(negative: bool, k: nat, q: int, inexact: bool, tiny: bool, mode: RoundingMode)
    requires 0x80_0000 <= k <= 0x100_0000 && q >= 105
    ensures Pow2(24) == 0x100_0000 && Binary32.Valid()
    ensures Pack(Binary32, negative, k, q, inexact, tiny, mode) ==
            Outcome(if OverflowsToInfinity(mode, negative) then (if negative then 0xFF80_0000 else 0x7F80_0000)
                    else (if negative then 0xFF7F_FFFF else 0x7F7F_FFFF), {Overflow, Inexact})
  {
    Binary32Constants();
    Pow2Table();
  }

  /** The fields of a finite binary32 pattern, read back by the decoder. */
  lemma Decode32(bits: nat, negative: bool, biased: nat, trailing: nat)
    requires biased < 0xFF && trailing < 0x80_0000
    requires bits == (if negative then 0x8000_0000 else 0) + biased * 0x80_0000 + trailing
    ensures Binary32.Valid() && Binary32.IsFinite(bits)
    ensures Binary32.Decode(bits) ==
            if biased == 0 then ExactFloat(negative, -149, trailing) else ExactFloat(negative, biased - 150, trailing + 0x80_0000)
  {
    Binary32Constants();
    Pow2Table();
    FieldsOfEncode(Binary32, negative, biased, trailing);
  }

  // Float32.fromInteger (test lines 16-21).

  lemma FromIntegerEncodings(n: int)
    ensures n == 0 ==> Encode32(FromInteger(n), Even) == 0x0
    ensures n == 1 ==> Encode32(FromInteger(n), Even) == 0x3F80_0000
    ensures n == 2 ==> Encode32(FromInteger(n), Even) == 0x4000_0000
    ensures n == -1 ==> Encode32(FromInteger(n), Even) == 0xBF80_0000
    ensures n == 512 ==> Encode32(FromInteger(n), Even) == 0x4400_0000
    ensures n == 900000000 ==> Encode32(FromInteger(n), Even) == 0x4E56_93A4
  {
    if n == 0 {
      Binary32Constants();
      FieldsOfEncode(Binary32, false, 0, 0);
    } else if n == 1 || n == -1 {
      FromUnit(n);
    } else if n == 2 || n == 512 {
      FromPowerOfTwo(n);
    } else if n == 900000000 {
      FromLarge(n);
    }
  }

  lemma FromUnit(n: int)
    requires n == 1 || n == -1
    ensures Encode32(FromInteger(n), Even) == if n == 1 then 0x3F80_0000 else 0xBF80_0000
  {
    assert Pow2(23) == 0x80_0000 by { Pow2Table(); }
    Normal32(FromInteger(n), Even, 1, -23, -23, 0x80_0000, 1, 0x80_0000);
  }

  lemma FromPowerOfTwo(n: int)
    requires n == 2 || n == 512
    ensures Encode32(FromInteger(n), Even) == if n == 2 then 0x4000_0000 else 0x4400_0000
  {
    assert Pow2(22) == 0x40_0000 by { Pow2Table(); }
    if n == 2 {
      Normal32(FromInteger(n), Even, 2, -22, -22, 0x80_0000, 1, 0x80_0000);
    } else {
      assert Pow2(14) == 0x4000;
      Normal32(FromInteger(n), Even, 10, -14, -14, 0x80_0000, 1, 0x80_0000);
    }
  }

  lemma FromLarge(n: int)
    requires n == 900000000
    ensures Encode32(FromInteger(n), Even) == 0x4E56_93A4
  {
    assert Pow2(29) == 0x2000_0000 && Pow2(30) == 0x4000_0000 by {
      Pow2Table();
      Pow2Add(25, 4);
      Pow2Add(25, 5);
    }
    assert Pow2(6) == 64;
    Normal32(FromInteger(n), Even, 30, 6, 0, 900000000, 64, 14062500);
  }



  /** Float32.fromInteger itself, the method, gives the first two patterns. */
  method FromIntegerCalls() returns (zero: nat, one: nat)
    ensures zero == 0x0 && one == 0x3F80_0000
  {
    Binary32Constants();
    zero := Floats.FromInteger(Binary32, 0);
    one := Floats.FromInteger(Binary32, 1);
    FromIntegerEncodings(0);
    FromIntegerEncodings(1);
  }

  // Conversions.convertToInt of small values (test lines 27-29 and 74-76).

  lemma ConvertSmallIntegers(bits: nat)
    ensures bits == 0x0 ==> ConvertToInteger(Binary32, bits, Even, true, Int).value == 0
    ensures bits == 0x3F80_0000 ==> Binary32.IsBits(bits) && ConvertToInteger(Binary32, bits, Even, true, Int).value == 1
    ensures bits == 0xBF80_0000 ==> Binary32.IsBits(bits) && ConvertToInteger(Binary32, bits, Even, true, Int).value == -1
  {
    Binary32Constants();
    Pow2Table();
    if bits == 0x0 {
      FromIntegerEncodings(0);
      SmallIntegerRoundTrip(Binary32, 0, Even, Even, true, Int);
    } else if bits == 0x3F80_0000 {
      FromIntegerEncodings(1);
      SmallIntegerRoundTrip(Binary32, 1, Even, Even, true, Int);
    } else if bits == 0xBF80_0000 {
      FromIntegerEncodings(-1);
      SmallIntegerRoundTrip(Binary32, -1, Even, Even, true, Int);
    }
  }


  // Subnormal rounding by mode (test lines 87-124); 2^-149 is one subnormal unit.

  lemma SubnormalThreeHalves(v: ExactFloat, mode: RoundingMode)
    requires v == ExactFloat(false, -150, 3)
    ensures Encode32(v, mode) == if mode in {Zero, Min} then 0x1 else 0x2
  {
    if mode in {Zero, Min} {
      Subnormal32(v, mode, 2, -150, 3, 2, 1);
    } else {
      Subnormal32(v, mode, 2, -150, 3, 2, 2);
    }
  }


  /** Half the smallest subnormal, an exact tie between 0 and 0x1. */
  lemma SubnormalHalfTie(v: ExactFloat, mode: RoundingMode)
    requires v == ExactFloat(false, -150, 1)
    ensures Encode32(v, mode) == if mode in {Max, Away} then 0x1 else 0x0
  {
    if mode in {Max, Away} {
      Subnormal32(v, mode, 1, -150, 1, 2, 1);
    } else {
      Subnormal32(v, mode, 1, -150, 1, 2, 0);
    }
  }


  /** Three quarters of the smallest subnormal, nearer to 0x1. */
  lemma SubnormalThreeQuarters(v: ExactFloat, mode: RoundingMode)
    requires v == ExactFloat(false, -151, 3)
    ensures Encode32(v, mode) == if mode in {Zero, Min} then 0x0 else 0x1
  {
    if mode in {Zero, Min} {
      Subnormal32(v, mode, 2, -151, 3, 4, 0);
    } else {
      Subnormal32(v, mode, 2, -151, 3, 4, 1);
    }
  }


  /** A quarter of the smallest subnormal, nearer to 0. */
  lemma SubnormalQuarter(v: ExactFloat, mode: RoundingMode)
    requires v == ExactFloat(false, -151, 1)
    ensures Encode32(v, mode) == if mode in {Max} then 0x1 else 0x0
  {
    if mode in {Max} {
      Subnormal32(v, mode, 1, -151, 1, 4, 1);
    } else {
      Subnormal32(v, mode, 1, -151, 1, 4, 0);
    }
  }


  /** 5 * 2^-150 lies halfway between 0x2 and 0x3 and ties to the even 0x2. */
  lemma SubnormalFiveHalves(v: ExactFloat)
    requires v == ExactFloat(false, -150, 5)
    ensures Encode32(v, Even) == 0x2
  {
    Subnormal32(v, Even, 3, -150, 5, 2, 2);
  }

  /** 5 * 2^-151 is nearer to 0x1 than to 0x2. */
  lemma SubnormalFiveQuarters(v: ExactFloat, mode: RoundingMode)
    requires v == ExactFloat(false, -151, 5) && mode in {Even, Away}
    ensures Encode32(v, mode) == 0x1
  {
    Subnormal32(v, mode, 3, -151, 5, 4, 1);
  }

  /** 7 * 2^-151 is nearer to 0x2 than to 0x1. */
  lemma SubnormalSevenQuarters(v: ExactFloat, mode: RoundingMode)
    requires v == ExactFloat(false, -151, 7) && mode in {Even, Away}
    ensures Encode32(v, mode) == 0x2
  {
    Subnormal32(v, mode, 3, -151, 7, 4, 2);
  }



  // Carries across a binade (test lines 127-135 and 168-175).

  /** The largest subnormal plus half a unit: the exact sum, as the library's add computes it. */
  lemma LargestSubnormalPlusHalf()
    ensures Binary32.Valid() && Binary32.IsFinite(0x7F_FFFF)
    ensures Add(Binary32.Decode(0x7F_FFFF), ExactFloat(false, -150, 1)) == ExactFloat(false, -150, 0xFF_FFFF)
  {
    Decode32(0x7F_FFFF, false, 0, 0x7F_FFFF);
  }

  lemma CarryIntoNormal(v: ExactFloat, mode: RoundingMode)
    requires v == ExactFloat(false, -150, 0xFF_FFFF)
    ensures Encode32(v, mode) == if mode in {Zero, Min} then 0x7F_FFFF else 0x80_0000
  {
    assert Pow2(23) == 0x80_0000 && Pow2(24) == 0x100_0000 by { Pow2Table(); }
    if mode in {Zero, Min} {
      Subnormal32(v, mode, 24, -150, 0xFF_FFFF, 2, 0x7F_FFFF);
    } else {
      Normal32(v, mode, 24, -149, -150, 0xFF_FFFF, 2, 0x80_0000);
    }
  }


  /**
   * That sum lies below 2^-126 before rounding, so it is tiny: every mode raises
   * underflow with inexact, also where it rounds up to the smallest normal.
   */
  lemma CarryIntoNormalFlags(v: ExactFloat, mode: RoundingMode)
    requires v == ExactFloat(false, -150, 0xFF_FFFF)
    ensures RoundToFormat(Binary32, v, mode).flags == {Inexact, Underflow}
  {
    assert Pow2(23) == 0x80_0000 && Pow2(24) == 0x100_0000 by { Pow2Table(); }
    Eval32(v, mode, 24, -149, -150, 0xFF_FFFF, 2);
  }

  /** 0x3FFFFFFF (just below 2) plus 2^-24: the exact sum. */
  lemma BelowTwoPlusHalf()
    ensures Binary32.Valid() && Binary32.IsFinite(0x3FFF_FFFF)
    ensures Add(Binary32.Decode(0x3FFF_FFFF), ExactFloat(false, -24, 1)) == ExactFloat(false, -24, 0x1FF_FFFF)
  {
    Decode32(0x3FFF_FFFF, false, 127, 0x7F_FFFF);
  }

  lemma CarryIntoNextBinade(v: ExactFloat, mode: RoundingMode)
    requires v == ExactFloat(false, -24, 0x1FF_FFFF)
    ensures Encode32(v, mode) == if mode in {Zero, Min} then 0x3FFF_FFFF else 0x4000_0000
  {
    if mode in {Zero, Min} {
      BelowTwoDown(v, mode);
    } else {
      BelowTwoUp(v, mode);
    }
  }

  lemma BelowTwoDown(v: ExactFloat, mode: RoundingMode)
    requires v == ExactFloat(false, -24, 0x1FF_FFFF) && mode in {Zero, Min}
    ensures Encode32(v, mode) == 0x3FFF_FFFF
  {
    assert Pow2(24) == 0x100_0000 && Pow2(25) == 0x200_0000 by { Pow2Table(); }
    Normal32(v, mode, 25, -23, -24, 0x1FF_FFFF, 2, 0xFF_FFFF);
  }

  lemma BelowTwoUp(v: ExactFloat, mode: RoundingMode)
    requires v == ExactFloat(false, -24, 0x1FF_FFFF) && mode !in {Zero, Min}
    ensures Encode32(v, mode) == 0x4000_0000
  {
    assert Pow2(24) == 0x100_0000 && Pow2(25) == 0x200_0000 by { Pow2Table(); }
    Carry32(v, mode, 25, -23, -24, 0x1FF_FFFF, 2);
  }



  // Ties in the normal range (test lines 153-166).

  lemma OnePlusSmall()
    ensures Add(ExactFloat(false, 0, 1), ExactFloat(false, -24, 1)) == ExactFloat(false, -24, 0x100_0001)
    ensures Add(ExactFloat(false, 0, 1), ExactFloat(false, -25, 3)) == ExactFloat(false, -25, 0x200_0003)
    ensures Add(ExactFloat(false, 0, 1), ExactFloat(false, -25, 1)) == ExactFloat(false, -25, 0x200_0001)
  {
    Pow2Table();
  }

  /** 1 + 2^-24 is an exact tie between 1 and its successor 0x3F800001. */
  lemma NormalTie(v: ExactFloat, mode: RoundingMode)
    requires v == ExactFloat(false, -24, 0x100_0001)
    ensures Encode32(v, mode) == if mode in {Zero, Min, Even} then 0x3F80_0000 else 0x3F80_0001
  {
    assert Pow2(24) == 0x100_0000 && Pow2(25) == 0x200_0000 by { Pow2Table(); }
    if mode in {Zero, Min, Even} {
      Normal32(v, mode, 25, -23, -24, 0x100_0001, 2, 0x80_0000);
    } else {
      Normal32(v, mode, 25, -23, -24, 0x100_0001, 2, 0x80_0001);
    }
  }


  /** 1 + 3 * 2^-25 is above the tie between 1 and 0x3F800001 and rounds up to nearest even. */
  lemma AboveNormalTie(v: ExactFloat)
    requires v == ExactFloat(false, -25, 0x200_0003)
    ensures Encode32(v, Even) == 0x3F80_0001
  {
    assert Pow2(25) == 0x200_0000 && Pow2(26) == 0x400_0000 by { Pow2Table(); }
    Normal32(v, Even, 26, -23, -25, 0x200_0003, 4, 0x80_0001);
  }

  /** 1 + 2^-25 is below that tie and rounds down even when ties go away from zero. */
  lemma BelowNormalTie(v: ExactFloat)
    requires v == ExactFloat(false, -25, 0x200_0001)
    ensures Encode32(v, Away) == 0x3F80_0000
  {
    assert Pow2(25) == 0x200_0000 && Pow2(26) == 0x400_0000 by { Pow2Table(); }
    Normal32(v, Away, 26, -23, -25, 0x200_0001, 4, 0x80_0000);
  }



  // Decode and re-encode (test lines 140-143), and the underflow flags (lines 145-148).

  lemma DecodeEncodeSamples()
    ensures Binary32.Valid()
    ensures Binary32.IsFinite(0x1) && Encode32(Binary32.Decode(0x1), Even) == 0x1
    ensures Binary32.IsFinite(0x10) && Encode32(Binary32.Decode(0x10), Even) == 0x10
    ensures Binary32.IsFinite(0x40_0000) && Encode32(Binary32.Decode(0x40_0000), Even) == 0x40_0000
    ensures Binary32.IsFinite(0x7F7F_FFFF) && Encode32(Binary32.Decode(0x7F7F_FFFF), Even) == 0x7F7F_FFFF
  {
    Decode32(0x1, false, 0, 0x1);
    Decode32(0x10, false, 0, 0x10);
    Decode32(0x40_0000, false, 0, 0x40_0000);
    Decode32(0x7F7F_FFFF, false, 0xFE, 0x7F_FFFF);
    DecodeEncodeRoundTrip(Binary32, 0x1, Even);
    DecodeEncodeRoundTrip(Binary32, 0x10, Even);
    DecodeEncodeRoundTrip(Binary32, 0x40_0000, Even);
    DecodeEncodeRoundTrip(Binary32, 0x7F7F_FFFF, Even);
  }

  /** One environment across the call: 2^-151 goes to 0, raising inexact and underflow. */
  method UnderflowFlags() returns (bits: nat, flags: set<Flag>)
    ensures bits == 0x0 && Inexact in flags && Underflow in flags
  {
    Binary32Constants();
    var e := new Environment.Default();
    var v := ExactFloat(false, -151, 1);
    bits := Floats.FromExact(Binary32, v, e);
    flags := e.flags;
    Subnormal32(v, Even, 1, -151, 1, 4, 0);
  }

  // Overflow (test lines 179-197).

  lemma OverflowByMode(big: ExactFloat, mode: RoundingMode)
    requires big == ExactFloat(false, 128, 1)
    ensures Encode32(big, mode) == if mode in {Zero, Min} then 0x7F7F_FFFF else 0x7F80_0000
    ensures Encode32(Negate(big), mode) == if mode in {Zero, Max} then 0xFF7F_FFFF else 0xFF80_0000
    ensures RoundToFormat(Binary32, big, mode).flags == {Overflow, Inexact}
  {
    OverflowOf(big, mode);
    OverflowOf(Negate(big), mode);
  }

  /** 2^128, of either sign, is above the binary32 range in every mode. */
  lemma OverflowOf(v: ExactFloat, mode: RoundingMode)
    requires v.exponent == 128 && v.significand == 1
    ensures RoundToFormat(Binary32, v, mode) ==
            Outcome(if OverflowsToInfinity(mode, v.sign) then (if v.sign then 0xFF80_0000 else 0x7F80_0000)
                    else (if v.sign then 0xFF7F_FFFF else 0x7F7F_FFFF), {Overflow, Inexact})
  {
    assert Pow2(23) == 0x80_0000 by { Pow2Table(); }
    Overflow32(v, mode, 1, 105, 105, 0x80_0000, 1, 0x80_0000);
  }



  /**
   * One environment (mode zero) across both calls: 2^128 clamps to the largest
   * finite value with inexact and overflow raised, and its negation, encoded in
   * the same environment, clamps to the negated largest value (Float32 negate).
   */
  method OverflowFlags() returns (clamped: nat, negClamped: nat, flags: set<Flag>)
    ensures clamped == 0x7F7F_FFFF && Inexact in flags && Overflow in flags
    ensures Binary32.IsBits(clamped) && negClamped == Binary32.NegateBits(clamped) && negClamped == 0xFF7F_FFFF
  {
    Binary32Constants();
    Pow2Table();
    var e := new Environment(Zero);
    var big := ExactFloat(false, 128, 1);
    OverflowByMode(big, Zero);
    clamped := Floats.FromExact(Binary32, big, e);
    flags := e.flags;
    negClamped := Floats.FromExact(Binary32, Negate(big), e);
  }

  // Conversions.roundToIntegral (test lines 202-226).

  lemma RoundToIntegralZeros()
    ensures Integral32(0x0, Even) == 0x0 && Integral32(0x8000_0000, Even) == 0x8000_0000
  {
    Decode32(0x0, false, 0, 0);
    Decode32(0x8000_0000, true, 0, 0);
  }

  /** 0.5 and -0.5 (0x3F000000 and its negation 0xBF000000) in every mode. */
  lemma RoundToIntegralHalves(half: nat, negHalf: nat, mode: RoundingMode)
    requires half == 0x3F00_0000 && negHalf == 0xBF00_0000
    ensures Binary32.IsBits(half) && Binary32.NegateBits(half) == negHalf
    ensures Integral32(half, mode) == if mode in {Away, Max} then 0x3F80_0000 else 0x0
    ensures Integral32(negHalf, mode) == if mode in {Min, Away} then 0xBF80_0000 else 0x8000_0000
  {
    assert Binary32.IsBits(half) && Binary32.NegateBits(half) == negHalf by {
      Binary32Constants();
      Pow2Table();
    }
    PositiveHalf(half, mode);
    NegativeHalf(negHalf, mode);
  }

  lemma PositiveHalf(half: nat, mode: RoundingMode)
    requires half == 0x3F00_0000
    ensures Integral32(half, mode) == if mode in {Away, Max} then 0x3F80_0000 else 0x0
  {
    Decode32(half, false, 126, 0);
    assert Pow2(24) == 0x100_0000 by { Pow2Table(); }
    FractionMagnitude(Binary32.Decode(half), mode, 0x100_0000);
    IntegralOne(Binary32.Decode(half), mode, mode in {Away, Max});
  }

  lemma NegativeHalf(negHalf: nat, mode: RoundingMode)
    requires negHalf == 0xBF00_0000
    ensures Integral32(negHalf, mode) == if mode in {Min, Away} then 0xBF80_0000 else 0x8000_0000
  {
    Decode32(negHalf, true, 126, 0);
    assert Pow2(24) == 0x100_0000 by { Pow2Table(); }
    FractionMagnitude(Binary32.Decode(negHalf), mode, 0x100_0000);
    IntegralOne(Binary32.Decode(negHalf), mode, mode in {Min, Away});
  }




  /** 0.75 (0x3F400000) goes to 1 when rounding to nearest, ties either way. */
  lemma RoundToIntegralThreeQuarters(bits: nat, mode: RoundingMode)
    requires bits == 0x3F40_0000 && mode in {Even, Away}
    ensures Integral32(bits, mode) == 0x3F80_0000
  {
    Decode32(bits, false, 126, 0x40_0000);
    assert Pow2(24) == 0x100_0000 by { Pow2Table(); }
    FractionMagnitude(Binary32.Decode(bits), mode, 0x100_0000);
    IntegralOne(Binary32.Decode(bits), mode, true);
  }

  /** 0.34375 (0x3EB00000) goes to 0 when rounding to nearest, ties either way. */
  lemma RoundToIntegralSmall(bits: nat, mode: RoundingMode)
    requires bits == 0x3EB0_0000 && mode in {Even, Away}
    ensures Integral32(bits, mode) == 0x0
  {
    Decode32(bits, false, 125, 0x30_0000);
    assert Pow2(25) == 0x200_0000 by { Pow2Table(); }
    FractionMagnitude(Binary32.Decode(bits), mode, 0x200_0000);
    IntegralOne(Binary32.Decode(bits), mode, false);
  }


  /** A fraction strictly between 0 and 1 rounds to 1 exactly when the mode increments its zero quotient. */
  lemma FractionMagnitude(v: ExactFloat, mode: RoundingMode, u: nat)
    requires v.exponent < 0 && u == Pow2(-v.exponent) && 0 < v.significand < u
    ensures IntegralMagnitude(v, mode) == if Increments(mode, v.sign, Classify(v.significand, u), false) then 1 else 0
  {
    DivModUnique(v.significand, u, 0, v.significand);
  }

  /**
   * A fraction below one that rounds to 1 (up) or to 0 (down) gives the signed
   * one or the signed zero as its integral float.
   */
  lemma IntegralOne(v: ExactFloat, mode: RoundingMode, up: bool)
    requires -25 <= v.exponent < 0 && 0 < v.significand < Pow2(-v.exponent)
    requires IntegralMagnitude(v, mode) == if up then 1 else 0
    ensures Binary32.Valid()
    ensures RoundToFormat(Binary32, ExactFloat(v.sign, 0, IntegralMagnitude(v, mode)), mode).bits ==
            (if v.sign then 0x8000_0000 else 0) + (if up then 0x3F80_0000 else 0)
  {
    Pow2Table();
    Binary32Constants();
    var w := ExactFloat(v.sign, 0, IntegralMagnitude(v, mode));
    if up {
      Normal32(w, mode, 1, -23, -23, 0x80_0000, 1, 0x80_0000);
    } else {
      FieldsOfEncode(Binary32, v.sign, 0, 0);
    }
  }

}
