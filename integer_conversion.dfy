/**
 * Conversions between floats and integers (sections 5.3.1, 5.4.1 and 5.8 of
 * IEEE 754-2008): rounding an exact value to an integer in a given direction,
 * the saturating conversions to Java's int and long (signed and unsigned), and
 * rounding a float to an integral float of the same format.
 */
module IntegerConversion {
  import opened Arithmetic
  import opened ExactFloats
  import opened Rounding
  import opened Formats
  import opened Engine

  /** The four integer destinations: Java int and long, and their unsigned readings. */
  datatype IntegerKind = Int | Long | UnsignedInt | UnsignedLong

  function Bits(kind: IntegerKind): nat {
    match kind
    case Int => 32
    case UnsignedInt => 32
    case Long => 64
    case UnsignedLong => 64
  }

  function MinValue(kind: IntegerKind): int {
    match kind
    case Int => -0x8000_0000
    case Long => -0x8000_0000_0000_0000
    case UnsignedInt => 0
    case UnsignedLong => 0
  }

  function MaxValue(kind: IntegerKind): int {
    match kind
    case Int => 0x7FFF_FFFF
    case Long => 0x7FFF_FFFF_FFFF_FFFF
    case UnsignedInt => 0xFFFF_FFFF
    case UnsignedLong => 0xFFFF_FFFF_FFFF_FFFF
  }

  /** An integer result with the flags its conversion raises. */
  datatype IntegerOutcome = IntegerOutcome(value: int, flags: set<Flag>)

  /** Java's two's-complement wrap-around of an integer to 32 bits (an `int`). */
  function Wrap32(x: int): (r: int)
    ensures -0x8000_0000 <= r < 0x8000_0000
    ensures (r - x) % 0x1_0000_0000 == 0
  {
    (x + 0x8000_0000) % 0x1_0000_0000 - 0x8000_0000
  }

  /** Java's two's-complement wrap-around of an integer to 64 bits (a `long`). */
  function Wrap64(x: int): (r: int)
    ensures -0x8000_0000_0000_0000 <= r < 0x8000_0000_0000_0000
    ensures (r - x) % 0x1_0000_0000_0000_0000 == 0
  {
    (x + 0x8000_0000_0000_0000) % 0x1_0000_0000_0000_0000 - 0x8000_0000_0000_0000
  }

  /**
   * The Java value returned for a result of the given kind: the unsigned
   * conversions hand back their bit pattern as a (possibly negative) int or long.
   */
  function JavaValue(kind: IntegerKind, n: int): int {
    match kind
    case Int => n
    case Long => n
    case UnsignedInt => Wrap32(n)
    case UnsignedLong => Wrap64(n)
  }

  lemma WrapIdentity(x: int)
    ensures -0x8000_0000 <= x < 0x8000_0000 ==> Wrap32(x) == x
    ensures -0x8000_0000_0000_0000 <= x < 0x8000_0000_0000_0000 ==> Wrap64(x) == x
  {
  }

  /**
   * The Java value of an in-range result: the signed kinds return it as it is, the
   * unsigned kinds return it less 2^bits once it reaches the sign bit.
   */
  lemma JavaValueReading(kind: IntegerKind, n: int)
    requires MinValue(kind) <= n <= MaxValue(kind)
    ensures kind == Int || kind == Long ==> JavaValue(kind, n) == n
    ensures kind == UnsignedInt || kind == UnsignedLong ==>
              JavaValue(kind, n) == if n >= Pow2(Bits(kind) - 1) then n - Pow2(Bits(kind)) else n
  {
    Pow2Table();
    match kind
    case UnsignedInt => Wrap32Unsigned(n);
    case UnsignedLong => Wrap64Unsigned(n);
    case Int =>
    case Long =>
  }

  /** An unsigned 32-bit value read as a Java int. */
  lemma Wrap32Unsigned(n: int)
    requires 0 <= n < 0x1_0000_0000
    ensures Wrap32(n) == if n >= 0x8000_0000 then n - 0x1_0000_0000 else n
  {
    if n >= 0x8000_0000 {
      DivModUnique(n + 0x8000_0000, 0x1_0000_0000, 1, n - 0x8000_0000);
    } else {
      DivModUnique(n + 0x8000_0000, 0x1_0000_0000, 0, n + 0x8000_0000);
    }
  }

  /** An unsigned 64-bit value read as a Java long. */
  lemma Wrap64Unsigned(n: int)
    requires 0 <= n < 0x1_0000_0000_0000_0000
    ensures Wrap64(n) == if n >= 0x8000_0000_0000_0000 then n - 0x1_0000_0000_0000_0000 else n
  {
    if n >= 0x8000_0000_0000_0000 {
      DivModUnique(n + 0x8000_0000_0000_0000, 0x1_0000_0000_0000_0000, 1, n - 0x8000_0000_0000_0000);
    } else {
      DivModUnique(n + 0x8000_0000_0000_0000, 0x1_0000_0000_0000_0000, 0, n + 0x8000_0000_0000_0000);
    }
  }

  // Rounding an exact value to an integer.

  /** The exponent at which both the value and the integer unit are integers. */
  function IntegerBase(v: ExactFloat): int {
    IntMin(v.exponent, 0)
  }

  /** The value's magnitude rounded to an integer under the mode (the library's `toIntegral`). */
  function IntegralMagnitude(v: ExactFloat, mode: RoundingMode): (r: nat)
    ensures v.exponent < 0 ==> v.significand / Pow2(-v.exponent) <= r <= v.significand / Pow2(-v.exponent) + 1
  {
    if v.exponent >= 0 then Scaled(v, 0)
    else RoundScaled(v.significand, Pow2(-v.exponent), v.sign, mode)
  }

  /** Whether rounding to an integer drops a nonzero fraction. */
  predicate DiscardsFraction(v: ExactFloat) {
    v.exponent < 0 && v.significand % Pow2(-v.exponent) != 0
  }

  /** The signed integer the value rounds to. */
  function ToIntegral(v: ExactFloat, mode: RoundingMode): (r: int)
    ensures (if r < 0 then -r else r) == IntegralMagnitude(v, mode)
    ensures r < 0 ==> v.sign
    ensures r > 0 ==> !v.sign
  {
    var k: int := IntegralMagnitude(v, mode);
    if v.sign then -k else k
  }

  /**
   * Integral rounding is correct by the reference definition, with the integer
   * unit 2^0 measured at IntegerBase, and it discards a fraction exactly when the
   * result differs from the value.
   */
  lemma IntegralMagnitudeCorrect(v: ExactFloat, mode: RoundingMode)
    ensures var e := IntegerBase(v);
            IsRoundedInteger(mode, v.sign, Scaled(v, e), Pow2(-e), IntegralMagnitude(v, mode)) &&
            (DiscardsFraction(v) <==> IntegralMagnitude(v, mode) * Pow2(-e) != Scaled(v, e))
  {
    var e := IntegerBase(v);
    if v.exponent >= 0 {
      assert Pow2(-e) == 1;
      RoundScaledCorrect(Scaled(v, 0), 1, v.sign, mode);
      assert Scaled(v, 0) / 1 == Scaled(v, 0) && Scaled(v, 0) % 1 == 0;
    } else {
      assert Scaled(v, e) == v.significand;
      RoundScaledCorrect(v.significand, Pow2(-e), v.sign, mode);
      RoundScaledExact(v.significand, Pow2(-e), v.sign, mode);
    }
  }

  /** An exact value denoting an integer n rounds to n, whatever the mode, discarding nothing. */
  lemma IntegralOfInteger(d: ExactFloat, n: int, mode: RoundingMode)
    requires SameNumber(d, FromInteger(n)) && (d.significand > 0 ==> d.sign == (n < 0))
    ensures ToIntegral(d, mode) == n && !DiscardsFraction(d)
  {
    var e := IntegerBase(d);
    var a: nat := if n < 0 then -n else n;
    if d.exponent >= 0 {
      assert Scaled(FromInteger(n), 0) == a;
      if d.significand == 0 {
        assert a == 0;
      }
    } else {
      var u := Pow2(-e);
      assert Scaled(FromInteger(n), e) == a * u;
      assert d.significand == a * u by {
        if d.significand > 0 {
          assert SignedScaled(d, e) == SignedScaled(FromInteger(n), e);
        } else {
          assert SignedScaled(FromInteger(n), e) == 0;
          ZeroProduct(a, u);
        }
      }
      MulDivExact(a, u);
      RoundScaledExact(d.significand, u, d.sign, mode);
      if d.significand == 0 {
        assert a == 0;
      }
    }
  }

  lemma ZeroProduct(a: int, u: int)
    requires u > 0 && (a * u == 0 || -(a * u) == 0)
    ensures a == 0
  {
    ZeroMultiple(a, u);
  }

  /** Integers of at most significandWidth + 1 bits are representable. */
  lemma SmallIntegerRepresentable(f: Format, negative: bool, m: nat)
    requires f.Valid() && m < Pow2(f.significandWidth + 1)
    ensures Representable(f, ExactFloat(negative, 0, m))
  {
    var v := ExactFloat(negative, 0, m);
    if m > 0 {
      BitLengthAtMost(m, f.significandWidth + 1);
      ValidRange(f);
      assert Quantum(f, v) <= 0;
      assert Unit(f, v) == 1;
    }
  }

  /** Powers of two up to the largest exponent are representable, with either sign. */
  lemma PowerOfTwoRepresentable(f: Format, negative: bool, k: nat)
    requires f.Valid() && k <= f.MaxExponent()
    ensures Representable(f, ExactFloat(negative, 0, Pow2(k)))
  {
    var v := ExactFloat(negative, 0, Pow2(k));
    BitLengthOfPow2(k);
    assert Lead(v) == k;
    var q, e0 := Quantum(f, v), Base(f, v);
    assert q <= k && e0 <= 0 && e0 <= q;
    PowerMultiple(v, k, q, e0);
  }

  /** 2^k scaled to a base e0 <= 0 is a multiple of the unit 2^(q - e0) for q <= k. */
  lemma PowerMultiple(v: ExactFloat, k: nat, q: int, e0: int)
    requires v.exponent == 0 && v.significand == Pow2(k)
    requires e0 <= 0 && e0 <= q <= k
    ensures Scaled(v, e0) % Pow2(q - e0) == 0
  {
    assert Scaled(v, e0) == Pow2(k) * Pow2(-e0);
    Pow2Add(k, -e0);
    Pow2Divides(q - e0, k - e0);
  }


  // The conversions.

  /**
   * Float to integer (`convertToInt` and its siblings): a NaN or an infinity is
   * invalid and gives 0; otherwise the value is rounded to an integer in the mode,
   * an out-of-range integer saturates to the nearer bound and is invalid, and an
   * in-range result that dropped a fraction is inexact unless `quiet` is set.
   */
  function ConvertToInteger(f: Format, bits: nat, mode: RoundingMode, quiet: bool, kind: IntegerKind): (r: IntegerOutcome)
    requires f.Valid() && f.IsBits(bits)
    ensures MinValue(kind) <= r.value <= MaxValue(kind)
    ensures r.flags <= {Invalid, Inexact}
    ensures Inexact in r.flags ==> !quiet && Invalid !in r.flags
    ensures !f.IsFinite(bits) ==> r == IntegerOutcome(0, {Invalid})
  {
    if !f.IsFinite(bits) then IntegerOutcome(0, {Invalid})
    else
      var v := f.Decode(bits);
      var n := ToIntegral(v, mode);
      if n > MaxValue(kind) then IntegerOutcome(MaxValue(kind), {Invalid})
      else if n < MinValue(kind) then IntegerOutcome(MinValue(kind), {Invalid})
      else IntegerOutcome(n, if !quiet && DiscardsFraction(v) then {Inexact} else {})
  }

  /**
   * A finite float converts to its correctly rounded integer when that is in
   * range, raising nothing else than inexact; out of range it saturates to the
   * bound on the side of its sign and is invalid.
   */
  lemma ConvertToIntegerSaturates(f: Format, bits: nat, mode: RoundingMode, quiet: bool, kind: IntegerKind)
    requires f.Valid() && f.IsFinite(bits)
    ensures var v := f.Decode(bits);
            var n := ToIntegral(v, mode);
            var r := ConvertToInteger(f, bits, mode, quiet, kind);
            (Invalid in r.flags <==> n < MinValue(kind) || n > MaxValue(kind)) &&
            (Invalid !in r.flags ==> r.value == n && (Inexact in r.flags <==> !quiet && DiscardsFraction(v))) &&
            (n > MaxValue(kind) ==> r.value == MaxValue(kind) && !v.sign) &&
            (n < MinValue(kind) ==> r.value == MinValue(kind) && (v.sign || kind == UnsignedInt || kind == UnsignedLong))
  {
  }

  /**
   * Integer to float round trip: an integer whose exact value is representable
   * in the format and in range for the kind comes back unchanged, raising nothing,
   * whatever the two rounding modes.
   */
  lemma IntegerRoundTrip(f: Format, n: int, toFloat: RoundingMode, toInt: RoundingMode, quiet: bool, kind: IntegerKind)
    requires f.Valid() && Representable(f, FromInteger(n))
    requires MinValue(kind) <= n <= MaxValue(kind)
    ensures var o := RoundToFormat(f, FromInteger(n), toFloat);
            o.flags == {} && ConvertToInteger(f, o.bits, toInt, quiet, kind) == IntegerOutcome(n, {})
  {
    var o := RoundToFormat(f, FromInteger(n), toFloat);
    RepresentableRoundTrip(f, FromInteger(n), toFloat);
    var d := f.Decode(o.bits);
    assert d.sign == (n < 0);
    IntegralOfInteger(d, n, toInt);
    ConvertIntegral(f, o.bits, toInt, quiet, kind, n);
  }

  lemma ConvertIntegral(f: Format, bits: nat, mode: RoundingMode, quiet: bool, kind: IntegerKind, n: int)
    requires f.Valid() && f.IsFinite(bits) && MinValue(kind) <= n <= MaxValue(kind)
    requires ToIntegral(f.Decode(bits), mode) == n && !DiscardsFraction(f.Decode(bits))
    ensures ConvertToInteger(f, bits, mode, quiet, kind) == IntegerOutcome(n, {})
  {
  }

  /** Integers of at most significandWidth + 1 bits survive the round trip (a corollary). */
  lemma SmallIntegerRoundTrip(f: Format, n: int, toFloat: RoundingMode, toInt: RoundingMode, quiet: bool, kind: IntegerKind)
    requires f.Valid() && n < Pow2(f.significandWidth + 1) && -n < Pow2(f.significandWidth + 1)
    requires MinValue(kind) <= n <= MaxValue(kind)
    ensures var o := RoundToFormat(f, FromInteger(n), toFloat);
            o.flags == {} && ConvertToInteger(f, o.bits, toInt, quiet, kind) == IntegerOutcome(n, {})
  {
    SmallIntegerRepresentable(f, n < 0, if n < 0 then -n else n);
    IntegerRoundTrip(f, n, toFloat, toInt, quiet, kind);
  }

  // Rounding to an integral float.

  /**
   * `roundToIntegral`: NaNs, infinities and zeros are returned as they are, and
   * so is a value that is already a whole number of units (exponent >= 0); any
   * other value is rounded to an integer in the mode, which keeps its sign (a
   * result of zero is the zero of that sign), and the fraction it drops is inexact,
   * as for roundToIntegralExact in section 5.3.1 of IEEE 754-2008.
   */
  function RoundToIntegral(f: Format, bits: nat, mode: RoundingMode): (o: Outcome)
    requires f.Valid() && f.IsBits(bits)
    ensures f.IsBits(o.bits)
    ensures f.IsFinite(o.bits) <==> f.IsFinite(bits)
    ensures !f.IsFinite(bits) ==> o.bits == bits
    ensures o.flags == if f.IsFinite(bits) && DiscardsFraction(f.Decode(bits)) then {Inexact} else {}
  {
    if !f.IsFinite(bits) then Outcome(bits, {})
    else
      var v := f.Decode(bits);
      if v.significand == 0 || v.exponent >= 0 then Outcome(bits, {})
      else
        var k := IntegralMagnitude(v, mode);
        IntegralMagnitudeSmall(f, bits, mode);
        SmallIntegerRepresentable(f, v.sign, k);
        RepresentableRoundTrip(f, ExactFloat(v.sign, 0, k), mode);
        var o := RoundToFormat(f, ExactFloat(v.sign, 0, k), mode);
        Outcome(o.bits, o.flags + if DiscardsFraction(v) then {Inexact} else {})
  }

  /** Rounding a float of the format to an integer leaves at most 2^p units. */
  lemma IntegralMagnitudeSmall(f: Format, bits: nat, mode: RoundingMode)
    requires f.Valid() && f.IsFinite(bits) && f.Decode(bits).exponent < 0
    ensures IntegralMagnitude(f.Decode(bits), mode) < Pow2(f.significandWidth + 1)
  {
    var v := f.Decode(bits);
    var u := Pow2(-v.exponent);
    Pow2Monotone(1, -v.exponent);
    assert Pow2(f.significandWidth + 1) == 2 * Pow2(f.significandWidth);
    HalvedBelow(v.significand, u, Pow2(f.significandWidth));
  }

  /** Dividing a number below 2n by at least 2 leaves a quotient below n. */
  lemma HalvedBelow(x: nat, u: nat, n: nat)
    requires u >= 2 && x < 2 * n
    ensures x / u < n
  {
    var t := x / u;
    MultipleParts(x, u);
    assert t * u <= x;
    MulMonotone(2, u, t);
    assert 2 * t <= t * u;
  }

  /**
   * roundToIntegral is sound: a finite input gives a finite result of the same
   * sign denoting the input's value rounded to an integer (as the reference
   * definition states it), and the only flag is inexact, raised exactly when a
   * fraction was dropped; NaNs and infinities pass through unchanged.
   */
  lemma RoundToIntegralSound(f: Format, bits: nat, mode: RoundingMode)
    requires f.Valid() && f.IsBits(bits)
    ensures var o := RoundToIntegral(f, bits, mode);
            (!f.IsFinite(bits) ==> o == Outcome(bits, {})) &&
            (f.IsFinite(bits) ==>
               var v := f.Decode(bits);
               f.IsFinite(o.bits) && f.Decode(o.bits).sign == v.sign &&
               SameNumber(f.Decode(o.bits), ExactFloat(v.sign, 0, IntegralMagnitude(v, mode))) &&
               o.flags == if DiscardsFraction(v) then {Inexact} else {})
  {
    if f.IsFinite(bits) {
      var v := f.Decode(bits);
      if v.significand == 0 || v.exponent >= 0 {
        SameIntegerValue(v);
      } else {
        var w := ExactFloat(v.sign, 0, IntegralMagnitude(v, mode));
        IntegralMagnitudeSmall(f, bits, mode);
        SmallIntegerRepresentable(f, v.sign, IntegralMagnitude(v, mode));
        RepresentableRoundTrip(f, w, mode);
      }
    }
  }

  /** A value with no fraction denotes the integer of its own magnitude. */
  lemma SameIntegerValue(v: ExactFloat)
    requires v.significand == 0 || v.exponent >= 0
    ensures !DiscardsFraction(v)
    ensures forall mode :: SameNumber(v, ExactFloat(v.sign, 0, IntegralMagnitude(v, mode)))
  {
    if v.exponent < 0 {
      assert v.significand == 0;
      assert forall mode :: IntegralMagnitude(v, mode) == 0;
    }
  }

  /** roundToIntegral is idempotent: its result is already integral and passes through without flags. */
  lemma RoundToIntegralIdempotent(f: Format, bits: nat, mode: RoundingMode)
    requires f.Valid() && f.IsBits(bits)
    ensures var o := RoundToIntegral(f, bits, mode);
            f.IsBits(o.bits) && RoundToIntegral(f, o.bits, mode) == Outcome(o.bits, {})
  {
    RoundToIntegralSound(f, bits, mode);
    if f.IsFinite(bits) {
      var v := f.Decode(bits);
      if v.significand > 0 && v.exponent < 0 {
        var o := RoundToIntegral(f, bits, mode);
        var k := IntegralMagnitude(v, mode);
        var w := ExactFloat(v.sign, 0, k);
        IntegralMagnitudeSmall(f, bits, mode);
        SmallIntegerRepresentable(f, v.sign, k);
        RepresentableRoundTrip(f, w, mode);
        var d := f.Decode(o.bits);
        if d.significand > 0 && d.exponent < 0 {
          IntegralOfWhole(d, k, mode);
          assert ExactFloat(d.sign, 0, IntegralMagnitude(d, mode)) == w;
        }
      }
    }
  }

  /** A value denoting the whole number k of its own sign rounds to k, dropping nothing. */
  lemma IntegralOfWhole(d: ExactFloat, k: nat, mode: RoundingMode)
    requires d.significand > 0 && SameNumber(d, ExactFloat(d.sign, 0, k))
    ensures IntegralMagnitude(d, mode) == k && !DiscardsFraction(d)
  {
    var e := IntegerBase(d);
    assert k > 0 by {
      if k == 0 {
        MulMonotone(1, d.significand, Pow2(d.exponent - e));
      }
    }
    var n: int := if d.sign then -(k as int) else k;
    assert FromInteger(n) == ExactFloat(d.sign, 0, k);
    IntegralOfInteger(d, n, mode);
  }
}
