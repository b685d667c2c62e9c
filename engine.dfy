/**
 * The correctly rounded encoder (`fromExact`): an exact value, a format and a
 * rounding mode give a bit pattern and the exception flags the conversion raises.
 * The significand is cut at one unit in the last place of the value's binade
 * (significandWidth + 1 kept bits), never finer than the subnormal unit, and the
 * kept count is rounded by the shared integer step of module Rounding.
 */
module Engine {
  import opened Arithmetic
  import opened ExactFloats
  import opened Rounding
  import opened Formats

  /** A bit pattern with the flags raised while producing it. */
  datatype Outcome = Outcome(bits: nat, flags: set<Flag>)

  /** Exponent of the leading bit of a nonzero value. */
  function Lead(v: ExactFloat): int
    requires v.significand > 0
  {
    v.exponent + BitLength(v.significand) - 1
  }

  /** Exponent of the last kept place: significandWidth + 1 bits, but not below the subnormal unit. */
  function Quantum(f: Format, v: ExactFloat): int
    requires v.significand > 0
  {
    IntMax(Lead(v) - f.significandWidth, f.MinQuantum())
  }

  /** The exponent at which both the value and the unit are integers. */
  function Base(f: Format, v: ExactFloat): int
    requires v.significand > 0
  {
    IntMin(v.exponent, Quantum(f, v))
  }

  /** The value's magnitude as a multiple of 2^Base. */
  function Magnitude(f: Format, v: ExactFloat): nat
    requires v.significand > 0
  {
    Scaled(v, Base(f, v))
  }

  /** One unit in the last kept place, as a multiple of 2^Base. */
  function Unit(f: Format, v: ExactFloat): nat
    requires v.significand > 0
  {
    Pow2(Quantum(f, v) - Base(f, v))
  }

  /** The rounded number of units in the last kept place. */
  function Kept(f: Format, v: ExactFloat, mode: RoundingMode): nat
    requires v.significand > 0
  {
    RoundScaled(Magnitude(f, v), Unit(f, v), v.sign, mode)
  }

  /**
   * Tininess detected before rounding (one of the two rules of section 7.5 of
   * IEEE 754-2008): the exact value lies below the smallest normal magnitude 2^emin.
   */
  predicate Tiny(f: Format, v: ExactFloat)
    requires v.significand > 0
  {
    Lead(v) < f.MinExponent()
  }

  /**
   * Packs k units of 2^q into the layout: a carry out of the kept bits bumps the
   * exponent, an exponent above the format's range overflows, and a result
   * without the implicit bit is subnormal. An inexact result also signals
   * underflow when the exact value was tiny.
   */
  function Pack(f: Format, negative: bool, k: nat, q: int, inexact: bool, tiny: bool, mode: RoundingMode): (o: Outcome)
    requires f.Valid() && k <= Pow2(f.significandWidth + 1) && q >= f.MinQuantum()
    ensures f.IsBits(o.bits)
  {
    var p := f.significandWidth;
    var carry := k == Pow2(p + 1);
    var m := if carry then Pow2(p) else k;
    var e := if carry then q + 1 else q;
    ValidRange(f);
    if m >= Pow2(p) && e + p > f.MaxExponent() then
      FieldsOfEncode(f, negative, f.MaxBiased(), 0);
      FieldsOfEncode(f, negative, f.MaxBiased() - 1, Pow2(p) - 1);
      Outcome(if OverflowsToInfinity(mode, negative) then f.SignedInfinity(negative) else f.LargestFinite(negative),
              {Overflow, Inexact})
    else if m < Pow2(p) then
      FieldsOfEncode(f, negative, 0, m);
      Outcome(f.Encode(negative, 0, m), InexactFlags(inexact, tiny))
    else
      FieldsOfEncode(f, negative, e - f.MinQuantum() + 1, m - Pow2(p));
      Outcome(f.Encode(negative, e - f.MinQuantum() + 1, m - Pow2(p)), InexactFlags(inexact, tiny))
  }

  /** The flags of a result that does not overflow: inexact when rounded, and underflow too when tiny. */
  function InexactFlags(inexact: bool, tiny: bool): set<Flag> {
    if !inexact then {} else if tiny then {Inexact, Underflow} else {Inexact}
  }

  /** Encodes an exact value into the format, rounding in the given mode. */
  function RoundToFormat(f: Format, v: ExactFloat, mode: RoundingMode): (o: Outcome)
    requires f.Valid()
    ensures f.IsBits(o.bits)
  {
    if v.significand == 0 then
      FieldsOfEncode(f, v.sign, 0, 0);
      Outcome(f.SignedZero(v.sign), {})
    else
      QuantumBounds(f, v);
      Pack(f, v.sign, Kept(f, v, mode), Quantum(f, v), Classify(Magnitude(f, v), Unit(f, v)) != Exact, Tiny(f, v), mode)
  }

  /**
   * The value's magnitude lies below 2^(p+1) units, and at least 2^p units unless
   * it is cut at the subnormal unit; so at most p+1 bits are kept.
   */
  lemma QuantumBounds(f: Format, v: ExactFloat)
    requires v.significand > 0
    ensures var p := f.significandWidth;
            Quantum(f, v) >= f.MinQuantum() &&
            Magnitude(f, v) < Pow2(p + 1) * Unit(f, v) &&
            (Quantum(f, v) > f.MinQuantum() ==> !Tiny(f, v)) &&
            (!Tiny(f, v) ==> Pow2(p) * Unit(f, v) <= Magnitude(f, v))
    ensures forall mode :: Kept(f, v, mode) <= Pow2(f.significandWidth + 1)
    ensures !Tiny(f, v) ==> forall mode :: Kept(f, v, mode) >= Pow2(f.significandWidth)
  {
    var p, q, e0 := f.significandWidth, Quantum(f, v), Base(f, v);
    var len := BitLength(v.significand);
    BitLengthBounds(v.significand);
    var d: nat, w: nat := v.exponent - e0, q - e0;
    var x, u := Magnitude(f, v), Unit(f, v);
    assert x == v.significand * Pow2(d) && u == Pow2(w);
    UnitsBelow(v.significand, len, d, p + 1, w);
    QuotientBelow(x, u, Pow2(p + 1));
    if !Tiny(f, v) {
      UnitsAtLeast(v.significand, len, d, p, w);
      QuotientAtLeast(x, u, Pow2(p));
    }
  }

  /** A significand below 2^len, scaled by 2^d, is below 2^n units of 2^w when len + d <= n + w. */
  lemma UnitsBelow(s: nat, len: nat, d: nat, n: nat, w: nat)
    requires s < Pow2(len) && len + d <= n + w
    ensures s * Pow2(d) < Pow2(n) * Pow2(w)
  {
    ScaledBelow(s, len, d);
    Pow2Monotone(len + d, n + w);
    Pow2Add(n, w);
  }

  lemma ScaledBelow(s: nat, len: nat, d: nat)
    requires s < Pow2(len)
    ensures s * Pow2(d) < Pow2(len + d)
  {
    Pow2Add(len, d);
    MulStrict(s, Pow2(len), Pow2(d));
  }



  /** A significand of at least 2^(len-1), scaled by 2^d, is at least 2^n units of 2^w when n + w == len - 1 + d. */
  lemma UnitsAtLeast(s: nat, len: nat, d: nat, n: nat, w: nat)
    requires len >= 1 && Pow2(len - 1) <= s && n + w == len - 1 + d
    ensures Pow2(n) * Pow2(w) <= s * Pow2(d)
  {
    MulMonotone(Pow2(len - 1), s, Pow2(d));
    Pow2Add(len - 1, d);
    Pow2Add(n, w);
  }


  lemma MulStrict(a: nat, b: nat, c: nat)
    requires a < b && c > 0
    ensures a * c < b * c
  {
    MulMonotone(a + 1, b, c);
    assert (a + 1) * c == a * c + c;
  }

  lemma QuotientBelow(x: nat, u: nat, n: nat)
    requires u > 0 && x < n * u
    ensures x / u < n
  {
    assert (x / u) * u <= x;
    if x / u >= n {
      MulMonotone(n, x / u, u);
    }
  }

  lemma QuotientAtLeast(x: nat, u: nat, n: nat)
    requires u > 0 && n * u <= x
    ensures n <= x / u
  {
    MultipleParts(x, u);
    if x / u < n {
      MulMonotone(x / u + 1, n, u);
    }
  }

  /** The exponent range of a standard format: the largest exponent is the bias. */
  lemma ValidRange(f: Format)
    requires f.Valid()
    ensures Pow2(f.exponentWidth) == 2 * f.bias + 2
    ensures f.MaxBiased() == 2 * f.bias + 1 && f.MaxExponent() == f.bias
    ensures f.MinQuantum() + f.significandWidth < f.MaxExponent()
  {
  }

  /**
   * A packed result that does not overflow is a finite pattern of the given sign
   * whose value is exactly k units of 2^q.
   */
  lemma PackFinite(f: Format, negative: bool, k: nat, q: int, inexact: bool, tiny: bool, mode: RoundingMode)
    requires f.Valid() && k <= Pow2(f.significandWidth + 1) && q >= f.MinQuantum()
    requires q > f.MinQuantum() ==> k >= Pow2(f.significandWidth)
    requires Overflow !in Pack(f, negative, k, q, inexact, tiny, mode).flags
    ensures var bits := Pack(f, negative, k, q, inexact, tiny, mode).bits;
            f.IsFinite(bits) && f.Decode(bits).sign == negative &&
            f.Decode(bits).exponent >= q && Scaled(f.Decode(bits), q) == k
  {
    var p := f.significandWidth;
    ValidRange(f);
    var bits := Pack(f, negative, k, q, inexact, tiny, mode).bits;
    var carry := k == Pow2(p + 1);
    var m := if carry then Pow2(p) else k;
    var e := if carry then q + 1 else q;
    if m < Pow2(p) {
      assert q == f.MinQuantum();
      FieldsOfEncode(f, negative, 0, m);
      assert f.Decode(bits) == ExactFloat(negative, q, m);
    } else {
      var biased: nat := e - f.MinQuantum() + 1;
      assert m < Pow2(p + 1) && m - Pow2(p) < Pow2(p);
      FieldsOfEncode(f, negative, biased, m - Pow2(p));
      assert f.Decode(bits) == ExactFloat(negative, e, m);
      if carry {
        assert Scaled(f.Decode(bits), q) == Pow2(p) * Pow2(1);
        Pow2Add(p, 1);
      }
    }
  }

  /**
   * Soundness of the encoder: unless it overflows, the result is finite, keeps the
   * value's sign, and is exactly the value rounded to a multiple of one unit in the
   * last kept place, as the reference definition IsRoundedInteger states it.
   */
  lemma RoundToFormatSound(f: Format, v: ExactFloat, mode: RoundingMode)
    requires f.Valid() && v.significand > 0
    ensures var o := RoundToFormat(f, v, mode);
            var q := Quantum(f, v);
            Overflow !in o.flags ==>
              f.IsFinite(o.bits) && f.Decode(o.bits).sign == v.sign && f.Decode(o.bits).exponent >= q &&
              IsRoundedInteger(mode, v.sign, Magnitude(f, v), Unit(f, v), Scaled(f.Decode(o.bits), q))
  {
    QuantumBounds(f, v);
    var o := RoundToFormat(f, v, mode);
    if Overflow !in o.flags {
      PackFinite(f, v.sign, Kept(f, v, mode), Quantum(f, v), Classify(Magnitude(f, v), Unit(f, v)) != Exact, Tiny(f, v), mode);
      RoundScaledCorrect(Magnitude(f, v), Unit(f, v), v.sign, mode);
    }
  }

  /**
   * k units of 2^q lie above the largest finite magnitude (2^(p+1) - 1) * 2^(emax - p),
   * compared at the lower of the two exponents.
   */
  ghost predicate ExceedsLargestFinite(f: Format, k: nat, q: int) {
    var p := f.significandWidth;
    var top := f.MaxExponent() - p;
    var m := IntMin(q, top);
    k * Pow2(q - m) > (Pow2(p + 1) - 1) * Pow2(top - m)
  }

  /**
   * Overflow policy (section 7.4 of IEEE 754-2008): the encoder overflows exactly
   * when the rounded magnitude is beyond the largest finite one; the result is then
   * infinity for the nearest modes and the direction away from zero, the largest
   * finite value otherwise, with overflow and inexact raised.
   */
  lemma RoundToFormatOverflow(f: Format, v: ExactFloat, mode: RoundingMode)
    requires f.Valid() && v.significand > 0
    ensures var o := RoundToFormat(f, v, mode);
            (Overflow in o.flags <==> ExceedsLargestFinite(f, Kept(f, v, mode), Quantum(f, v))) &&
            (Overflow in o.flags ==>
               o.flags == {Overflow, Inexact} &&
               o.bits == if OverflowsToInfinity(mode, v.sign) then f.SignedInfinity(v.sign) else f.LargestFinite(v.sign))
  {
    QuantumBounds(f, v);
    PackOverflow(f, v.sign, Kept(f, v, mode), Quantum(f, v), Classify(Magnitude(f, v), Unit(f, v)) != Exact, Tiny(f, v), mode);
  }

  lemma PackOverflow(f: Format, negative: bool, k: nat, q: int, inexact: bool, tiny: bool, mode: RoundingMode)
    requires f.Valid() && k <= Pow2(f.significandWidth + 1) && q >= f.MinQuantum()
    requires q > f.MinQuantum() ==> k >= Pow2(f.significandWidth)
    ensures Overflow in Pack(f, negative, k, q, inexact, tiny, mode).flags <==> ExceedsLargestFinite(f, k, q)
  {
    var p := f.significandWidth;
    var top := f.MaxExponent() - p;
    ValidRange(f);
    var m := IntMin(q, top);
    ExceedsCases(p, top, k, q, Pow2(q - m), Pow2(top - m));
  }

  /**
   * The overflow test of Pack, restated: with a = 2^(q-m) and b = 2^(top-m) for
   * m the lower of q and top, k*a exceeds (2^(p+1) - 1)*b exactly when the
   * (carried) exponent is above top.
   */
  lemma ExceedsCases(p: nat, top: int, k: nat, q: int, a: nat, b: nat)
    requires p >= 1 && k <= Pow2(p + 1) && (k < Pow2(p) ==> q < top)
    requires a == Pow2(q - IntMin(q, top)) && b == Pow2(top - IntMin(q, top))
    ensures k * a > (Pow2(p + 1) - 1) * b <==>
            (if k == Pow2(p + 1) then q >= top else k >= Pow2(p) && q > top)
  {
    var half := Pow2(p);
    assert Pow2(p + 1) == 2 * half;
    if q > top {
      Pow2Monotone(1, q - top);
      ExceedsAbove(half, k, a);
    } else if q < top {
      Pow2Monotone(1, top - q);
      ExceedsBelow(half, k, b);
    }
  }

  /** Above the top exponent, any normal count times a >= 2 is beyond 2 * half - 1. */
  lemma ExceedsAbove(half: nat, k: nat, a: nat)
    requires 1 <= half <= k && a >= 2
    ensures k * a > 2 * half - 1
  {
    MulMonotone(2, a, k);
  }

  /** Below the top exponent, at most 2 * half units never exceed (2 * half - 1) * b for b >= 2. */
  lemma ExceedsBelow(half: nat, k: nat, b: nat)
    requires 1 <= half && k <= 2 * half && b >= 2
    ensures k * 1 <= (2 * half - 1) * b
  {
    MulMonotone(2, b, 2 * half - 1);
  }


  /**
   * The flags raised: inexact exactly when the result differs from the value,
   * underflow exactly when the result is inexact and the value is tiny before
   * rounding (sections 7.5 and 7.6 of IEEE 754-2008), so always for an inexact
   * subnormal result, and nothing for zero.
   */
  lemma RoundToFormatFlags(f: Format, v: ExactFloat, mode: RoundingMode)
    requires f.Valid()
    ensures var o := RoundToFormat(f, v, mode);
            o.flags <= {Inexact, Underflow, Overflow} &&
            (v.significand == 0 ==> o == Outcome(f.SignedZero(v.sign), {})) &&
            (v.significand > 0 ==>
               var changed := Kept(f, v, mode) * Unit(f, v) != Magnitude(f, v);
               (Inexact in o.flags <==> Overflow in o.flags || changed) &&
               (Underflow in o.flags <==> changed && Tiny(f, v)) &&
               (changed && Kept(f, v, mode) < Pow2(f.significandWidth) ==> Underflow in o.flags))
  {
    if v.significand > 0 {
      QuantumBounds(f, v);
      ValidRange(f);
      RoundScaledExact(Magnitude(f, v), Unit(f, v), v.sign, mode);
    }
  }

  /** Decoding a finite pattern and encoding it again, in any mode, is lossless and raises nothing. */
  lemma DecodeEncodeRoundTrip(f: Format, bits: nat, mode: RoundingMode)
    requires f.Valid() && f.IsFinite(bits)
    ensures RoundToFormat(f, f.Decode(bits), mode) == Outcome(bits, {})
  {
    var p := f.significandWidth;
    ValidRange(f);
    EncodeOfFields(f, bits);
    var v := f.Decode(bits);
    var t := f.Trailing(bits);
    if v.significand > 0 {
      if f.BiasedExponent(bits) == 0 {
        BitLengthAtMost(t, p);
      } else {
        assert Pow2(p + 1) == 2 * Pow2(p);
        BitLengthUnique(v.significand, p);
      }
      assert Quantum(f, v) == v.exponent;
      assert Unit(f, v) == 1 && Magnitude(f, v) == v.significand;
      assert Kept(f, v, mode) == v.significand;
    }
  }

  lemma {:induction false} BitLengthAtMost(n: nat, k: nat)
    requires n < Pow2(k)
    ensures BitLength(n) <= k
  {
    if n > 0 {
      assert k > 0;
      BitLengthAtMost(n / 2, k - 1);
    }
  }

  /**
   * An exact value is representable in the format when it is a whole number of
   * units in its last kept place and its leading bit is within the exponent range.
   */
  ghost predicate Representable(f: Format, v: ExactFloat) {
    v.significand == 0 ||
    (Magnitude(f, v) % Unit(f, v) == 0 && Lead(v) <= f.MaxExponent())
  }

  /** The encoder raises no flag exactly for representable values. */
  lemma RepresentableIffExact(f: Format, v: ExactFloat, mode: RoundingMode)
    requires f.Valid()
    ensures RoundToFormat(f, v, mode).flags == {} <==> Representable(f, v)
  {
    if v.significand > 0 {
      QuantumBounds(f, v);
      ValidRange(f);
      var x, u := Magnitude(f, v), Unit(f, v);
      RoundScaledExact(x, u, v.sign, mode);
      if x % u == 0 {
        assert Kept(f, v, mode) == x / u;
        QuotientBelow(x, u, Pow2(f.significandWidth + 1));
      }
    }
  }

  /** A representable value is encoded without change: its pattern decodes to the same number. */
  lemma RepresentableRoundTrip(f: Format, v: ExactFloat, mode: RoundingMode)
    requires f.Valid() && Representable(f, v)
    ensures var o := RoundToFormat(f, v, mode);
            o.flags == {} && f.IsFinite(o.bits) &&
            f.Decode(o.bits).sign == v.sign && SameNumber(f.Decode(o.bits), v)
  {
    RepresentableIffExact(f, v, mode);
    ValidRange(f);
    if v.significand == 0 {
      FieldsOfEncode(f, v.sign, 0, 0);
    } else {
      RepresentableValue(f, v, mode);
    }
  }

  lemma RepresentableValue(f: Format, v: ExactFloat, mode: RoundingMode)
    requires f.Valid() && v.significand > 0 && RoundToFormat(f, v, mode).flags == {}
    ensures var o := RoundToFormat(f, v, mode);
            f.IsFinite(o.bits) && f.Decode(o.bits).sign == v.sign && SameNumber(f.Decode(o.bits), v)
  {
    var o := RoundToFormat(f, v, mode);
    var q, e0 := Quantum(f, v), Base(f, v);
    var x, u, k := Magnitude(f, v), Unit(f, v), Kept(f, v, mode);
    QuantumBounds(f, v);
    PackFinite(f, v.sign, k, q, Classify(x, u) != Exact, Tiny(f, v), mode);
    RoundToFormatFlags(f, v, mode);
    assert k * u == x;
    var d := f.Decode(o.bits);
    assert Scaled(d, q) == k;
    ScaledRescale(d, q, e0);
    assert Scaled(d, e0) == Scaled(v, e0);
    SameNumberAtCommonExponent(d, v, e0);
  }

  /** Agreement at any common lower exponent is agreement as numbers. */
  lemma SameNumberAtCommonExponent(a: ExactFloat, b: ExactFloat, e: int)
    requires e <= a.exponent && e <= b.exponent && a.sign == b.sign
    requires Scaled(a, e) == Scaled(b, e)
    ensures SameNumber(a, b)
  {
    var m := IntMin(a.exponent, b.exponent);
    ScaledRescale(a, m, e);
    ScaledRescale(b, m, e);
    MulDivExact(Scaled(a, m), Pow2(m - e));
    MulDivExact(Scaled(b, m), Pow2(m - e));
  }

  /**
   * Negation symmetry: encoding the negated value with min and max exchanged
   * gives the negated pattern and the same flags.
   */
  lemma RoundToFormatMirror(f: Format, v: ExactFloat, mode: RoundingMode)
    requires f.Valid()
    ensures var o := RoundToFormat(f, v, mode);
            f.IsBits(o.bits) &&
            RoundToFormat(f, Negate(v), Mirror(mode)) == Outcome(f.NegateBits(o.bits), o.flags)
  {
    ValidRange(f);
    if v.significand == 0 {
      EncodeNegate(f, v.sign, 0, 0);
    } else {
      NonzeroMirror(f, v, mode);
    }
  }

  lemma NonzeroMirror(f: Format, v: ExactFloat, mode: RoundingMode)
    requires f.Valid() && v.significand > 0
    ensures var o := RoundToFormat(f, v, mode);
            RoundToFormat(f, Negate(v), Mirror(mode)) == Outcome(f.NegateBits(o.bits), o.flags)
  {
    var w := Negate(v);
    QuantumBounds(f, v);
    assert Quantum(f, w) == Quantum(f, v) && Magnitude(f, w) == Magnitude(f, v) && Unit(f, w) == Unit(f, v);
    RoundScaledMirror(Magnitude(f, v), Unit(f, v), v.sign, mode);
    assert Kept(f, w, Mirror(mode)) == Kept(f, v, mode);
    PackMirror(f, v.sign, Kept(f, v, mode), Quantum(f, v), Classify(Magnitude(f, v), Unit(f, v)) != Exact, Tiny(f, v), mode);
  }

  lemma PackMirror(f: Format, negative: bool, k: nat, q: int, inexact: bool, tiny: bool, mode: RoundingMode)
    requires f.Valid() && k <= Pow2(f.significandWidth + 1) && q >= f.MinQuantum()
    ensures var o := Pack(f, negative, k, q, inexact, tiny, mode);
            f.IsBits(o.bits) &&
            Pack(f, !negative, k, q, inexact, tiny, Mirror(mode)) == Outcome(f.NegateBits(o.bits), o.flags)
  {
    ValidRange(f);
    var p := f.significandWidth;
    var carry := k == Pow2(p + 1);
    var m := if carry then Pow2(p) else k;
    var e := if carry then q + 1 else q;
    assert Pow2(p + 1) == 2 * Pow2(p);
    if m >= Pow2(p) && e + p > f.MaxExponent() {
      RoundScaledMirror(1, 1, negative, mode);
      EncodeNegate(f, negative, f.MaxBiased(), 0);
      EncodeNegate(f, negative, f.MaxBiased() - 1, Pow2(p) - 1);
    } else if m < Pow2(p) {
      EncodeNegate(f, negative, 0, m);
    } else {
      EncodeNegate(f, negative, e - f.MinQuantum() + 1, m - Pow2(p));
    }
  }

  lemma EncodeNegate(f: Format, negative: bool, biased: nat, trailing: nat)
    requires biased < Pow2(f.exponentWidth) && trailing < Pow2(f.significandWidth)
    ensures f.IsBits(f.Encode(negative, biased, trailing))
    ensures f.Encode(!negative, biased, trailing) == f.NegateBits(f.Encode(negative, biased, trailing))
  {
    FieldsOfEncode(f, negative, biased, trailing);
  }
}
