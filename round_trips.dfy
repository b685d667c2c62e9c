/**
 * The integer round trips of TestConversions.java: an integer converted to a
 * float with a fresh default environment and back with another, and the loops
 * that run them over every power of two an int or a long can hold.
 */
module RoundTrips {
  import opened Arithmetic
  import opened ExactFloats
  import opened Rounding
  import opened Formats
  import opened Engine
  import opened IntegerConversion
  import opened Environments
  import Conversions

  /** The bits `convertFromInt(n, new Environment(), format)` produces. */
  function FloatOf(f: Format, n: int): nat
    requires f.Valid()
  {
    RoundToFormat(f, FromInteger(n), Even).bits
  }

  /** `roundTripInt(a)`: int to Float32 and back with convertToInt. */
  method RoundTripInt(a: int) returns (r: int)
    requires MinValue(Int) <= a <= MaxValue(Int)
    ensures Binary32.Valid() && r == ConvertToInteger(Binary32, FloatOf(Binary32, a), Even, true, Int).value
    ensures Representable(Binary32, FromInteger(a)) ==> r == a
  {
    Binary32Constants();
    var toFloat := new Environment.Default();
    var tmp := Conversions.ConvertFromInt(Binary32, a, toFloat);
    var toInt := new Environment.Default();
    r := Conversions.ConvertToInt(Binary32, tmp, toInt, true);
    if Representable(Binary32, FromInteger(a)) {
      IntegerRoundTrip(Binary32, a, Even, Even, true, Int);
    }
  }

  /** `roundTripInt64(a)`: the same through Float64. */
  method RoundTripInt64(a: int) returns (r: int)
    requires MinValue(Int) <= a <= MaxValue(Int)
    ensures Binary64.Valid() && r == ConvertToInteger(Binary64, FloatOf(Binary64, a), Even, true, Int).value
    ensures r == a
  {
    Binary64Constants();
    var toFloat := new Environment.Default();
    var tmp := Conversions.ConvertFromInt(Binary64, a, toFloat);
    var toInt := new Environment.Default();
    r := Conversions.ConvertToInt(Binary64, tmp, toInt, true);
    Pow2Table();
    SmallIntegerRoundTrip(Binary64, a, Even, Even, true, Int);
  }

  /** `roundTripUnsignedInt(a)`: a negative int is read as a + 2^32 before the conversion. */
  method RoundTripUnsignedInt(a: int) returns (r: int)
    requires MinValue(Int) <= a <= MaxValue(Int)
    ensures var n := if a < 0 then a + 0x1_0000_0000 else a;
            Binary32.Valid() && r == Wrap32(ConvertToInteger(Binary32, FloatOf(Binary32, n), Even, true, UnsignedInt).value) &&
            (Representable(Binary32, FromInteger(n)) ==> r == a)
  {
    Binary32Constants();
    var n := a;
    if a < 0 {
      n := a + 0x1_0000_0000;
    }
    var toFloat := new Environment.Default();
    var tmp := Conversions.ConvertFromInt(Binary32, n, toFloat);
    var toInt := new Environment.Default();
    r := Conversions.ConvertToUnsignedInt(Binary32, tmp, toInt, true);
    if Representable(Binary32, FromInteger(n)) {
      UnsignedIntBack(a, n);
    }
  }

  /** `roundTripLong(a)`: long to Float32 and back with convertToLong. */
  method RoundTripLong(a: int) returns (r: int)
    requires MinValue(Long) <= a <= MaxValue(Long)
    ensures Binary32.Valid() && r == ConvertToInteger(Binary32, FloatOf(Binary32, a), Even, true, Long).value
    ensures Representable(Binary32, FromInteger(a)) ==> r == a
  {
    Binary32Constants();
    var toFloat := new Environment.Default();
    var tmp := Conversions.ConvertFromInt(Binary32, a, toFloat);
    var toInt := new Environment.Default();
    r := Conversions.ConvertToLong(Binary32, tmp, toInt, true);
    if Representable(Binary32, FromInteger(a)) {
      IntegerRoundTrip(Binary32, a, Even, Even, true, Long);
    }
  }

  /** `roundTripUnsignedLong(a)`: a negative long is read as a + 2^64 before the conversion. */
  method RoundTripUnsignedLong(a: int) returns (r: int)
    requires MinValue(Long) <= a <= MaxValue(Long)
    ensures var n := if a < 0 then a + 0x1_0000_0000_0000_0000 else a;
            Binary32.Valid() && r == Wrap64(ConvertToInteger(Binary32, FloatOf(Binary32, n), Even, true, UnsignedLong).value) &&
            (Representable(Binary32, FromInteger(n)) ==> r == a)
  {
    Binary32Constants();
    var n := a;
    if a < 0 {
      n := a + 0x1_0000_0000_0000_0000;
    }
    var toFloat := new Environment.Default();
    var tmp := Conversions.ConvertFromInt(Binary32, n, toFloat);
    var toInt := new Environment.Default();
    r := Conversions.ConvertToUnsignedLong(Binary32, tmp, toInt, true);
    if Representable(Binary32, FromInteger(n)) {
      UnsignedLongBack(a, n);
    }
  }

  /** A representable unsigned reading of an int comes back as the same int. */
  lemma UnsignedIntBack(a: int, n: int)
    requires MinValue(Int) <= a <= MaxValue(Int) && n == if a < 0 then a + 0x1_0000_0000 else a
    requires Representable(Binary32, FromInteger(n))
    ensures Binary32.Valid() && Wrap32(ConvertToInteger(Binary32, FloatOf(Binary32, n), Even, true, UnsignedInt).value) == a
  {
    Binary32Constants();
    Pow2Table();
    IntegerRoundTrip(Binary32, n, Even, Even, true, UnsignedInt);
    Wrap32Unsigned(n);
  }

  /** A representable unsigned reading of a long comes back as the same long. */
  lemma UnsignedLongBack(a: int, n: int)
    requires MinValue(Long) <= a <= MaxValue(Long) && n == if a < 0 then a + 0x1_0000_0000_0000_0000 else a
    requires Representable(Binary32, FromInteger(n))
    ensures Binary32.Valid() && Wrap64(ConvertToInteger(Binary32, FloatOf(Binary32, n), Even, true, UnsignedLong).value) == a
  {
    Binary32Constants();
    Pow2Table();
    IntegerRoundTrip(Binary32, n, Even, Even, true, UnsignedLong);
    Wrap64Unsigned(n);
  }

  /**
   * Shifting 1 left k times in a Java int: 2^k below the sign bit, the int
   * minimum at k = 31 and 0 once the bit is shifted out; one more shift is
   * one more doubling.
   */
  lemma IntPowerOfTwo(k: nat)
    requires k <= 32
    ensures k < 31 ==> Wrap32(Pow2(k)) == Pow2(k) && 1 <= Pow2(k) < 0x8000_0000
    ensures k == 31 ==> Wrap32(Pow2(k)) == -0x8000_0000
    ensures Wrap32(Pow2(k)) == 0 <==> k == 32
    ensures k < 32 ==> Wrap32(2 * Wrap32(Pow2(k))) == Wrap32(Pow2(k + 1))
  {
    Pow2Table();
    if k < 31 {
      Pow2StrictlyMonotone(k, 31);
      Wrap32Unsigned(Pow2(k));
      Wrap32Unsigned(Pow2(k + 1));
    } else if k == 31 {
      Wrap32Unsigned(Pow2(31));
      DivModUnique(-0x8000_0000, 0x1_0000_0000, -1, 0x8000_0000);
      DivModUnique(0x1_8000_0000, 0x1_0000_0000, 1, 0x8000_0000);
    } else {
      DivModUnique(0x1_8000_0000, 0x1_0000_0000, 1, 0x8000_0000);
    }
  }


  /** The same for a Java long and 64 shifts. */
  lemma LongPowerOfTwo(k: nat)
    requires k <= 64
    ensures k < 63 ==> Wrap64(Pow2(k)) == Pow2(k) && 1 <= Pow2(k) < 0x8000_0000_0000_0000
    ensures k == 63 ==> Wrap64(Pow2(k)) == -0x8000_0000_0000_0000
    ensures Wrap64(Pow2(k)) == 0 <==> k == 64
    ensures k < 64 ==> Wrap64(2 * Wrap64(Pow2(k))) == Wrap64(Pow2(k + 1))
  {
    Pow2Table();
    if k < 63 {
      Pow2StrictlyMonotone(k, 63);
      Wrap64Unsigned(Pow2(k));
      Wrap64Unsigned(Pow2(k + 1));
    } else if k == 63 {
      Wrap64Unsigned(Pow2(63));
      DivModUnique(-0x8000_0000_0000_0000, 0x1_0000_0000_0000_0000, -1, 0x8000_0000_0000_0000);
      DivModUnique(0x1_8000_0000_0000_0000, 0x1_0000_0000_0000_0000, 1, 0x8000_0000_0000_0000);
    } else {
      DivModUnique(0x1_8000_0000_0000_0000, 0x1_0000_0000_0000_0000, 1, 0x8000_0000_0000_0000);
    }
  }


  /** One pass of the int loop: both round trips give back i = 1 << k. */
  method CheckIntPower(i: int, ghost k: nat) returns (ok: bool)
    requires k < 32 && i == Wrap32(Pow2(k))
    ensures ok
  {
    IntPowerOfTwo(k);
    Binary32Constants();
    var signed := RoundTripInt(i);
    var unsigned := RoundTripUnsignedInt(i);
    assert Representable(Binary32, FromInteger(i)) by {
      if k < 31 {
        PowerOfTwoRepresentable(Binary32, false, k);
      } else {
        Pow2Table();
        PowerOfTwoRepresentable(Binary32, true, 31);
      }
    }
    assert Representable(Binary32, FromInteger(if i < 0 then i + 0x1_0000_0000 else i)) by {
      if k < 31 {
        PowerOfTwoRepresentable(Binary32, false, k);
      } else {
        Pow2Table();
        PowerOfTwoRepresentable(Binary32, false, 31);
      }
    }
    ok := signed == i && unsigned == i;
  }


  /**
   * The first loop of IntegerfromFloat32: `for (int i = 1; i != 0; i <<= 1)`
   * visits the 32 powers of two of an int, and both round trips give each back.
   */
  method IntPowersOfTwo() returns (steps: nat, ok: bool)
    ensures steps == 32 && ok
  {
    var i := 1;
    steps, ok := 0, true;
    while i != 0
      invariant steps <= 32 && i == Wrap32(Pow2(steps)) && ok
      decreases 32 - steps
    {
      IntPowerOfTwo(steps);
      var passed := CheckIntPower(i, steps);
      ok := ok && passed;
      i := Wrap32(2 * i);
      steps := steps + 1;
    }
    IntPowerOfTwo(steps);
  }

  /** One pass of the long loop: both round trips give back i = 1 << k. */
  method CheckLongPower(i: int, ghost k: nat) returns (ok: bool)
    requires k < 64 && i == Wrap64(Pow2(k))
    ensures ok
  {
    LongPowerOfTwo(k);
    Binary32Constants();
    var signed := RoundTripLong(i);
    var unsigned := RoundTripUnsignedLong(i);
    assert Representable(Binary32, FromInteger(i)) by {
      if k < 63 {
        PowerOfTwoRepresentable(Binary32, false, k);
      } else {
        Pow2Table();
        PowerOfTwoRepresentable(Binary32, true, 63);
      }
    }
    assert Representable(Binary32, FromInteger(if i < 0 then i + 0x1_0000_0000_0000_0000 else i)) by {
      if k < 63 {
        PowerOfTwoRepresentable(Binary32, false, k);
      } else {
        Pow2Table();
        PowerOfTwoRepresentable(Binary32, false, 63);
      }
    }
    ok := signed == i && unsigned == i;
  }


  /** The second loop: the 64 powers of two of a long. */
  method LongPowersOfTwo() returns (steps: nat, ok: bool)
    ensures steps == 64 && ok
  {
    var i := 1;
    steps, ok := 0, true;
    while i != 0
      invariant steps <= 64 && i == Wrap64(Pow2(steps)) && ok
      decreases 64 - steps
    {
      LongPowerOfTwo(steps);
      var passed := CheckLongPower(i, steps);
      ok := ok && passed;
      i := Wrap64(2 * i);
      steps := steps + 1;
    }
    LongPowerOfTwo(steps);
  }

  /**
   * UnsignedConversions: 2^31 converted into one environment reads back as the
   * saturated int maximum through convertToInt, raising invalid there, and as
   * the int of bit pattern 0x80000000 through convertToUnsignedInt.
   */
  method UnsignedConversions() returns (signed: int, unsigned: int, flags: set<Flag>)
    ensures signed != unsigned && signed == 0x7FFF_FFFF && unsigned == -0x8000_0000
    ensures Invalid in flags
  {
    Binary32Constants();
    var env := new Environment.Default();
    var n := 0x8000_0000;
    var tmp := Conversions.ConvertFromInt(Binary32, n, env);
    signed := Conversions.ConvertToInt(Binary32, tmp, env, true);
    unsigned := Conversions.ConvertToUnsignedInt(Binary32, tmp, env, true);
    flags := env.flags;
    SignBitConversions(n);
  }

  /** 2^31 is exact in binary32: as an unsigned int it is 2^31, as an int it saturates. */
  lemma SignBitConversions(n: int)
    requires n == 0x8000_0000
    ensures Binary32.Valid()
    ensures ConvertToInteger(Binary32, FloatOf(Binary32, n), Even, true, Int) == IntegerOutcome(0x7FFF_FFFF, {Invalid})
    ensures Wrap32(ConvertToInteger(Binary32, FloatOf(Binary32, n), Even, true, UnsignedInt).value) == -0x8000_0000
  {
    SignBitRepresentable(n);
    AboveIntRange(Binary32, n, FloatOf(Binary32, n));
    Wrap32Unsigned(n);
  }

  /**
   * An integer above the int range but within the unsigned int range, once
   * exactly converted to a float, saturates as an int and converts back
   * exactly as an unsigned int.
   */
  lemma AboveIntRange(f: Format, n: int, bits: nat)
    requires f.Valid() && Representable(f, FromInteger(n)) && bits == FloatOf(f, n)
    requires MaxValue(Int) < n <= MaxValue(UnsignedInt)
    ensures f.IsBits(bits)
    ensures ConvertToInteger(f, bits, Even, true, Int) == IntegerOutcome(MaxValue(Int), {Invalid})
    ensures ConvertToInteger(f, bits, Even, true, UnsignedInt) == IntegerOutcome(n, {})
  {
    IntegerRoundTrip(f, n, Even, Even, true, UnsignedInt);
    RepresentableRoundTrip(f, FromInteger(n), Even);
    ConvertToIntegerSaturates(f, bits, Even, true, UnsignedInt);
    ConvertToIntegerSaturates(f, bits, Even, true, Int);
  }

  lemma SignBitRepresentable(n: int)
    requires n == 0x8000_0000
    ensures Binary32.Valid() && Representable(Binary32, FromInteger(n)) && 0 <= n <= MaxValue(UnsignedInt)
  {
    Binary32Constants();
    Pow2Table();
    PowerOfTwoRepresentable(Binary32, false, 31);
  }


}
