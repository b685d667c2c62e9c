# JSoftFloat conversions, modelled in Dafny

The model covers the conversion core of the JSoftFloat software floating-point
library, exactly as `TestConversions.java` exercises it. It has these parts:

- **Exact values.** An exact value (`ExactFloat`) is a sign, an unbounded
  exponent and a non-negative significand. Its operations are `add`, `negate` and
  `fromInteger`. None of them loses information.
- **One generic encoder.** `fromExact` turns an exact value into a bit pattern
  of a binary format described by its exponent width, significand width and
  bias. It follows IEEE 754-2008:
  - It supports the five rounding-direction attributes of section 4.3 of IEEE 754-2008: `zero`,
    `min`, `max`, `even` and `away`.
  - Subnormal values sit on the fixed quantum 2^-149 (for binary32).
  - A carry out of the kept bits moves the result into the next binade.
  - An overflowing result goes to infinity or clamps to the largest finite
    value, depending on the mode and the sign (section 7.4 of IEEE 754-2008).
  - The flags inexact, underflow and overflow are raised as sections 7.4 to 7.6
    of IEEE 754-2008 describe. Underflow uses tininess detected before rounding, which
    is one of the two rules its section 7.5 allows. An inexact value below 2^emin therefore
    raises underflow even where it rounds up to the smallest normal.
  - The result is laid out in the bits of section 3.4 of IEEE 754-2008.
- **Integer conversions.**
  - `convertFromInt` (section 5.4.1 of IEEE 754-2008).
  - The four saturating conversions `convertToInt`, `convertToLong`,
    `convertToUnsignedInt` and `convertToUnsignedLong` (section 5.8 of IEEE 754-2008). The
    unsigned ones return the Java int or long with the same bits.
  - `roundToIntegral` (section 5.3.1 of IEEE 754-2008). It rounds in the environment's
    mode and raises inexact when it drops a fraction. That is the behaviour of
    the standard's roundToIntegralExact; the standard's other roundToIntegral
    operations do not signal inexact.
- **Environment.** A class that holds a rounding mode and a set of flags.
  Every operation adds to that set and never removes from it.

## How the model is built

Bit patterns are unbounded `nat`s below 2^width. Binary32 is `Format(8, 23, 127)`
and Binary64 is `Format(11, 52, 1023)`.

The encoder works in these steps:
- **Quantum.** It takes the exponent of one unit in the last kept place. That is
  the leading bit's exponent minus `significandWidth` (the precision minus one),
  and never below the subnormal quantum.
- **Kept.** It divides the magnitude, scaled to a common exponent, by that unit
  and rounds the quotient with `Rounding.RoundScaled`.
- **Pack.** It turns the kept units into the sign, biased exponent and trailing
  bits, with the carry, overflow and subnormal cases handled there.

`RoundScaled` is proved against an independent reference definition,
`Rounding.IsRoundedInteger`. That definition says, without division, which
multiple of the unit each mode must choose.

The encoder's main lemmas tie it to that reference:
- a rounded result decodes to the correctly rounded value;
- a result is exact if and only if the value is representable;
- decoding and then encoding is the identity;
- negation mirrors the result with `min` and `max` exchanged;
- an overflowing result is infinity or the largest finite value.

Every assertion of the test is a lemma, or a method with a postcondition, in
`ConversionScenarios` and `RoundTrips`:
- **Fresh environments.** A call with a fresh `new Environment(mode)` becomes a
  call of the pure encoder in that mode.
- **Shared environments.** The tests that keep one environment across several
  calls (lines 77-82, 145-148 and 182-193) become methods on one `Environment`
  object.
- **Loops.** The loops over the powers of two (lines 32-39) become `while` loops.
  Each step shifts the Java int or long left by one, with its wrap-around.

Two variables in the test are misnamed:
- `threeHalfs` (0x3F400000) is 0.75;
- `oneFourth` (0x3EB00000) is 0.34375.

The lemmas use the values the bit patterns actually denote.

## Model

| member | source | states |
|---|---|---|
| ExactFloats.FromInteger | src/test/java/com/github/unaimillan/jsoftfloat/TestConversions.java:16-21 | the exact value of an integer has exponent 0, the integer's value and a sign that is set exactly for negative integers |
| ExactFloats.Negate | src/test/java/com/github/unaimillan/jsoftfloat/TestConversions.java:191-192 | negation flips the sign and keeps exponent and significand |
| ExactFloats.Add | src/test/java/com/github/unaimillan/jsoftfloat/TestConversions.java:127 | the sum is taken at the smaller of the two exponents; AddIsExact and AddSign state its value and sign |
| ExactFloats.AddIsExact | src/test/java/com/github/unaimillan/jsoftfloat/TestConversions.java:127-129 | the sum, read at the smaller exponent, is the exact signed sum of the operands |
| ExactFloats.AddSign | src/test/java/com/github/unaimillan/jsoftfloat/TestConversions.java:153-156 | operands of one sign keep it; operands of opposite sign and equal magnitude give +0; otherwise the sum's sign is the sign of the exact sum |
| ExactFloats.AddCommutes | src/test/java/com/github/unaimillan/jsoftfloat/TestConversions.java:153-156 | add gives the same value whichever operand comes first |
| ExactFloats.NegateInvolutive | src/test/java/com/github/unaimillan/jsoftfloat/TestConversions.java:191-193 | negating twice is the identity, and negation negates the signed value |
| Rounding.Classify | src/test/java/com/github/unaimillan/jsoftfloat/TestConversions.java:94-112 | the remainder is exact, exactly half a unit or above half a unit exactly when the division says so |
| Rounding.RoundScaled | src/test/java/com/github/unaimillan/jsoftfloat/TestConversions.java:87-124 | the rounded quotient is the truncated quotient or one more |
| Rounding.RoundScaledCorrect | src/test/java/com/github/unaimillan/jsoftfloat/TestConversions.java:87-124 | the rounded quotient is the multiple of the unit that each mode's reference definition chooses (toward zero, down, up, nearest with ties to even or away) |
| Rounding.RoundScaledComplete | src/test/java/com/github/unaimillan/jsoftfloat/TestConversions.java:87-124 | every multiple meeting the reference definition is the rounded quotient |
| Rounding.IsRoundedIntegerUnique | src/test/java/com/github/unaimillan/jsoftfloat/TestConversions.java:87-124 | the reference definition picks at most one multiple |
| Rounding.RoundScaledExact | src/test/java/com/github/unaimillan/jsoftfloat/TestConversions.java:140-143 | rounding gives back the magnitude exactly when there is no remainder |
| Rounding.RoundScaledMirror | src/test/java/com/github/unaimillan/jsoftfloat/TestConversions.java:191-197 | with the sign flipped and min/max exchanged, rounding and the overflow decision are unchanged |
| Formats.Binary32Constants | src/test/java/com/github/unaimillan/jsoftfloat/TestConversions.java:180-197 | binary32 has width 32, subnormal quantum -149, exponent range -126..127 and the patterns 0x80000000, 0x7F800000, 0xFF800000, 0x7F7FFFFF, 0xFF7FFFFF and NaN 0x7FC00000 |
| Formats.Binary64Constants | src/test/java/com/github/unaimillan/jsoftfloat/TestConversions.java:46-49 | binary64 has width 64, subnormal quantum -1074, largest exponent 1023 and +infinity 0x7FF0000000000000 |
| Formats.Format.Decode | src/test/java/com/github/unaimillan/jsoftfloat/TestConversions.java:127 | the decoded value has the pattern's sign, sits at or above the subnormal quantum, has at most p+1 significand bits, and is zero exactly when both fields are zero |
| Formats.FieldsOfEncode | src/test/java/com/github/unaimillan/jsoftfloat/TestConversions.java:140-143 | laying out sign, biased exponent and trailing bits and reading them back gives the same three fields |
| Formats.EncodeOfFields | src/test/java/com/github/unaimillan/jsoftfloat/TestConversions.java:140-143 | every pattern is the layout of its own three fields |
| Formats.NegateBitsFields | src/test/java/com/github/unaimillan/jsoftfloat/TestConversions.java:213 | negating a pattern flips the sign bit only, is its own inverse and negates the decoded value |
| Formats.Format.NegateBits | src/test/java/com/github/unaimillan/jsoftfloat/TestConversions.java:191 | negating a pattern gives a pattern of the format with the opposite sign bit |
| Formats.SpecialPatterns | src/test/java/com/github/unaimillan/jsoftfloat/TestConversions.java:186-197 | the signed infinities are infinite, the canonical NaN is a NaN, and the signed zeros and largest finite values are finite, each with the requested sign |
| Engine.RoundToFormat | src/test/java/com/github/unaimillan/jsoftfloat/TestConversions.java:88 | the encoder always returns a pattern of the format |
| Engine.QuantumBounds | src/test/java/com/github/unaimillan/jsoftfloat/TestConversions.java:127-135 | the magnitude is below 2^(p+1) units, and at least 2^p units when the value is not tiny, so the kept units never exceed 2^(p+1) |
| Engine.Pack | src/test/java/com/github/unaimillan/jsoftfloat/TestConversions.java:129-135 | the packing step always gives a pattern of the format; PackFinite, PackOverflow and PackMirror state its value, flags and symmetry |
| Engine.PackFinite | src/test/java/com/github/unaimillan/jsoftfloat/TestConversions.java:131-135 | a result that does not overflow is finite, has the value's sign and decodes to exactly the kept units at the quantum, carry included |
| Engine.RoundToFormatSound | src/test/java/com/github/unaimillan/jsoftfloat/TestConversions.java:87-175 | a result that does not overflow decodes to the correctly rounded multiple of the quantum in the mode, with the value's sign |
| Engine.RoundToFormatOverflow | src/test/java/com/github/unaimillan/jsoftfloat/TestConversions.java:179-197 | overflow is raised exactly when the kept units exceed the largest finite value; then the flags are overflow and inexact and the result is the signed infinity or the signed largest finite value, as the mode and sign decide |
| Engine.PackOverflow | src/test/java/com/github/unaimillan/jsoftfloat/TestConversions.java:179-197 | the packing step raises overflow exactly when the kept units exceed the largest finite value |
| Engine.RoundToFormatFlags | src/test/java/com/github/unaimillan/jsoftfloat/TestConversions.java:145-148 | zero encodes to the signed zero with no flag; otherwise inexact is raised exactly on overflow or a changed value, and underflow exactly when a changed value is tiny, that is below 2^emin before rounding, so always when a changed value ends subnormal |
| Engine.DecodeEncodeRoundTrip | src/test/java/com/github/unaimillan/jsoftfloat/TestConversions.java:140-143 | encoding the decoded value of any finite pattern gives the same pattern with no flag, in every mode |
| Engine.RepresentableIffExact | src/test/java/com/github/unaimillan/jsoftfloat/TestConversions.java:140-148 | the encoder raises no flag if and only if the value is representable in the format |
| Engine.RepresentableRoundTrip | src/test/java/com/github/unaimillan/jsoftfloat/TestConversions.java:42-69 | a representable value encodes with no flag to a finite pattern whose decoded value is the same number with the same sign |
| Engine.RepresentableValue | src/test/java/com/github/unaimillan/jsoftfloat/TestConversions.java:140-143 | a nonzero value encoded with no flag decodes to the same number with the same sign |
| Engine.RoundToFormatMirror | src/test/java/com/github/unaimillan/jsoftfloat/TestConversions.java:191-197 | encoding the negated value with min and max exchanged gives the negated pattern and the same flags |
| Engine.PackMirror | src/test/java/com/github/unaimillan/jsoftfloat/TestConversions.java:191-197 | the packing step, with the sign flipped and min/max exchanged, gives the negated pattern and the same flags |
| Engine.EncodeNegate | src/test/java/com/github/unaimillan/jsoftfloat/TestConversions.java:191 | laying out the opposite sign gives the negated pattern |
| IntegerConversion.Wrap32 | src/test/java/com/github/unaimillan/jsoftfloat/TestConversions.java:32 | the Java int reading is in the int range and congruent to the integer modulo 2^32 |
| IntegerConversion.Wrap64 | src/test/java/com/github/unaimillan/jsoftfloat/TestConversions.java:36 | the Java long reading is in the long range and congruent to the integer modulo 2^64 |
| IntegerConversion.WrapIdentity | src/test/java/com/github/unaimillan/jsoftfloat/TestConversions.java:32-39 | an integer already in the int or long range reads as itself |
| IntegerConversion.JavaValueReading | src/test/java/com/github/unaimillan/jsoftfloat/TestConversions.java:56 | signed results are returned unchanged; unsigned results from 2^31 (or 2^63) up are returned minus 2^32 (or 2^64) |
| IntegerConversion.Wrap32Unsigned | src/test/java/com/github/unaimillan/jsoftfloat/TestConversions.java:82 | an unsigned int result reads as itself below 2^31 and as itself minus 2^32 above |
| IntegerConversion.Wrap64Unsigned | src/test/java/com/github/unaimillan/jsoftfloat/TestConversions.java:68 | an unsigned long result reads as itself below 2^63 and as itself minus 2^64 above |
| IntegerConversion.IntegralMagnitudeCorrect | src/test/java/com/github/unaimillan/jsoftfloat/TestConversions.java:202-226 | rounding to an integer picks the multiple of 1 that the mode's reference definition chooses, and discards a fraction exactly when the result differs from the value |
| IntegerConversion.IntegralMagnitude | src/test/java/com/github/unaimillan/jsoftfloat/TestConversions.java:205-226 | a value with a fraction rounds to the truncated integer or one more |
| IntegerConversion.ToIntegral | src/test/java/com/github/unaimillan/jsoftfloat/TestConversions.java:27-29 | the integer has the rounded magnitude and never the opposite sign to the value |
| IntegerConversion.IntegralOfInteger | src/test/java/com/github/unaimillan/jsoftfloat/TestConversions.java:27-29 | a value equal to an integer rounds to that integer in every mode and discards no fraction |
| IntegerConversion.SmallIntegerRepresentable | src/test/java/com/github/unaimillan/jsoftfloat/TestConversions.java:16-21 | integers of at most p+1 bits are representable |
| IntegerConversion.PowerOfTwoRepresentable | src/test/java/com/github/unaimillan/jsoftfloat/TestConversions.java:32-39 | every non-negative power of two up to the largest exponent is representable |
| IntegerConversion.ConvertToInteger | src/test/java/com/github/unaimillan/jsoftfloat/TestConversions.java:79-81 | the result is in the kind's range, the flags are among invalid and inexact, inexact only when not quiet and not invalid, and NaN or infinity gives 0 with invalid |
| IntegerConversion.ConvertToIntegerSaturates | src/test/java/com/github/unaimillan/jsoftfloat/TestConversions.java:79-82 | invalid is raised exactly when the rounded integer is out of range; in range the result is that integer, with inexact exactly when a fraction is discarded and not quiet; out of range the result is the bound on the value's side |
| IntegerConversion.IntegerRoundTrip | src/test/java/com/github/unaimillan/jsoftfloat/TestConversions.java:42-69 | a representable integer in the kind's range converts to a float with no flag and back to itself with no flag, whatever the two modes |
| IntegerConversion.ConvertIntegral | src/test/java/com/github/unaimillan/jsoftfloat/TestConversions.java:27-29 | a finite float that rounds to an in-range integer without a fraction converts to it with no flag |
| IntegerConversion.SmallIntegerRoundTrip | src/test/java/com/github/unaimillan/jsoftfloat/TestConversions.java:46-49 | integers of at most p+1 bits survive the round trip through the float with no flag |
| IntegerConversion.IntegralMagnitudeSmall | src/test/java/com/github/unaimillan/jsoftfloat/TestConversions.java:202-226 | rounding a float with a fraction to an integer leaves at most 2^(p+1) units |
| IntegerConversion.RoundToIntegral | src/test/java/com/github/unaimillan/jsoftfloat/TestConversions.java:202-226 | the result is a pattern of the format, finite exactly when the input is, NaN and infinity are returned unchanged, and the only flag is inexact, raised exactly when a fraction is dropped |
| IntegerConversion.RoundToIntegralSound | src/test/java/com/github/unaimillan/jsoftfloat/TestConversions.java:202-226 | NaN and infinity are returned unchanged; a finite float gives a finite float of the same sign whose value is the rounded integer, raising inexact exactly when a fraction is discarded |
| IntegerConversion.SameIntegerValue | src/test/java/com/github/unaimillan/jsoftfloat/TestConversions.java:202-203 | a value with no fraction discards none and equals its rounded integer in every mode |
| IntegerConversion.RoundToIntegralIdempotent | src/test/java/com/github/unaimillan/jsoftfloat/TestConversions.java:202-226 | rounding an integral result again returns it unchanged with no flag |
| IntegerConversion.IntegralOfWhole | src/test/java/com/github/unaimillan/jsoftfloat/TestConversions.java:202-203 | a value that is a whole number of units rounds to that number and discards no fraction |
| Environments.Environment.constructor | src/test/java/com/github/unaimillan/jsoftfloat/TestConversions.java:88 | a new environment has the given mode and no flag |
| Environments.Environment.Default | src/test/java/com/github/unaimillan/jsoftfloat/TestConversions.java:27 | the default environment rounds to nearest even and has no flag |
| Environments.Environment.Raise | src/test/java/com/github/unaimillan/jsoftfloat/TestConversions.java:145-148 | raising adds the flags to the set and never removes one |
| Floats.FromExact | src/test/java/com/github/unaimillan/jsoftfloat/TestConversions.java:88 | the bits are the encoder's result in the environment's mode, and its flags are added to the environment |
| Floats.FromInteger | src/test/java/com/github/unaimillan/jsoftfloat/TestConversions.java:16-21 | the bits are the integer's encoding rounded to nearest even, and an integer of at most p+1 bits encodes to a finite pattern of exactly its value |
| Conversions.ConvertFromInt | src/test/java/com/github/unaimillan/jsoftfloat/TestConversions.java:43 | the bits are the integer's encoding in the environment's mode, and its flags are added to the environment |
| Conversions.ConvertToKind | src/test/java/com/github/unaimillan/jsoftfloat/TestConversions.java:44 | the result is the Java reading of the saturating conversion in the environment's mode, and its flags are added |
| Conversions.ConvertToInt | src/test/java/com/github/unaimillan/jsoftfloat/TestConversions.java:44 | the result is the saturating int conversion in the environment's mode, and its flags are added |
| Conversions.ConvertToLong | src/test/java/com/github/unaimillan/jsoftfloat/TestConversions.java:60 | the result is the saturating long conversion in the environment's mode, and its flags are added |
| Conversions.ConvertToUnsignedInt | src/test/java/com/github/unaimillan/jsoftfloat/TestConversions.java:56 | the result is the int with the bits of the saturating unsigned conversion, and its flags are added |
| Conversions.ConvertToUnsignedLong | src/test/java/com/github/unaimillan/jsoftfloat/TestConversions.java:68 | the result is the long with the bits of the saturating unsigned conversion, and its flags are added |
| Conversions.RoundToIntegral | src/test/java/com/github/unaimillan/jsoftfloat/TestConversions.java:202 | the result is the integral float in the environment's mode, and its flags are added |
| RoundTrips.RoundTripInt | src/test/java/com/github/unaimillan/jsoftfloat/TestConversions.java:42-45 | the helper returns the int conversion of the float of a, and a itself when a is representable |
| RoundTrips.RoundTripInt64 | src/test/java/com/github/unaimillan/jsoftfloat/TestConversions.java:46-49 | through binary64 every int comes back unchanged |
| RoundTrips.RoundTripUnsignedInt | src/test/java/com/github/unaimillan/jsoftfloat/TestConversions.java:50-57 | the helper converts a, biased by 2^32 when negative, and returns a itself when that integer is representable |
| RoundTrips.RoundTripLong | src/test/java/com/github/unaimillan/jsoftfloat/TestConversions.java:58-61 | the helper returns the long conversion of the float of a, and a itself when a is representable |
| RoundTrips.RoundTripUnsignedLong | src/test/java/com/github/unaimillan/jsoftfloat/TestConversions.java:62-69 | the helper converts a, biased by 2^64 when negative, and returns a itself when that integer is representable |
| RoundTrips.UnsignedIntBack | src/test/java/com/github/unaimillan/jsoftfloat/TestConversions.java:50-57 | a representable biased integer converts back to the int with a's bits |
| RoundTrips.UnsignedLongBack | src/test/java/com/github/unaimillan/jsoftfloat/TestConversions.java:62-69 | a representable biased integer converts back to the long with a's bits |
| RoundTrips.IntPowerOfTwo | src/test/java/com/github/unaimillan/jsoftfloat/TestConversions.java:32 | shifting the int left gives the next power of two, the sign bit at 2^31 and 0 exactly at 2^32 |
| RoundTrips.LongPowerOfTwo | src/test/java/com/github/unaimillan/jsoftfloat/TestConversions.java:36 | shifting the long left gives the next power of two, the sign bit at 2^63 and 0 exactly at 2^64 |
| RoundTrips.CheckIntPower | src/test/java/com/github/unaimillan/jsoftfloat/TestConversions.java:33-34 | both int round trips of a power of two give it back |
| RoundTrips.IntPowersOfTwo | src/test/java/com/github/unaimillan/jsoftfloat/TestConversions.java:32-35 | the loop stops after 32 shifts and every check passed |
| RoundTrips.CheckLongPower | src/test/java/com/github/unaimillan/jsoftfloat/TestConversions.java:37-38 | both long round trips of a power of two give it back |
| RoundTrips.LongPowersOfTwo | src/test/java/com/github/unaimillan/jsoftfloat/TestConversions.java:36-39 | the loop stops after 64 shifts and every check passed |
| RoundTrips.UnsignedConversions | src/test/java/com/github/unaimillan/jsoftfloat/TestConversions.java:77-82 | with one environment, 2^31 converts to Integer.MAX_VALUE as an int and to 0x80000000 as an unsigned int, the two differ, and invalid is raised |
| RoundTrips.SignBitConversions | src/test/java/com/github/unaimillan/jsoftfloat/TestConversions.java:78-82 | the float of 2^31 saturates to 0x7FFFFFFF with invalid as an int and reads as -2^31 as an unsigned int |
| RoundTrips.AboveIntRange | src/test/java/com/github/unaimillan/jsoftfloat/TestConversions.java:79-81 | a representable integer above the int range saturates as an int with invalid and converts back exactly as an unsigned int |
| RoundTrips.SignBitRepresentable | src/test/java/com/github/unaimillan/jsoftfloat/TestConversions.java:78 | 2^31 is representable in binary32 and within the unsigned int range |
| ConversionScenarios.Subnormal32 | src/test/java/com/github/unaimillan/jsoftfloat/TestConversions.java:87-124 | a value that rounds to fewer than 2^23 subnormal units is that subnormal pattern, with inexact and underflow exactly when rounded |
| ConversionScenarios.Normal32 | src/test/java/com/github/unaimillan/jsoftfloat/TestConversions.java:153-166 | a value that rounds to k units of 2^q in [2^23, 2^24) is the normal pattern with biased exponent q + 150 |
| ConversionScenarios.Carry32 | src/test/java/com/github/unaimillan/jsoftfloat/TestConversions.java:168-175 | a value that rounds up to 2^24 units carries into the next biased exponent |
| ConversionScenarios.Overflow32 | src/test/java/com/github/unaimillan/jsoftfloat/TestConversions.java:179-197 | a value whose kept bits lie above the largest exponent is infinity or the largest finite value, with overflow and inexact |
| ConversionScenarios.Decode32 | src/test/java/com/github/unaimillan/jsoftfloat/TestConversions.java:127 | a finite binary32 pattern decodes to its subnormal or normal exact value |
| ConversionScenarios.FromIntegerEncodings | src/test/java/com/github/unaimillan/jsoftfloat/TestConversions.java:16-21 | 0, 1, 2, -1, 512 and 900000000 encode to 0x0, 0x3F800000, 0x40000000, 0xBF800000, 0x44000000 and 0x4E5693A4 |
| ConversionScenarios.FromIntegerCalls | src/test/java/com/github/unaimillan/jsoftfloat/TestConversions.java:16-17 | the fromInteger method itself gives 0x0 for 0 and 0x3F800000 for 1 |
| ConversionScenarios.ConvertSmallIntegers | src/test/java/com/github/unaimillan/jsoftfloat/TestConversions.java:27-29 | +0, 1.0 and -1.0 convert to the ints 0, 1 and -1 |
| ConversionScenarios.SubnormalThreeHalves | src/test/java/com/github/unaimillan/jsoftfloat/TestConversions.java:87-92 | 3·2^-150 gives 0x1 under zero and min and 0x2 under even, max and away |
| ConversionScenarios.SubnormalHalfTie | src/test/java/com/github/unaimillan/jsoftfloat/TestConversions.java:95-100 | the tie 2^-150 gives 0x1 under max and away and 0x0 under zero, min and even |
| ConversionScenarios.SubnormalThreeQuarters | src/test/java/com/github/unaimillan/jsoftfloat/TestConversions.java:101-106 | 3·2^-151 gives 0x0 under zero and min and 0x1 otherwise |
| ConversionScenarios.SubnormalQuarter | src/test/java/com/github/unaimillan/jsoftfloat/TestConversions.java:107-112 | 2^-151 gives 0x1 under max only and 0x0 otherwise |
| ConversionScenarios.SubnormalFiveHalves | src/test/java/com/github/unaimillan/jsoftfloat/TestConversions.java:114-115 | the tie 5·2^-150 goes to the even pattern 0x2 |
| ConversionScenarios.SubnormalFiveQuarters | src/test/java/com/github/unaimillan/jsoftfloat/TestConversions.java:118-120 | 5·2^-151 gives 0x1 under even and away |
| ConversionScenarios.SubnormalSevenQuarters | src/test/java/com/github/unaimillan/jsoftfloat/TestConversions.java:122-124 | 7·2^-151 gives 0x2 under even and away |
| ConversionScenarios.LargestSubnormalPlusHalf | src/test/java/com/github/unaimillan/jsoftfloat/TestConversions.java:127-129 | 0x007FFFFF decodes to a finite value, and adding 2^-150 gives exactly 0xFFFFFF·2^-150 |
| ConversionScenarios.CarryIntoNormal | src/test/java/com/github/unaimillan/jsoftfloat/TestConversions.java:131-135 | that sum gives 0x007FFFFF under zero and min and the smallest normal 0x00800000 otherwise |
| ConversionScenarios.CarryIntoNormalFlags | src/test/java/com/github/unaimillan/jsoftfloat/TestConversions.java:127-135 | that sum lies below 2^-126 before rounding, so every mode raises inexact and underflow, also where it rounds to the smallest normal |
| ConversionScenarios.BelowTwoPlusHalf | src/test/java/com/github/unaimillan/jsoftfloat/TestConversions.java:168-169 | 0x3FFFFFFF decodes to a finite value, and adding 2^-24 gives exactly 0x1FFFFFF·2^-24 |
| ConversionScenarios.CarryIntoNextBinade | src/test/java/com/github/unaimillan/jsoftfloat/TestConversions.java:171-175 | that sum gives 0x3FFFFFFF under zero and min and 0x40000000 otherwise |
| ConversionScenarios.BelowTwoDown | src/test/java/com/github/unaimillan/jsoftfloat/TestConversions.java:171-172 | under zero and min that sum stays at 0x3FFFFFFF |
| ConversionScenarios.BelowTwoUp | src/test/java/com/github/unaimillan/jsoftfloat/TestConversions.java:173-175 | under even, max and away that sum carries to 0x40000000 |
| ConversionScenarios.OnePlusSmall | src/test/java/com/github/unaimillan/jsoftfloat/TestConversions.java:153-166 | 1 + 2^-24, 1 + 3·2^-25 and 1 + 2^-25 are the exact sums add computes |
| ConversionScenarios.NormalTie | src/test/java/com/github/unaimillan/jsoftfloat/TestConversions.java:156-160 | the tie 1 + 2^-24 gives 0x3F800000 under zero, min and even and 0x3F800001 under max and away |
| ConversionScenarios.AboveNormalTie | src/test/java/com/github/unaimillan/jsoftfloat/TestConversions.java:162-163 | 1 + 3·2^-25 rounds up to 0x3F800001 under even |
| ConversionScenarios.BelowNormalTie | src/test/java/com/github/unaimillan/jsoftfloat/TestConversions.java:165-166 | 1 + 2^-25 stays at 0x3F800000 under away |
| ConversionScenarios.DecodeEncodeSamples | src/test/java/com/github/unaimillan/jsoftfloat/TestConversions.java:140-143 | 0x1, 0x10, 0x400000 and 0x7F7FFFFF are finite and encode back to themselves |
| ConversionScenarios.UnderflowFlags | src/test/java/com/github/unaimillan/jsoftfloat/TestConversions.java:145-148 | 2^-151 in a default environment gives 0x0 and leaves inexact and underflow raised |
| ConversionScenarios.OverflowOf | src/test/java/com/github/unaimillan/jsoftfloat/TestConversions.java:179-197 | ±2^128 gives infinity of its sign or the largest finite value of its sign, with overflow and inexact |
| ConversionScenarios.OverflowByMode | src/test/java/com/github/unaimillan/jsoftfloat/TestConversions.java:186-197 | 2^128 gives 0x7F7FFFFF under zero and min and 0x7F800000 otherwise; -2^128 gives 0xFF7FFFFF under zero and max and 0xFF800000 otherwise; the flags are overflow and inexact |
| ConversionScenarios.OverflowFlags | src/test/java/com/github/unaimillan/jsoftfloat/TestConversions.java:180-193 | with one environment in mode zero, 2^128 gives 0x7F7FFFFF with inexact and overflow raised, and its negation gives the negated pattern 0xFF7FFFFF |
| ConversionScenarios.RoundToIntegralZeros | src/test/java/com/github/unaimillan/jsoftfloat/TestConversions.java:202-203 | +0 and -0 are returned unchanged |
| ConversionScenarios.RoundToIntegralHalves | src/test/java/com/github/unaimillan/jsoftfloat/TestConversions.java:205-218 | 0x3F000000 negates to 0xBF000000; 0.5 gives 1.0 under away and max and +0 otherwise; -0.5 gives -1.0 under min and away and -0 otherwise |
| ConversionScenarios.PositiveHalf | src/test/java/com/github/unaimillan/jsoftfloat/TestConversions.java:206-211 | 0.5 gives 0x3F800000 under away and max and 0x0 otherwise |
| ConversionScenarios.NegativeHalf | src/test/java/com/github/unaimillan/jsoftfloat/TestConversions.java:213-218 | -0.5 gives 0xBF800000 under min and away and 0x80000000 otherwise |
| ConversionScenarios.RoundToIntegralThreeQuarters | src/test/java/com/github/unaimillan/jsoftfloat/TestConversions.java:220-222 | 0x3F400000 (0.75) gives 0x3F800000 under even and away |
| ConversionScenarios.RoundToIntegralSmall | src/test/java/com/github/unaimillan/jsoftfloat/TestConversions.java:224-226 | 0x3EB00000 (0.34375) gives 0x0 under even and away |
| ConversionScenarios.FractionMagnitude | src/test/java/com/github/unaimillan/jsoftfloat/TestConversions.java:205-226 | a fraction strictly between 0 and 1 rounds to 1 exactly when the mode increments a zero quotient for that remainder |
| ConversionScenarios.IntegralOne | src/test/java/com/github/unaimillan/jsoftfloat/TestConversions.java:205-226 | a fraction below one that rounds to 1 or to 0 gives the signed one or the signed zero as its integral float |

## Left out

- The model is built from the behaviour that `TestConversions.java` asserts,
  completed by the rounding, flags and layout of IEEE 754-2008. The code of
  `internal/ExactFloat.java`, `types/Float32.java`, `types/Float64.java`,
  `operations/Conversions.java` and `Environment.java` is not part of this
  model and is not followed line by line.
- The Java `ExactFloat` keeps its exponent in a 32-bit int. Here the exponent
  is unbounded, because no case in the test comes near that limit.
- NaN payloads and signalling NaNs are not modelled. The model has one
  canonical quiet NaN, 0x7FC00000 for binary32.
- `roundToIntegral` returns a NaN input unchanged, without raising invalid for
  a signalling NaN, because signalling NaNs are not modelled.
- Multiplication, division, square root, fused multiply-add, comparison and
  classification are outside the conversions and are not modelled.
- `Environment` has no thread safety, so concurrent use is not modelled.
- The `quiet` argument of the integer conversions (the test's last `true`
  argument) suppresses inexact when it is true. The test passes `true`
  everywhere, so the behaviour for `false` is the standard's, not one that the
  file shows.
- An out-of-range integer conversion raises invalid and no inexact.
- NaN or infinity converts to the integer 0 with invalid. Section 5.8 of IEEE 754-2008
  leaves the integer result unspecified, and returning 0 is a choice of this
  model.
- Binary64 is used only for the unused `roundTripInt64` helper. The other
  scenarios are stated for binary32, while the engine lemmas hold for every
  valid format.
- Exceptions that Java would throw on a malformed `ExactFloat` (a negative
  significand) cannot happen, because the significand is a `nat`.
- JUnit's `assertEquals`, `assertTrue` and `assertNotEquals` become
  postconditions and lemma conclusions.
- RoundToIntegral: raises inexact when a fraction is dropped, as section 5.3.1
  of IEEE 754-2008 specifies for roundToIntegralExact. The standard's roundToIntegral
  operations that do not signal inexact are not modelled separately, because
  the test checks only the bits of the result.
- RoundToFormatFlags: detects tininess before rounding only. The other rule of
  section 7.5 of IEEE 754-2008, tininess after rounding, is not modelled.
