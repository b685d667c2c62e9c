/**
 * Rounding-direction attributes (section 4.3 of IEEE 754-2008), the exception
 * flags (section 7), and the one integer rounding step every conversion shares:
 * divide a magnitude x by a power-of-two unit u and decide, from the remainder
 * compared with half a unit, whether to round the quotient's magnitude up.
 */
module Rounding {
  import opened Arithmetic

  /** zero: toward 0; min: toward -inf; max: toward +inf; even/away: to nearest. */
  datatype RoundingMode = Zero | Min | Max | Even | Away

  datatype Flag = Inexact | Underflow | Overflow | Invalid | DivByZero

  /** The discarded remainder compared with half a unit. */
  datatype Remainder = Exact | BelowHalf | Half | AboveHalf

  function Classify(x: nat, u: nat): (c: Remainder)
    requires u > 0
    ensures c == Exact <==> x % u == 0
    ensures c == Half <==> 2 * (x % u) == u
    ensures c == AboveHalf <==> 2 * (x % u) > u
  {
    var r := x % u;
    if r == 0 then Exact
    else if 2 * r < u then BelowHalf
    else if 2 * r == u then Half
    else AboveHalf
  }

  /** Whether the truncated magnitude is incremented; `negative` is the value's sign. */
  function Increments(mode: RoundingMode, negative: bool, rem: Remainder, odd: bool): bool {
    match mode
    case Zero => false
    case Min => negative && rem != Exact
    case Max => !negative && rem != Exact
    case Even => rem == AboveHalf || (rem == Half && odd)
    case Away => rem == AboveHalf || rem == Half
  }

  /** The magnitude x / u rounded to an integer in the given direction. */
  function RoundScaled(x: nat, u: nat, negative: bool, mode: RoundingMode): (k: nat)
    requires u > 0
    ensures x / u <= k <= x / u + 1
  {
    var t := x / u;
    if Increments(mode, negative, Classify(x, u), t % 2 == 1) then t + 1 else t
  }

  /** Whether an overflowing value becomes infinity (otherwise the largest finite value). */
  function OverflowsToInfinity(mode: RoundingMode, negative: bool): bool {
    match mode
    case Zero => false
    case Min => negative
    case Max => !negative
    case Even => true
    case Away => true
  }

  /** min and max exchanged: the mode a negated value must be rounded in to mirror. */
  function Mirror(mode: RoundingMode): RoundingMode {
    match mode
    case Min => Max
    case Max => Min
    case _ => mode
  }

  // Reference definition of a correctly rounded integer multiple, with no division.

  /** k*u is the largest multiple of u not above x. */
  ghost predicate RoundsDown(x: nat, u: nat, k: nat) {
    k * u <= x < k * u + u
  }

  /** k*u is the smallest multiple of u not below x. */
  ghost predicate RoundsUp(x: nat, u: nat, k: nat) {
    x <= k * u < x + u
  }

  /** k*u is at most half a unit from x. */
  ghost predicate Nearest(x: nat, u: nat, k: nat) {
    2 * x <= 2 * (k * u) + u && 2 * (k * u) <= 2 * x + u
  }

  /**
   * k*u is x rounded to a multiple of u under `mode`, for a value of sign `negative`
   * and magnitude x: directed modes pick the neighbour on their side, nearest modes
   * the closer neighbour, breaking a tie toward the even multiple or away from zero.
   */
  ghost predicate IsRoundedInteger(mode: RoundingMode, negative: bool, x: nat, u: nat, k: nat) {
    match mode
    case Zero => RoundsDown(x, u, k)
    case Min => if negative then RoundsUp(x, u, k) else RoundsDown(x, u, k)
    case Max => if negative then RoundsDown(x, u, k) else RoundsUp(x, u, k)
    case Even => Nearest(x, u, k) && (2 * (k * u) == 2 * x + u || 2 * (k * u) + u == 2 * x ==> k % 2 == 0)
    case Away => Nearest(x, u, k) && 2 * (k * u) + u != 2 * x
  }

  lemma MultipleParts(x: nat, u: nat)
    requires u > 0
    ensures x == (x / u) * u + x % u && 0 <= x % u < u
    ensures (x / u + 1) * u == (x / u) * u + u
  {
  }

  /** RoundScaled meets the reference definition, for every mode, sign and input. */
  lemma RoundScaledCorrect(x: nat, u: nat, negative: bool, mode: RoundingMode)
    requires u > 0
    ensures IsRoundedInteger(mode, negative, x, u, RoundScaled(x, u, negative, mode))
  {
    var t, r := x / u, x % u;
    MultipleParts(x, u);
    var k := RoundScaled(x, u, negative, mode);
    if k == t + 1 {
      assert k * u == t * u + u;
    } else {
      assert k * u == t * u;
    }
  }

  /**
   * Conversely, any multiple meeting the reference definition is the one RoundScaled
   * computes, so the definition admits exactly one result.
   */
  lemma RoundScaledComplete(x: nat, u: nat, negative: bool, mode: RoundingMode, k: nat)
    requires u > 0
    requires IsRoundedInteger(mode, negative, x, u, k)
    ensures k == RoundScaled(x, u, negative, mode)
  {
    match mode
    case Zero =>
      FromBelow(x, u, k);
    case Min =>
      if negative { FromAbove(x, u, k); } else { FromBelow(x, u, k); }
    case Max =>
      if negative { FromBelow(x, u, k); } else { FromAbove(x, u, k); }
    case Even =>
      if k * u <= x { FromBelow(x, u, k); } else { FromAbove(x, u, k); }
    case Away =>
      if k * u <= x { FromBelow(x, u, k); } else { FromAbove(x, u, k); }
  }

  /** A multiple at or within one unit below x is the quotient. */
  lemma FromBelow(x: nat, u: nat, k: nat)
    requires u > 0 && k * u <= x < k * u + u
    ensures x / u == k && x % u == x - k * u
  {
    DivModUnique(x, u, k, x - k * u);
  }

  /** A multiple within one unit above x, or equal to x, is one more than the quotient. */
  lemma FromAbove(x: nat, u: nat, k: nat)
    requires u > 0 && x <= k * u < x + u
    ensures k * u == x ==> x / u == k && x % u == 0
    ensures k * u > x ==> k >= 1 && x / u == k - 1 && x % u == x + u - k * u
  {
    if k * u == x {
      DivModUnique(x, u, k, 0);
    } else {
      assert k != 0;
      assert (k - 1) * u == k * u - u;
      DivModUnique(x, u, k - 1, x + u - k * u);
    }
  }

  lemma IsRoundedIntegerUnique(mode: RoundingMode, negative: bool, x: nat, u: nat, k1: nat, k2: nat)
    requires u > 0
    requires IsRoundedInteger(mode, negative, x, u, k1)
    requires IsRoundedInteger(mode, negative, x, u, k2)
    ensures k1 == k2
  {
    RoundScaledComplete(x, u, negative, mode, k1);
    RoundScaledComplete(x, u, negative, mode, k2);
  }

  /** No increment is made exactly when nothing was discarded. */
  lemma RoundScaledExact(x: nat, u: nat, negative: bool, mode: RoundingMode)
    requires u > 0
    ensures RoundScaled(x, u, negative, mode) * u == x <==> Classify(x, u) == Exact
  {
    MultipleParts(x, u);
    var t := x / u;
    if RoundScaled(x, u, negative, mode) == t + 1 {
      assert (t + 1) * u == t * u + u;
    }
  }

  /** Rounding a negated value in the mirrored mode gives the same magnitude. */
  lemma RoundScaledMirror(x: nat, u: nat, negative: bool, mode: RoundingMode)
    requires u > 0
    ensures RoundScaled(x, u, !negative, Mirror(mode)) == RoundScaled(x, u, negative, mode)
    ensures OverflowsToInfinity(Mirror(mode), !negative) == OverflowsToInfinity(mode, negative)
  {
  }
}
