/**
 * The exact, never-rounded intermediate value of the library (`ExactFloat`):
 * (-1)^sign * significand * 2^exponent with an unbounded significand.
 */
module ExactFloats {
  import opened Arithmetic

  /** sign == true means negative; a zero significand is a signed zero. */
  datatype ExactFloat = ExactFloat(sign: bool, exponent: int, significand: nat)

  /** The magnitude as an integer multiple of 2^e, for any e at or below the exponent. */
  function Scaled(v: ExactFloat, e: int): nat
    requires e <= v.exponent
  {
    v.significand * Pow2(v.exponent - e)
  }

  /** The signed value as an integer multiple of 2^e. */
  function SignedScaled(v: ExactFloat, e: int): int
    requires e <= v.exponent
  {
    var m: int := Scaled(v, e);
    if v.sign then -m else m
  }

  /** Two exact values denote the same signed number (zeros of either sign are equal). */
  ghost predicate SameNumber(a: ExactFloat, b: ExactFloat) {
    var m := IntMin(a.exponent, b.exponent);
    SignedScaled(a, m) == SignedScaled(b, m)
  }

  /** The exact value of an integer (the library's `new ExactFloat(BigInteger)`). */
  function FromInteger(n: int): (v: ExactFloat)
    ensures v.exponent == 0 && SignedScaled(v, 0) == n
    ensures v.sign <==> n < 0
  {
    ExactFloat(n < 0, 0, if n < 0 then -n else n)
  }

  /** Flips the sign, keeping the magnitude, signed zeros included. */
  function Negate(v: ExactFloat): (r: ExactFloat)
    ensures r.sign != v.sign && r.exponent == v.exponent && r.significand == v.significand
  {
    ExactFloat(!v.sign, v.exponent, v.significand)
  }

  /**
   * Exact addition: both significands are rescaled to the smaller exponent and
   * combined in sign-magnitude form. Opposite signs of equal magnitude give +0.
   */
  function Add(a: ExactFloat, b: ExactFloat): (r: ExactFloat)
    ensures r.exponent == IntMin(a.exponent, b.exponent)
  {
    var e := IntMin(a.exponent, b.exponent);
    var x := Scaled(a, e);
    var y := Scaled(b, e);
    if a.sign == b.sign then ExactFloat(a.sign, e, x + y)
    else if x > y then ExactFloat(a.sign, e, x - y)
    else if y > x then ExactFloat(b.sign, e, y - x)
    else ExactFloat(false, e, 0)
  }

  /** Addition loses nothing: the sum is exact at the common exponent. */
  lemma AddIsExact(a: ExactFloat, b: ExactFloat)
    ensures var e := IntMin(a.exponent, b.exponent);
            SignedScaled(Add(a, b), e) == SignedScaled(a, e) + SignedScaled(b, e)
  {
  }

  /** The sign rules of the addition: like signs are kept, a cancellation is +0. */
  lemma AddSign(a: ExactFloat, b: ExactFloat)
    ensures var e := IntMin(a.exponent, b.exponent);
            var r := Add(a, b);
            (a.sign == b.sign ==> r.sign == a.sign) &&
            (a.sign != b.sign && Scaled(a, e) == Scaled(b, e) ==> r == ExactFloat(false, e, 0)) &&
            (r.significand > 0 ==> (r.sign <==> SignedScaled(a, e) + SignedScaled(b, e) < 0))
  {
  }

  lemma AddCommutes(a: ExactFloat, b: ExactFloat)
    ensures Add(a, b) == Add(b, a)
  {
  }

  lemma NegateInvolutive(v: ExactFloat)
    ensures Negate(Negate(v)) == v
    ensures SignedScaled(Negate(v), v.exponent) == -SignedScaled(v, v.exponent)
  {
  }

  /** Rescaling to a lower exponent multiplies by the power of two in between. */
  lemma ScaledRescale(v: ExactFloat, e: int, d: int)
    requires d <= e <= v.exponent
    ensures Scaled(v, d) == Scaled(v, e) * Pow2(e - d)
  {
    Pow2Add(v.exponent - e, e - d);
    assert v.exponent - d == (v.exponent - e) + (e - d);
  }
}
