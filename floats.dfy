/**
 * The format classes' encoding entry points (`Float32.fromExact`,
 * `Float32.fromInteger` and their Float64 twins), generic over the format:
 * the encoder of module Engine, with its flags added to the caller's environment.
 * Decoding (`toExactFloat`) and `negate` on a float are Format.Decode and
 * Format.NegateBits.
 */
module Floats {
  import opened ExactFloats
  import opened Rounding
  import opened Formats
  import opened Engine
  import opened Environments
  import opened Arithmetic
  import opened IntegerConversion

  /** `fromExact(value, env)`: the correctly rounded pattern in env's mode; the flags raised join env's. */
  method FromExact(f: Format, v: ExactFloat, env: Environment) returns (bits: nat)
    requires f.Valid()
    modifies env
    ensures bits == RoundToFormat(f, v, env.mode).bits && f.IsBits(bits)
    ensures env.flags == old(env.flags) + RoundToFormat(f, v, env.mode).flags
  {
    var o := RoundToFormat(f, v, env.mode);
    env.Raise(o.flags);
    bits := o.bits;
  }

  /**
   * `fromInteger(n)`: n encoded in a fresh environment (ties to even), its flags
   * dropped; an integer of at most significandWidth + 1 bits is encoded exactly.
   */
  method FromInteger(f: Format, n: int) returns (bits: nat)
    requires f.Valid()
    ensures bits == RoundToFormat(f, ExactFloats.FromInteger(n), Even).bits
    ensures n < Pow2(f.significandWidth + 1) && -n < Pow2(f.significandWidth + 1) ==>
              f.IsFinite(bits) && SameNumber(f.Decode(bits), ExactFloats.FromInteger(n))
  {
    var env := new Environment.Default();
    bits := FromExact(f, ExactFloats.FromInteger(n), env);
    if n < Pow2(f.significandWidth + 1) && -n < Pow2(f.significandWidth + 1) {
      SmallIntegerRepresentable(f, n < 0, if n < 0 then -n else n);
      RepresentableRoundTrip(f, ExactFloats.FromInteger(n), Even);
    }
  }
}
