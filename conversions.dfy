/**
 * The library's `Conversions` operations: each reads the rounding mode from the
 * caller's environment and adds the flags it raises there. The unsigned
 * conversions return their result as Java does, as the int or long with the
 * same 32 or 64 bits.
 */
module Conversions {
  import opened ExactFloats
  import opened Formats
  import opened Engine
  import opened Environments
  import Floats
  import IC = IntegerConversion

  /** `convertFromInt(n, env, format)`: the integer's exact value encoded in env's mode. */
  method ConvertFromInt(f: Format, n: int, env: Environment) returns (bits: nat)
    requires f.Valid()
    modifies env
    ensures bits == RoundToFormat(f, FromInteger(n), env.mode).bits
    ensures env.flags == old(env.flags) + RoundToFormat(f, FromInteger(n), env.mode).flags
  {
    bits := Floats.FromExact(f, FromInteger(n), env);
  }

  /** The shared body of the four float-to-integer conversions. */
  method ConvertToKind(f: Format, bits: nat, env: Environment, quiet: bool, kind: IC.IntegerKind) returns (r: int)
    requires f.Valid() && f.IsBits(bits)
    modifies env
    ensures var c := IC.ConvertToInteger(f, bits, env.mode, quiet, kind);
            r == IC.JavaValue(kind, c.value) && env.flags == old(env.flags) + c.flags
  {
    var c := IC.ConvertToInteger(f, bits, env.mode, quiet, kind);
    env.Raise(c.flags);
    r := IC.JavaValue(kind, c.value);
  }

  /** `convertToInt(value, env, quiet)`: a Java int, saturating. */
  method ConvertToInt(f: Format, bits: nat, env: Environment, quiet: bool) returns (r: int)
    requires f.Valid() && f.IsBits(bits)
    modifies env
    ensures var c := IC.ConvertToInteger(f, bits, env.mode, quiet, IC.Int);
            r == c.value && env.flags == old(env.flags) + c.flags
  {
    r := ConvertToKind(f, bits, env, quiet, IC.Int);
  }

  /** `convertToLong(value, env, quiet)`: a Java long, saturating. */
  method ConvertToLong(f: Format, bits: nat, env: Environment, quiet: bool) returns (r: int)
    requires f.Valid() && f.IsBits(bits)
    modifies env
    ensures var c := IC.ConvertToInteger(f, bits, env.mode, quiet, IC.Long);
            r == c.value && env.flags == old(env.flags) + c.flags
  {
    r := ConvertToKind(f, bits, env, quiet, IC.Long);
  }

  /** `convertToUnsignedInt(value, env, quiet)`: saturating to [0, 2^32 - 1], returned as the int of those bits. */
  method ConvertToUnsignedInt(f: Format, bits: nat, env: Environment, quiet: bool) returns (r: int)
    requires f.Valid() && f.IsBits(bits)
    modifies env
    ensures var c := IC.ConvertToInteger(f, bits, env.mode, quiet, IC.UnsignedInt);
            r == IC.Wrap32(c.value) && env.flags == old(env.flags) + c.flags
  {
    r := ConvertToKind(f, bits, env, quiet, IC.UnsignedInt);
  }

  /** `convertToUnsignedLong(value, env, quiet)`: saturating to [0, 2^64 - 1], returned as the long of those bits. */
  method ConvertToUnsignedLong(f: Format, bits: nat, env: Environment, quiet: bool) returns (r: int)
    requires f.Valid() && f.IsBits(bits)
    modifies env
    ensures var c := IC.ConvertToInteger(f, bits, env.mode, quiet, IC.UnsignedLong);
            r == IC.Wrap64(c.value) && env.flags == old(env.flags) + c.flags
  {
    r := ConvertToKind(f, bits, env, quiet, IC.UnsignedLong);
  }

  /** `roundToIntegral(value, env)`: the integral float of the same format, in env's mode. */
  method RoundToIntegral(f: Format, bits: nat, env: Environment) returns (r: nat)
    requires f.Valid() && f.IsBits(bits)
    modifies env
    ensures var o := IC.RoundToIntegral(f, bits, env.mode);
            r == o.bits && env.flags == old(env.flags) + o.flags
  {
    var o := IC.RoundToIntegral(f, bits, env.mode);
    env.Raise(o.flags);
    r := o.bits;
  }
}
