/**
 * The library's `Environment`: the rounding mode an operation uses and the
 * exception flags it has raised. Flags are sticky (section 7.1 of IEEE 754-2008):
 * an operation only adds to them, so the set never shrinks while the same
 * environment is passed from call to call.
 */
module Environments {
  import opened Rounding

  class Environment {
    const mode: RoundingMode
    var flags: set<Flag>

    /** `new Environment(mode)`: the given mode, no flags raised. */
    constructor (mode: RoundingMode)
      ensures this.mode == mode && flags == {}
    {
      this.mode := mode;
      flags := {};
    }

    /** `new Environment()`: round to nearest, ties to even, no flags raised. */
    constructor Default()
      ensures mode == Even && flags == {}
    {
      mode := Even;
      flags := {};
    }

    /** Records the flags an operation raised on top of those already set. */
    method Raise(raised: set<Flag>)
      modifies this
      ensures flags == old(flags) + raised
      ensures old(flags) <= flags
    {
      flags := flags + raised;
    }
  }
}
