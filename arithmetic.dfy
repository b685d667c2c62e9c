/**
 * Unbounded integer helpers shared by the exact-value and rounding modules:
 * powers of two (the library's `shiftLeft`), bit length (`BigInteger.bitLength`)
 * and the division facts the rounding proofs lean on.
 */
module Arithmetic {

  function IntMin(a: int, b: int): int {
    if a <= b then a else b
  }

  function IntMax(a: int, b: int): int {
    if a >= b then a else b
  }

  /** 2^n */
  function Pow2(n: nat): (r: nat)
    ensures r >= 1
  {
    if n == 0 then 1 else 2 * Pow2(n - 1)
  }

  /** Number of bits needed to write n in binary; 0 for 0. */
  function BitLength(n: nat): nat {
    if n == 0 then 0 else 1 + BitLength(n / 2)
  }

  lemma {:induction false} Pow2Add(a: nat, b: nat)
    ensures Pow2(a + b) == Pow2(a) * Pow2(b)
  {
    if a > 0 {
      Pow2Add(a - 1, b);
      assert Pow2(a + b) == 2 * Pow2(a - 1 + b);
    }
  }

  lemma {:induction false} Pow2Monotone(a: nat, b: nat)
    requires a <= b
    ensures Pow2(a) <= Pow2(b)
  {
    if a < b {
      Pow2Monotone(a, b - 1);
    }
  }

  lemma Pow2StrictlyMonotone(a: nat, b: nat)
    requires a < b
    ensures 2 * Pow2(a) <= Pow2(b)
  {
    Pow2Monotone(a + 1, b);
  }

  /** A larger power of two is a multiple of a smaller one. */
  lemma Pow2Divides(a: nat, b: nat)
    requires a <= b
    ensures Pow2(b) == Pow2(a) * Pow2(b - a)
    ensures Pow2(b) % Pow2(a) == 0
  {
    var x, y := Pow2(a), Pow2(b - a);
    Pow2Add(a, b - a);
    assert Pow2(b) == x * y;
    MulDivExact(y, x);
    assert y * x == x * y;
  }

  /** The bit length of n > 0 brackets it between two consecutive powers of two. */
  lemma {:induction false} BitLengthBounds(n: nat)
    requires n > 0
    ensures BitLength(n) >= 1
    ensures Pow2(BitLength(n) - 1) <= n < Pow2(BitLength(n))
  {
    if n > 1 {
      BitLengthBounds(n / 2);
    }
  }

  /** Bit length is determined by the binade that contains n. */
  lemma BitLengthUnique(n: nat, k: nat)
    requires Pow2(k) <= n < Pow2(k + 1)
    ensures BitLength(n) == k + 1
  {
    BitLengthBounds(n);
    var m := BitLength(n);
    if m - 1 > k {
      Pow2Monotone(k + 1, m - 1);
    } else if m - 1 < k {
      Pow2Monotone(m, k);
    }
  }

  lemma BitLengthOfPow2(k: nat)
    ensures BitLength(Pow2(k)) == k + 1
  {
    BitLengthUnique(Pow2(k), k);
  }

  lemma MulDivExact(a: nat, d: nat)
    requires d > 0
    ensures (a * d) / d == a && (a * d) % d == 0
  {
    DivModUnique(a * d, d, a, 0);
  }

  /** Euclidean division is unique: q and r are the quotient and the remainder. */
  lemma DivModUnique(n: int, d: int, q: int, r: int)
    requires d > 0 && 0 <= r < d && n == q * d + r
    ensures n / d == q && n % d == r
  {
    var q0, r0 := n / d, n % d;
    assert (q0 - q) * d == r - r0;
    ZeroMultiple(q0 - q, d);
  }

  /** The only multiple of d strictly between -d and d is 0. */
  lemma ZeroMultiple(k: int, d: int)
    requires d > 0 && -d < k * d < d
    ensures k == 0
  {
    if k >= 1 {
      MulMonotone(1, k, d);
    } else if k <= -1 {
      MulMonotone(k, -1, d);
    }
  }

  lemma MulMonotone(a: int, b: int, c: nat)
    requires a <= b
    ensures a * c <= b * c
  {
    assert b * c - a * c == (b - a) * c;
  }

  /** The powers of two that the binary32 and binary64 layouts and the integer kinds use. */
  lemma Pow2Table()
    ensures Pow2(8) == 0x100 && Pow2(11) == 0x800
    ensures Pow2(22) == 0x40_0000 && Pow2(23) == 0x80_0000 && Pow2(24) == 0x100_0000 && Pow2(25) == 0x200_0000
    ensures Pow2(31) == 0x8000_0000 && Pow2(32) == 0x1_0000_0000
    ensures Pow2(52) == 0x10_0000_0000_0000
    ensures Pow2(63) == 0x8000_0000_0000_0000 && Pow2(64) == 0x1_0000_0000_0000_0000
  {
    assert Pow2(8) == 0x100;
    assert Pow2(11) == 0x800;
    Pow2Add(11, 11);
    Pow2Add(11, 12);
    assert Pow2(12) == 0x1000;
    Pow2Add(12, 12);
    Pow2Add(12, 13);
    assert Pow2(13) == 0x2000;
    Pow2Add(8, 23);
    Pow2Add(8, 24);
    Pow2Add(8, 21);
    Pow2Add(8, 22);
    Pow2Add(11, 52 - 11);
    Pow2Add(24, 28);
    assert Pow2(28) == Pow2(14) * Pow2(14) by { Pow2Add(14, 14); }
    Pow2Add(31, 32);
    Pow2Add(32, 32);
    assert Pow2(41) == Pow2(24) * Pow2(17) by { Pow2Add(24, 17); }
    assert Pow2(17) == Pow2(8) * Pow2(9) by { Pow2Add(8, 9); }
  }
}
