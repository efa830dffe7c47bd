/**
 * The numeric limits that bound the base: the largest integer a double-precision
 * number holds exactly, and the range of bases whose digit products stay below it.
 */
module Limits {
  import opened Positional

  /** The largest integer a double-precision number represents exactly, 2^53 - 1. */
  const MAX_INT: int := 0x1F_FFFF_FFFF_FFFF

  /** The smallest base accepted. */
  const MIN_BASE: int := 2

  /** The largest base accepted: the floor of the square root of MAX_INT. */
  const MAX_BASE: int := 94906265

  /** A base is accepted when it lies in [MIN_BASE, MAX_BASE], both ends included. */
  predicate IsValidBase(base: int)
  {
    MIN_BASE <= base <= MAX_BASE
  }

  lemma {:induction false} PowAdd(b: int, m: nat, n: nat)
    ensures Pow(b, m + n) == Pow(b, m) * Pow(b, n)
  {
    if n > 0 {
      PowAdd(b, m, n - 1);
      assert Pow(b, m + n) == b * Pow(b, m + n - 1);
    }
  }

  /** MAX_INT is 2^53 - 1. */
  lemma MaxIntIsTwoToThe53MinusOne()
    ensures MAX_INT == Pow(2, 53) - 1
  {
    assert Pow(2, 10) == 1024;
    PowAdd(2, 10, 10);
    PowAdd(2, 20, 20);
    PowAdd(2, 40, 10);
    assert Pow(2, 3) == 8;
    PowAdd(2, 50, 3);
  }

  /** MAX_BASE is the floor of the square root of MAX_INT: its square fits, the next square does not. */
  lemma MaxBaseIsFloorSqrt()
    ensures MAX_BASE * MAX_BASE <= MAX_INT < (MAX_BASE + 1) * (MAX_BASE + 1)
    ensures MIN_BASE <= MAX_BASE
  {
  }

  /** The product of two numbers of at most MAX_BASE (two digits, or a digit and a base) is at most MAX_INT. */
  lemma DigitProductExact(x: nat, y: nat)
    requires x <= MAX_BASE && y <= MAX_BASE
    ensures x * y <= MAX_INT
  {
    assert x * y <= MAX_BASE * y;
    assert MAX_BASE * y <= MAX_BASE * MAX_BASE;
  }
}
