/**
 * Positional notation: a digit sequence stored least-significant digit first,
 * the number it stands for, and the carry propagation that brings every digit
 * below the base without changing that number.
 */
module Positional {

  function Pow(b: int, n: nat): int
  {
    if n == 0 then 1 else b * Pow(b, n - 1)
  }

  /** The number ds stands for in base b, in nested form ds[0] + b * (ds[1] + b * (...)). */
  function Value(ds: seq<nat>, b: int): int
  {
    if ds == [] then 0 else ds[0] + b * Value(ds[1..], b)
  }

  /** The same number written as the sum of ds[i] * b^i over every position i. */
  function PositionalSum(ds: seq<nat>, b: int): int
  {
    if ds == [] then 0 else PositionalSum(ds[..|ds| - 1], b) + ds[|ds| - 1] * Pow(b, |ds| - 1)
  }

  /** Every digit lies in [0, b). */
  predicate AllBelow(ds: seq<nat>, b: int)
  {
    forall i :: 0 <= i < |ds| ==> ds[i] < b
  }

  /** At least one digit and no most-significant zero, except for the single digit of zero. */
  predicate Canonical(ds: seq<nat>)
  {
    |ds| >= 1 && (|ds| == 1 || ds[|ds| - 1] != 0)
  }

  function Reversed<T>(s: seq<T>): (r: seq<T>)
    ensures |r| == |s|
    ensures forall k :: 0 <= k < |s| ==> r[k] == s[|s| - 1 - k]
  {
    if s == [] then [] else Reversed(s[1..]) + [s[0]]
  }

  /** Every digit multiplied by v, with no carry applied. */
  function Scaled(ds: seq<nat>, v: nat): (r: seq<nat>)
    ensures |r| == |ds|
    ensures forall i :: 0 <= i < |ds| ==> r[i] == v * ds[i]
  {
    seq(|ds|, i requires 0 <= i < |ds| => v * ds[i])
  }

  /**
   * Carry propagation from the least-significant position on: each position
   * receives (digit + carry) mod b and passes (digit + carry) div b on; past the
   * end of ds the missing digits count as 0 and positions are appended while a
   * carry remains (CarryDigits).
   */
  function Propagate(ds: seq<nat>, b: int, carry: nat): (r: seq<nat>)
    requires b >= 2
    ensures |r| >= |ds|
    ensures AllBelow(r, b)
    ensures |r| > |ds| ==> r[|r| - 1] != 0
  {
    if ds == [] then CarryDigits(carry, b)
    else [(ds[0] + carry) % b] + Propagate(ds[1..], b, (ds[0] + carry) / b)
  }

  /** The digits a carry left over past the end of the list becomes: carry written in base b. */
  function CarryDigits(carry: nat, b: int): (r: seq<nat>)
    requires b >= 2
    ensures r == [] <==> carry == 0
    ensures AllBelow(r, b)
    ensures r != [] ==> r[|r| - 1] != 0
    decreases carry
  {
    if carry == 0 then []
    else
      DivLess(carry, b);
      DivMod(carry, b);
      [carry % b] + CarryDigits(carry / b, b)
  }

  lemma DivLess(d: nat, b: int)
    requires d > 0 && b >= 2
    ensures d / b < d
  {
    assert d == b * (d / b) + d % b;
    assert b * (d / b) >= 2 * (d / b);
  }

  // ---------------------------------------------------------------- Reversal

  /** Reversing twice gives back the original order. */
  lemma ReversedInvolution<T>(s: seq<T>)
    ensures Reversed(Reversed(s)) == s
  {
  }

  // ---------------------------------------------------------------- Value

  /** Appending a most-significant digit d adds d * b^|ds|. */
  lemma {:induction false} ValueAppend(ds: seq<nat>, d: nat, b: int)
    ensures Value(ds + [d], b) == Value(ds, b) + d * Pow(b, |ds|)
  {
    if ds != [] {
      assert (ds + [d])[1..] == ds[1..] + [d];
      ValueAppend(ds[1..], d, b);
      var rest, p := Value(ds[1..], b), Pow(b, |ds| - 1);
      assert Value(ds + [d], b) == ds[0] + b * (rest + d * p);
      Distribute(b, rest, d * p);
      Regroup(b, d, p);
    }
  }

  /** The nested (Horner) form and the sum of ds[i] * b^i agree. */
  lemma {:induction false} ValueIsPositionalSum(ds: seq<nat>, b: int)
    ensures Value(ds, b) == PositionalSum(ds, b)
  {
    if ds != [] {
      var front := ds[..|ds| - 1];
      assert ds == front + [ds[|ds| - 1]];
      ValueAppend(front, ds[|ds| - 1], b);
      ValueIsPositionalSum(front, b);
    }
  }

  lemma {:induction false} PowPositive(b: int, n: nat)
    requires b >= 1
    ensures Pow(b, n) >= 1
  {
    if n > 0 {
      PowPositive(b, n - 1);
      assert b * Pow(b, n - 1) >= Pow(b, n - 1);
    }
  }

  /** In-range digits stand for a number below b^|ds|. */
  lemma {:induction false} ValueBelowPow(ds: seq<nat>, b: int)
    requires b >= 2 && AllBelow(ds, b)
    ensures 0 <= Value(ds, b) < Pow(b, |ds|)
  {
    if ds != [] {
      ValueBelowPow(ds[1..], b);
      var rest, p := Value(ds[1..], b), Pow(b, |ds| - 1);
      assert Value(ds, b) == ds[0] + b * rest && Pow(b, |ds|) == b * p;
      MultiplyMonotone(b, rest, p - 1);
      Distribute(b, p, -1);
    }
  }

  /** A non-zero most-significant digit makes the number at least b^(|ds|-1). */
  lemma {:induction false} TopDigitLowerBound(ds: seq<nat>, b: int)
    requires b >= 1 && |ds| >= 1 && ds[|ds| - 1] != 0
    ensures Value(ds, b) >= Pow(b, |ds| - 1)
  {
    var front := ds[..|ds| - 1];
    assert ds == front + [ds[|ds| - 1]];
    ValueAppend(front, ds[|ds| - 1], b);
    SuffixValueNonNegative(front, b);
    PowPositive(b, |ds| - 1);
    assert ds[|ds| - 1] * Pow(b, |ds| - 1) >= Pow(b, |ds| - 1);
  }

  lemma {:induction false} SuffixValueNonNegative(ds: seq<nat>, b: int)
    requires b >= 1
    ensures Value(ds, b) >= 0
  {
    if ds != [] {
      SuffixValueNonNegative(ds[1..], b);
    }
  }

  /** In-range digits standing for at least b^(|ds|-1) end in a non-zero digit. */
  lemma TopDigitNonZero(ds: seq<nat>, b: int)
    requires b >= 2 && |ds| >= 1 && AllBelow(ds, b)
    requires Value(ds, b) >= Pow(b, |ds| - 1)
    ensures ds[|ds| - 1] != 0
  {
    var front := ds[..|ds| - 1];
    assert ds == front + [ds[|ds| - 1]];
    ValueAppend(front, ds[|ds| - 1], b);
    ValueBelowPow(front, b);
  }

  /**
   * Every suffix of the digits stands for no more than the whole; with the
   * step n * b + d of a most-significant-first fold, this bounds every
   * intermediate of that fold by the final number.
   */
  lemma {:induction false} SuffixValueBounded(ds: seq<nat>, b: int, j: nat)
    requires b >= 1 && j <= |ds|
    ensures 0 <= Value(ds[j..], b) <= Value(ds, b)
    ensures j > 0 ==> Value(ds[j..], b) * b <= Value(ds[j - 1..], b)
  {
    SuffixValueNonNegative(ds[j..], b);
    if j > 0 {
      assert ds[j - 1..][1..] == ds[j..];
      SuffixValueBounded(ds, b, j - 1);
      assert Value(ds[j..], b) <= b * Value(ds[j..], b);
    } else {
      assert ds[0..] == ds;
    }
  }

  /** Multiplying every digit by v multiplies the number by v. */
  lemma {:induction false} ScaledValue(ds: seq<nat>, v: nat, b: int)
    ensures Value(Scaled(ds, v), b) == v * Value(ds, b)
  {
    if ds != [] {
      assert Scaled(ds, v)[1..] == Scaled(ds[1..], v);
      ScaledValue(ds[1..], v, b);
      var rest := Value(ds[1..], b);
      assert Value(Scaled(ds, v), b) == v * ds[0] + b * (v * rest);
      Regroup(b, v, rest);
      Distribute(v, ds[0], b * rest);
    }
  }

  // ---------------------------------------------------------------- Carry propagation

  /** Past the end of the list, a remaining carry contributes its remainder and carries its quotient on. */
  lemma CarryStep(b: int, carry: nat)
    requires b >= 2 && carry > 0
    ensures Propagate([], b, carry) == [carry % b] + Propagate([], b, carry / b)
  {
  }

  /** The digits a carry becomes stand for the carry. */
  lemma {:induction false} CarryDigitsValue(carry: nat, b: int)
    requires b >= 2
    ensures Value(CarryDigits(carry, b), b) == carry
    decreases carry
  {
    if carry > 0 {
      DivLess(carry, b);
      CarryDigitsValue(carry / b, b);
      ValueCons(carry % b, CarryDigits(carry / b, b), b);
      DivMod(carry, b);
    }
  }

  /** Carry propagation adds the incoming carry to the number and changes nothing else. */
  lemma {:induction false} PropagateValue(ds: seq<nat>, b: int, carry: nat)
    requires b >= 2
    ensures Value(Propagate(ds, b, carry), b) == Value(ds, b) + carry
  {
    if ds == [] {
      CarryDigitsValue(carry, b);
    } else {
      var d := ds[0] + carry;
      var tail := Propagate(ds[1..], b, d / b);
      PropagateValue(ds[1..], b, d / b);
      CarryArithmetic(ds[0], carry, b, Value(ds[1..], b), Value(tail, b));
      ValueCons(d % b, tail, b);
    }
  }

  /** The value of a digit put in front of a list. */
  lemma ValueCons(h: nat, t: seq<nat>, b: int)
    ensures Value([h] + t, b) == h + b * Value(t, b)
  {
    assert ([h] + t)[1..] == t;
  }

  lemma CarryArithmetic(x: nat, carry: nat, b: int, restValue: int, tailValue: int)
    requires b >= 2 && tailValue == restValue + (x + carry) / b
    ensures (x + carry) % b + b * tailValue == x + b * restValue + carry
  {
    var d := x + carry;
    DivMod(d, b);
    Distribute(b, restValue, d / b);
  }

  lemma DivMod(d: nat, b: int)
    requires b >= 2
    ensures d == b * (d / b) + d % b && 0 <= d % b < b && d / b >= 0
  {
  }

  lemma Distribute(b: int, x: int, y: int)
    ensures b * (x + y) == b * x + b * y
  {
  }

  lemma Regroup(b: int, d: int, p: int)
    ensures b * (d * p) == d * (b * p)
  {
  }

  lemma MultiplyMonotone(b: int, x: int, y: int)
    requires b >= 0 && x <= y
    ensures b * x <= b * y
  {
  }

  lemma SmallDivMod(d: nat, b: int)
    requires 0 <= d < b
    ensures d % b == d && d / b == 0
  {
  }

  /** Digits already below the base with no incoming carry are left as they are. */
  lemma {:induction false} PropagateIdle(ds: seq<nat>, b: int)
    requires b >= 2 && AllBelow(ds, b)
    ensures Propagate(ds, b, 0) == ds
  {
    if ds != [] {
      SmallDivMod(ds[0], b);
      PropagateIdle(ds[1..], b);
    }
  }

  /** Propagation keeps a canonical sequence canonical: it never leaves a new most-significant zero. */
  lemma PropagateCanonical(ds: seq<nat>, b: int, carry: nat)
    requires b >= 2 && Canonical(ds)
    ensures Canonical(Propagate(ds, b, carry))
  {
    var r := Propagate(ds, b, carry);
    if |r| == |ds| && |ds| >= 2 {
      TopDigitLowerBound(ds, b);
      PropagateValue(ds, b, carry);
      TopDigitNonZero(r, b);
    }
  }

  /**
   * Every dividend the propagation of ds with the incoming carry divides by
   * the base is at most limit.
   */
  predicate DividendsAtMost(ds: seq<nat>, b: int, carry: nat, limit: int)
    requires b >= 2
  {
    if ds == [] then CarryAtMost(carry, b, limit)
    else ds[0] + carry <= limit && DividendsAtMost(ds[1..], b, (ds[0] + carry) / b, limit)
  }

  /** Every carry left over past the end of the list, and so divided by the base, is at most limit. */
  predicate CarryAtMost(carry: nat, b: int, limit: int)
    requires b >= 2
    decreases carry
  {
    if carry == 0 then true
    else
      DivLess(carry, b);
      carry <= limit && CarryAtMost(carry / b, b, limit)
  }

  /** Carries past the end only shrink, so the first one bounds them all. */
  lemma {:induction false} CarryAtMostFirst(carry: nat, b: int, limit: int)
    requires b >= 2 && carry <= limit
    ensures CarryAtMost(carry, b, limit)
    decreases carry
  {
    if carry > 0 {
      DivLess(carry, b);
      CarryAtMostFirst(carry / b, b, limit);
    }
  }

  /**
   * Propagation after multiplying in-range digits by v, with an incoming carry of
   * at most v, never divides a dividend above b * v, and passes on carries of
   * at most v.
   */
  lemma {:induction false} ScaledDividendsBounded(ds: seq<nat>, b: int, v: nat, carry: nat, limit: int)
    requires b >= 2 && AllBelow(ds, b) && carry <= v && b * v <= limit
    ensures DividendsAtMost(Scaled(ds, v), b, carry, limit)
  {
    if ds == [] {
      ScaledDigitBound(0, b, v, carry);
      CarryAtMostFirst(carry, b, limit);
    } else {
      var s := Scaled(ds, v);
      ScaledDigitBound(ds[0], b, v, carry);
      assert s[0] == v * ds[0] && s[1..] == Scaled(ds[1..], v);
      assert AllBelow(ds[1..], b);
      ScaledDividendsBounded(ds[1..], b, v, (v * ds[0] + carry) / b, limit);
    }
  }

  lemma ScaledDigitBound(digit: nat, b: int, v: nat, carry: nat)
    requires b >= 2 && digit < b && carry <= v
    ensures v * digit + carry <= b * v
    ensures 0 <= (v * digit + carry) / b <= v
  {
    MultiplyMonotone(v, digit, b - 1);
    Distribute(v, b - 1, 1);
    assert v * b == b * v;
    QuotientAtMost(v * digit + carry, b, v);
  }

  /** A dividend of at most b * v has a quotient of at most v. */
  lemma QuotientAtMost(d: nat, b: int, v: nat)
    requires b >= 2 && d <= b * v
    ensures 0 <= d / b <= v
  {
    var q := d / b;
    DivMod(d, b);
    if q > v {
      MultiplyMonotone(b, v + 1, q);
      Distribute(b, v, 1);
      assert false;
    }
  }
}
