/**
 * Validation of bases and alphabets, the floor division used by carry
 * propagation, and the mapping from text to alphabet positions.
 */
module Utils {
  import opened Wrappers
  import opened Limits
  import opened Positional

  /** The failures the library reports (it throws them as message strings). */
  datatype Error =
    | BaseBelowMinimum(base: int)
    | BaseAboveMaximum(base: int)
    | InsufficientAlphabet(base: int)
    | UnknownSymbol(symbol: char)

  /** Rejects a base below MIN_BASE, then a base above MAX_BASE. */
  function CheckBase(base: int): (r: Outcome<Error>)
    ensures r.Pass? <==> IsValidBase(base)
    ensures base < MIN_BASE ==> r == Fail(BaseBelowMinimum(base))
    ensures base > MAX_BASE ==> r == Fail(BaseAboveMaximum(base))
  {
    if base < MIN_BASE then Fail(BaseBelowMinimum(base))
    else if base > MAX_BASE then Fail(BaseAboveMaximum(base))
    else Pass
  }

  /** The boundary bases: 2 and MAX_BASE are accepted, 0, 1 and MAX_BASE + 1 are not. */
  lemma CheckBaseBoundaries()
    ensures CheckBase(MIN_BASE) == Pass && CheckBase(MAX_BASE) == Pass
    ensures CheckBase(0) == Fail(BaseBelowMinimum(0)) && CheckBase(1) == Fail(BaseBelowMinimum(1))
    ensures CheckBase(MAX_BASE + 1) == Fail(BaseAboveMaximum(MAX_BASE + 1))
  {
  }

  /** Rejects an alphabet with fewer symbols than the base; one of exactly base symbols passes. */
  function CheckAlphabet(base: int, alphabet: string): (r: Outcome<Error>)
    ensures r.Pass? <==> |alphabet| >= base
    ensures r.Fail? ==> r.error == InsufficientAlphabet(base)
  {
    if |alphabet| < base then Fail(InsufficientAlphabet(base)) else Pass
  }

  datatype Division = Division(quotient: int, remainder: int)

  /**
   * Division with the quotient rounded down (towards negative infinity) and the
   * remainder dividend - quotient * divisor. For a positive divisor these are
   * the Euclidean quotient and remainder; DivideRoundsDown states the general case.
   */
  function Divide(dividend: int, divisor: int): (r: Division)
    requires divisor != 0
    ensures divisor > 0 ==> r.quotient == dividend / divisor && r.remainder == dividend % divisor
    ensures divisor > 0 ==> 0 <= r.remainder < divisor
    ensures dividend >= 0 && divisor > 0 ==> r.quotient >= 0
  {
    // Dafny's / is Euclidean; for a negative divisor the rounded-down quotient
    // is that of the negated operands.
    var q := if divisor > 0 then dividend / divisor else (-dividend) / (-divisor);
    if divisor > 0 then
      FloorQuotient(dividend, divisor);
      Division(q, dividend - q * divisor)
    else
      Division(q, dividend - q * divisor)
  }

  /**
   * The quotient is the floor of dividend / divisor for either sign of the
   * divisor, the remainder completes the division, and it lies in [0, divisor)
   * for a positive divisor.
   */
  lemma DivideRoundsDown(dividend: int, divisor: int)
    requires divisor != 0
    ensures var r := Divide(dividend, divisor);
      && dividend == r.quotient * divisor + r.remainder
      && (divisor > 0 ==> r.quotient * divisor <= dividend < (r.quotient + 1) * divisor)
      && (divisor < 0 ==> (r.quotient + 1) * divisor < dividend <= r.quotient * divisor)
      && (divisor > 0 ==> 0 <= r.remainder < divisor)
  {
    if divisor > 0 {
      FloorQuotient(dividend, divisor);
    } else {
      var q := (-dividend) / (-divisor);
      assert Divide(dividend, divisor) == Division(q, dividend - q * divisor);
      FloorQuotient(-dividend, -divisor);
      NegatedBounds(q, dividend, divisor);
    }
  }

  lemma NegatedBounds(q: int, a: int, b: int)
    requires q * -b <= -a < (q + 1) * -b
    ensures (q + 1) * b < a <= q * b
  {
    assert q * -b == -(q * b);
    assert (q + 1) * -b == -((q + 1) * b);
  }

  /** Dividing a positive number by at least 2 gives a smaller quotient: carries die out. */
  lemma DivideShrinks(dividend: int, divisor: int)
    requires dividend > 0 && divisor >= 2
    ensures Divide(dividend, divisor).quotient < dividend
  {
    FloorQuotient(dividend, divisor);
  }

  /** Facts about Euclidean division by a positive divisor. */
  lemma FloorQuotient(a: int, b: int)
    requires b > 0
    ensures (a / b) * b <= a < (a / b + 1) * b
    ensures a - (a / b) * b == a % b
    ensures a >= 0 ==> a / b >= 0
    ensures a > 0 && b >= 2 ==> a / b < a
  {
    var q, m := a / b, a % b;
    assert a == b * q + m && 0 <= m < b;
    assert q * b == b * q;
    Distribute(b, q, 1);
    assert (q + 1) * b == b * (q + 1);
    if a >= 0 && q < 0 {
      MultiplyMonotone(b, q, -1);
      assert false;
    }
    if a > 0 && b >= 2 && q > 0 {
      MultiplyMonotone(q, 2, b);
    }
  }

  /** No two positions of the alphabet hold the same character. */
  predicate Distinct(alphabet: string)
  {
    forall i, j :: 0 <= i < j < |alphabet| ==> alphabet[i] != alphabet[j]
  }

  /**
   * The position of c in the alphabet; for a repeated character the last one,
   * as the symbol table built in alphabet order lets later entries overwrite
   * earlier ones.
   */
  function LastIndexOf(alphabet: string, c: char): (r: Option<nat>)
    ensures r.None? <==> c !in alphabet
    ensures r.Some? ==> r.value < |alphabet| && alphabet[r.value] == c
    ensures r.Some? ==> forall j :: r.value < j < |alphabet| ==> alphabet[j] != c
  {
    if |alphabet| == 0 then None
    else if alphabet[|alphabet| - 1] == c then Some(|alphabet| - 1)
    else LastIndexOf(alphabet[..|alphabet| - 1], c)
  }

  /** In an alphabet of distinct characters, the position of a character is where it stands. */
  lemma LastIndexOfDistinct(alphabet: string, k: nat)
    requires Distinct(alphabet) && k < |alphabet|
    ensures LastIndexOf(alphabet, alphabet[k]) == Some(k)
  {
  }

  /** The positions of the characters of a text all found in the alphabet, in text order. */
  function SymbolIndices(text: string, alphabet: string): (r: seq<nat>)
    requires forall i :: 0 <= i < |text| ==> text[i] in alphabet
    ensures |r| == |text|
    ensures forall i :: 0 <= i < |text| ==> r[i] < |alphabet| && alphabet[r[i]] == text[i]
    ensures forall i, j :: 0 <= i < |text| && r[i] < j < |alphabet| ==> alphabet[j] != text[i]
  {
    seq(|text|, i requires 0 <= i < |text| => LastIndexOf(alphabet, text[i]).value)
  }

  /**
   * The positions of the characters of a text, in text order, or the first
   * character of the text that the alphabet does not hold.
   */
  function TextToDigits(text: string, alphabet: string): (r: Result<seq<nat>, Error>)
    ensures r.Success? <==> forall i :: 0 <= i < |text| ==> text[i] in alphabet
    ensures r.Success? ==> r.value == SymbolIndices(text, alphabet)
    ensures r.Failure? ==>
      exists k :: 0 <= k < |text| && text[k] !in alphabet && r.error == UnknownSymbol(text[k]) &&
                  forall j :: 0 <= j < k ==> text[j] in alphabet
  {
    if text == [] then Success([])
    else match LastIndexOf(alphabet, text[0])
      case None => Failure(UnknownSymbol(text[0]))
      case Some(index) =>
        match TextToDigits(text[1..], alphabet)
        case Failure(e) => Failure(e)
        case Success(rest) => Success([index] + rest)
  }
}
