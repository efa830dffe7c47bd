/**
 * A non-negative integer held as a base and a digit list, least-significant
 * digit first, standing for the sum of digits[i] * base^i.
 *
 * The list is a shared, growable array object (DigitList): the library's own
 * constructor adopts the caller's array and reverses it in place, while the
 * bundled build copies it first; add and normalize write into the list in
 * place, and multiply replaces it with a fresh one.
 */
module DigitArrays {
  import opened Wrappers
  import opened Positional
  import opened Limits
  import opened Utils

  /** The order of a digit sequence as given or produced: most-significant first (big) or last (little). */
  datatype Endianness = Big | Little

  /** The stored (least-significant-first) sequence s written in order e. */
  function InOrder<T>(s: seq<T>, e: Endianness): (r: seq<T>)
    ensures |r| == |s|
    ensures forall k :: 0 <= k < |s| ==> r[k] == (if e == Big then s[|s| - 1 - k] else s[k])
  {
    if e == Big then Reversed(s) else s
  }

  /** Putting a sequence in order e twice gives it back. */
  lemma InOrderInvolution<T>(s: seq<T>, e: Endianness)
    ensures InOrder(InOrder(s, e), e) == s
  {
    if e == Big {
      ReversedInvolution(s);
    }
  }

  /** A growable array of digits, shared by whoever holds a reference to it. */
  class DigitList {
    var elems: seq<nat>

    constructor (ds: seq<nat>)
      ensures elems == ds
    {
      elems := ds;
    }

    /** Reverses the array in place. */
    method Reverse()
      modifies this
      ensures elems == Reversed(old(elems))
    {
      elems := Reversed(elems);
    }
  }

  /** The optional second constructor argument: nothing, a number, or an array of digits. */
  datatype Initial = Unspecified | Scalar(n: nat) | List(list: DigitList)

  /** The digit list as add leaves it before normalizing: the value added to the least-significant digit. */
  function AddToLeast(ds: seq<nat>, v: nat): (r: seq<nat>)
    ensures |r| == if ds == [] then 1 else |ds|
  {
    if ds == [] then [v] else ds[0 := ds[0] + v]
  }

  /** Adding v to the least-significant digit adds v to the number. */
  lemma AddToLeastValue(ds: seq<nat>, v: nat, b: int)
    ensures Value(AddToLeast(ds, v), b) == Value(ds, b) + v
  {
    if ds != [] {
      assert AddToLeast(ds, v)[1..] == ds[1..];
    }
  }

  /**
   * add as written: adding to the missing first digit of an empty list stores
   * not-a-number, which normalize then reads as a digit of 0.
   */
  function AddAsWritten(ds: seq<nat>, b: int, v: nat): (r: seq<nat>)
    requires b >= 2
    ensures ds == [] ==> r == [0]
    ensures ds != [] ==> Value(r, b) == Value(ds, b) + v && AllBelow(r, b)
  {
    if ds == [] then
      PropagateIdle([0], b);
      Propagate([0], b, 0)
    else
      AddToLeastValue(ds, v, b);
      PropagateKeepsValue(AddToLeast(ds, v), b);
      Propagate(ds[0 := ds[0] + v], b, 0)
  }

  /** As written, adding to an empty digit list loses the value added: the result stands for 0. */
  lemma AddAsWrittenLosesValueOnEmpty(b: int, v: nat)
    requires b >= 2 && v > 0
    ensures AddAsWritten([], b, v) == [0]
    ensures Value(AddAsWritten([], b, v), b) == 0 != Value([], b) + v
  {
    PropagateIdle([0], b);
  }

  /** Multiplying by at least 1 keeps a non-zero most-significant digit non-zero. */
  lemma ScaledCanonical(ds: seq<nat>, v: nat)
    ensures Canonical(ds) && v >= 1 ==> Canonical(Scaled(ds, v))
  {
  }

  /** Every dividend that normalize divides after multiplying in-range digits by at most MAX_BASE is at most MAX_INT. */
  lemma MultiplyStaysExact(ds: seq<nat>, b: int, v: nat)
    requires IsValidBase(b) && v <= MAX_BASE && AllBelow(ds, b)
    ensures DividendsAtMost(Scaled(ds, v), b, 0, MAX_INT)
  {
    DigitProductExact(b, v);
    ScaledDividendsBounded(ds, b, v, 0, MAX_INT);
  }

  /** Propagating from a zero carry keeps the value and a canonical list canonical. */
  lemma PropagateKeepsValue(ds: seq<nat>, b: int)
    requires b >= 2
    ensures Value(Propagate(ds, b, 0), b) == Value(ds, b)
    ensures Canonical(ds) ==> Canonical(Propagate(ds, b, 0))
  {
    PropagateValue(ds, b, 0);
    if Canonical(ds) {
      PropagateCanonical(ds, b, 0);
    }
  }

  /**
   * One pass of normalize's loop at a position inside the list: writing
   * (digit + carry) mod base there and carrying the quotient on keeps the list
   * a prefix of the full propagation followed by the digits not yet visited.
   */
  lemma NormalizeStepInside(target: seq<nat>, b: int, elems: seq<nat>, i: nat, carry: nat, rest: seq<nat>)
    requires b >= 2 && i < |elems| && elems[i..] == rest
    requires target == elems[..i] + Propagate(rest, b, carry)
    ensures var d := elems[i] + carry;
      && elems[i := d % b][i + 1..] == rest[1..]
      && target == elems[i := d % b][..i + 1] + Propagate(rest[1..], b, d / b)
  {
    var d := elems[i] + carry;
    assert rest[0] == elems[i];
    assert elems[i := d % b][..i + 1] == elems[..i] + [d % b];
  }

  /** One pass of normalize's loop past the end of the list: the remaining carry's digit is appended. */
  lemma NormalizeStepPast(target: seq<nat>, b: int, elems: seq<nat>, carry: nat)
    requires b >= 2 && carry > 0
    requires target == elems + Propagate([], b, carry)
    ensures target == (elems + [carry % b]) + Propagate([], b, carry / b)
    ensures carry / b < carry
  {
    CarryStep(b, carry);
    DivLess(carry, b);
  }

  /**
   * One pass of normalize's loop: the digit at position i (0 past the end) plus
   * the carry is split by the base, the remainder written at i (or appended)
   * and the quotient carried; the invariant moves on by one position, and past
   * the end the carry decreases.
   */
  lemma NormalizeStep(target: seq<nat>, b: int, elems: seq<nat>, i: nat, carry: nat, rest: seq<nat>,
                      digit: nat, next: seq<nat>)
    requires b >= 2 && i <= |elems| && elems[i..] == rest
    requires target == elems[..i] + Propagate(rest, b, carry)
    requires carry > 0 || i < |elems|
    requires digit == if i < |elems| then elems[i] else 0
    requires next == if i < |elems| then elems[i := (digit + carry) % b] else elems + [(digit + carry) % b]
    ensures i + 1 <= |next| && next[i + 1..] == (if rest == [] then [] else rest[1..])
    ensures target == next[..i + 1] + Propagate(if rest == [] then [] else rest[1..], b, (digit + carry) / b)
    ensures rest == [] ==> (digit + carry) / b < carry
  {
    if i < |elems| {
      NormalizeStepInside(target, b, elems, i, carry, rest);
    } else {
      assert elems[..i] == elems;
      NormalizeStepPast(target, b, elems, carry);
      assert next[..i + 1] == next;
    }
  }

  // ---------------------------------------------------------------- Text

  /**
   * The symbol for one digit: the alphabet's character at that position, or
   * nothing for a digit past the end of the alphabet (an undefined entry joins
   * as the empty string).
   */
  function Symbol(d: nat, alphabet: string): (r: string)
    ensures d < |alphabet| ==> r == [alphabet[d]]
    ensures d >= |alphabet| ==> r == ""
  {
    if d < |alphabet| then [alphabet[d]] else ""
  }

  function Symbols(ds: seq<nat>, alphabet: string): (r: seq<string>)
    ensures |r| == |ds| && forall i :: 0 <= i < |ds| ==> r[i] == Symbol(ds[i], alphabet)
  {
    seq(|ds|, i requires 0 <= i < |ds| => Symbol(ds[i], alphabet))
  }

  function Join(parts: seq<string>): string
  {
    if parts == [] then "" else parts[0] + Join(parts[1..])
  }

  /**
   * The text encode produces for stored digits ds: at most one character per
   * digit, every one of them taken from the alphabet.
   */
  function EncodedText(ds: seq<nat>, alphabet: string, e: Endianness): (r: string)
    ensures |r| <= |ds|
    ensures forall k :: 0 <= k < |r| ==> r[k] in alphabet
  {
    var parts := InOrder(Symbols(ds, alphabet), e);
    JoinBounds(parts, alphabet);
    Join(parts)
  }

  lemma {:induction false} JoinBounds(parts: seq<string>, alphabet: string)
    requires forall i :: 0 <= i < |parts| ==> |parts[i]| <= 1 && forall c :: c in parts[i] ==> c in alphabet
    ensures |Join(parts)| <= |parts|
    ensures forall k :: 0 <= k < |Join(parts)| ==> Join(parts)[k] in alphabet
  {
    if parts != [] {
      JoinBounds(parts[1..], alphabet);
      assert Join(parts) == parts[0] + Join(parts[1..]);
      forall k | 0 <= k < |Join(parts)|
        ensures Join(parts)[k] in alphabet
      {
        if k < |parts[0]| {
          assert Join(parts)[k] in parts[0];
        } else {
          assert Join(parts)[k] == Join(parts[1..])[k - |parts[0]|];
        }
      }
    }
  }

  lemma {:induction false} JoinSingletons(parts: seq<string>)
    requires forall i :: 0 <= i < |parts| ==> |parts[i]| == 1
    ensures |Join(parts)| == |parts|
    ensures forall k :: 0 <= k < |parts| ==> Join(parts)[k] == parts[k][0]
  {
    if parts != [] {
      JoinSingletons(parts[1..]);
    }
  }

  /** With every digit inside the alphabet, encode writes one character per digit, in order e. */
  lemma EncodedTextAt(ds: seq<nat>, alphabet: string, e: Endianness)
    requires AllBelow(ds, |alphabet|)
    ensures |EncodedText(ds, alphabet, e)| == |ds|
    ensures forall k :: 0 <= k < |ds| ==> EncodedText(ds, alphabet, e)[k] == alphabet[InOrder(ds, e)[k]]
  {
    var parts := InOrder(Symbols(ds, alphabet), e);
    JoinSingletons(parts);
  }

  /** In an alphabet of distinct characters, two positions holding the same character are one. */
  lemma DistinctPositions(alphabet: string, i: nat, j: nat)
    requires Distinct(alphabet) && i < |alphabet| && j < |alphabet| && alphabet[i] == alphabet[j]
    ensures i == j
  {
  }

  /**
   * A text whose characters stand at the given positions of an alphabet of
   * distinct characters is found in it, and looking it up gives those positions.
   */
  lemma PositionsOfText(text: string, positions: seq<nat>, alphabet: string)
    requires Distinct(alphabet) && |text| == |positions|
    requires forall k :: 0 <= k < |positions| ==> positions[k] < |alphabet| && text[k] == alphabet[positions[k]]
    ensures forall i :: 0 <= i < |text| ==> text[i] in alphabet
    ensures SymbolIndices(text, alphabet) == positions
  {
    var indices := SymbolIndices(text, alphabet);
    forall k | 0 <= k < |positions|
      ensures indices[k] == positions[k]
    {
      DistinctPositions(alphabet, indices[k], positions[k]);
    }
  }

  /**
   * Looking up the characters of the text encode produced, in an alphabet of
   * distinct characters, finds each and gives back the digits in order e.
   */
  lemma EncodedSymbolIndices(ds: seq<nat>, alphabet: string, e: Endianness)
    requires Distinct(alphabet) && AllBelow(ds, |alphabet|)
    ensures forall i :: 0 <= i < |EncodedText(ds, alphabet, e)| ==> EncodedText(ds, alphabet, e)[i] in alphabet
    ensures SymbolIndices(EncodedText(ds, alphabet, e), alphabet) == InOrder(ds, e)
  {
    EncodedTextAt(ds, alphabet, e);
    PositionsOfText(EncodedText(ds, alphabet, e), InOrder(ds, e), alphabet);
  }

  /**
   * Decoding the text that encode produced, with the same alphabet of
   * distinct characters and the same order, finds every character and gives
   * back positions that decode stores as the original digits.
   */
  lemma EncodeDecodeRoundTrip(ds: seq<nat>, alphabet: string, e: Endianness)
    requires Distinct(alphabet) && AllBelow(ds, |alphabet|)
    ensures var text := EncodedText(ds, alphabet, e);
      && (forall i :: 0 <= i < |text| ==> text[i] in alphabet)
      && TextToDigits(text, alphabet) == Success(SymbolIndices(text, alphabet))
      && InOrder(SymbolIndices(text, alphabet), e) == ds
  {
    EncodedSymbolIndices(ds, alphabet, e);
    InOrderInvolution(ds, e);
  }

  // ---------------------------------------------------------------- The digit array

  class DigitArray {
    var base: int
    var digits: DigitList

    ghost predicate Valid()
      reads this
    {
      IsValidBase(base)
    }

    /** The number the digits stand for. */
    function Represented(): int
      reads this, digits
    {
      Value(digits.elems, base)
    }

    /** Every digit lies in [0, base). */
    predicate Normalized()
      reads this, digits
    {
      AllBelow(digits.elems, base)
    }

    /** The array built with no digits argument: the single digit 0. */
    constructor Zero(b: int)
      requires IsValidBase(b)
      ensures Valid() && base == b && fresh(digits)
      ensures digits.elems == [0] && Represented() == 0 && Normalized()
    {
      base := b;
      digits := new DigitList([0]);
      assert Value([0], b) == 0 + b * Value([], b);
    }

    /** The array built from a number n: the single digit n, normalized. */
    constructor FromValue(b: int, n: nat)
      requires IsValidBase(b)
      ensures Valid() && base == b && fresh(digits)
      ensures digits.elems == Propagate([n], b, 0)
      ensures Represented() == n && Normalized()
    {
      base := b;
      digits := new DigitList([n]);
      new;
      assert Value([n], b) == n + b * Value([], b);
      PropagateKeepsValue([n], b);
      Normalize();
    }

    /**
     * The array built from an array of digits, as the library's own source does
     * it: the caller's array itself becomes the digit list, reversed in place
     * when it is given most-significant first. The digits are not normalized.
     */
    constructor FromDigits(b: int, list: DigitList, e: Endianness)
      requires IsValidBase(b)
      modifies list
      ensures Valid() && base == b && digits == list
      ensures digits.elems == InOrder(old(list.elems), e)
    {
      base := b;
      digits := list;
      new;
      if e == Big {
        digits.Reverse();
      }
    }

    /**
     * The array built from an array of digits, as the bundled build does it:
     * a copy of the caller's array, reversed when given most-significant first;
     * the caller's array is left as it was.
     */
    constructor FromDigitsCopy(b: int, list: DigitList, e: Endianness)
      requires IsValidBase(b)
      ensures Valid() && base == b && fresh(digits)
      ensures digits.elems == InOrder(list.elems, e)
    {
      base := b;
      digits := new DigitList(list.elems);
      new;
      if e == Big {
        digits.Reverse();
      }
    }

    /** The library's constructor: checks the base, then builds from what it is given. */
    static method New(b: int, init: Initial, e: Endianness) returns (r: Result<DigitArray, Error>)
      modifies if init.List? then {init.list} else {}
      ensures !IsValidBase(b) ==> r == Failure(CheckBase(b).error)
      ensures !IsValidBase(b) && init.List? ==> init.list.elems == old(init.list.elems)
      ensures IsValidBase(b) ==> r.Success? && fresh(r.value) && r.value.Valid() && r.value.base == b
      ensures IsValidBase(b) && init.Unspecified? ==> fresh(r.value.digits) && r.value.digits.elems == [0]
      ensures IsValidBase(b) && init.Scalar? ==>
        fresh(r.value.digits) && r.value.digits.elems == Propagate([init.n], b, 0) &&
        r.value.Represented() == init.n && r.value.Normalized()
      ensures IsValidBase(b) && init.List? ==>
        r.value.digits == init.list && r.value.digits.elems == InOrder(old(init.list.elems), e)
    {
      var check := CheckBase(b);
      if check.Fail? {
        return Failure(check.error);
      }
      var a: DigitArray;
      if init.Unspecified? {
        a := new DigitArray.Zero(b);
      } else if init.Scalar? {
        a := new DigitArray.FromValue(b, init.n);
      } else {
        a := new DigitArray.FromDigits(b, init.list, e);
      }
      r := Success(a);
    }

    /** The bundled build's constructor: checks the base, then builds from a copy of what it is given. */
    static method NewCopying(b: int, init: Initial, e: Endianness) returns (r: Result<DigitArray, Error>)
      ensures !IsValidBase(b) ==> r == Failure(CheckBase(b).error)
      ensures IsValidBase(b) ==>
        r.Success? && fresh(r.value) && fresh(r.value.digits) && r.value.Valid() && r.value.base == b
      ensures IsValidBase(b) && init.Unspecified? ==> r.value.digits.elems == [0]
      ensures IsValidBase(b) && init.Scalar? ==>
        r.value.digits.elems == Propagate([init.n], b, 0) && r.value.Represented() == init.n && r.value.Normalized()
      ensures IsValidBase(b) && init.List? ==> r.value.digits.elems == InOrder(init.list.elems, e)
    {
      var check := CheckBase(b);
      if check.Fail? {
        return Failure(check.error);
      }
      var a: DigitArray;
      if init.Unspecified? {
        a := new DigitArray.Zero(b);
      } else if init.Scalar? {
        a := new DigitArray.FromValue(b, init.n);
      } else {
        a := new DigitArray.FromDigitsCopy(b, init.list, e);
      }
      r := Success(a);
    }

    /**
     * Carry propagation in place: position by position from the least
     * significant, the digit plus the carry is divided by the base, the
     * remainder stays and the quotient is carried on; positions are appended
     * while a carry remains.
     */
    method Normalize()
      requires Valid()
      modifies digits
      ensures digits.elems == Propagate(old(digits.elems), base, 0)
    {
      ghost var target := Propagate(digits.elems, base, 0);
      ghost var rest := digits.elems;
      var carry: nat := 0;
      var i := 0;
      while carry > 0 || i < |digits.elems|
        invariant i <= |digits.elems| && digits.elems[i..] == rest
        invariant target == digits.elems[..i] + Propagate(rest, base, carry)
        decreases |rest|, carry
      {
        var digit := if i < |digits.elems| then digits.elems[i] else 0;
        var result := Divide(digit + carry, base);
        var remainder: nat := result.remainder;
        var next := if i < |digits.elems| then digits.elems[i := remainder] else digits.elems + [remainder];
        NormalizeStep(target, base, digits.elems, i, carry, rest, digit, next);
        digits.elems := next;
        carry := result.quotient;
        i := i + 1;
        rest := if rest == [] then [] else rest[1..];
      }
      assert digits.elems[..i] == digits.elems;
    }

    /** Adds value to the number: to the least-significant digit, then normalizes. */
    method Add(value: nat)
      requires Valid()
      modifies digits
      ensures digits.elems == Propagate(AddToLeast(old(digits.elems), value), base, 0)
      ensures Represented() == old(Represented()) + value
      ensures Normalized()
      ensures Canonical(old(digits.elems)) ==> Canonical(digits.elems)
    {
      ghost var before := digits.elems;
      if |digits.elems| == 0 {
        digits.elems := [value];
      } else {
        digits.elems := digits.elems[0 := digits.elems[0] + value];
      }
      AddToLeastValue(before, value, base);
      assert Canonical(before) ==> Canonical(digits.elems);
      PropagateKeepsValue(digits.elems, base);
      Normalize();
    }

    /** Multiplies the number by value: every digit into a fresh list, then normalizes. */
    method Multiply(value: nat)
      requires Valid()
      modifies this
      ensures Valid() && base == old(base) && fresh(digits)
      ensures unchanged(old(digits))
      ensures digits.elems == Propagate(Scaled(old(digits.elems), value), base, 0)
      ensures Represented() == value * old(Represented())
      ensures Normalized()
      ensures Canonical(old(digits.elems)) && value >= 1 ==> Canonical(digits.elems)
    {
      var before := digits.elems;
      ghost var scaledValue := value * Value(before, base);
      ScaledValue(before, value, base);
      ScaledCanonical(before, value);
      PropagateKeepsValue(Scaled(before, value), base);
      digits := new DigitList(Scaled(before, value));
      Normalize();
      assert Value(digits.elems, base) == scaledValue;
    }

    /**
     * The same number in base b: starting from zero in base b, the digits are
     * folded in from the most significant, multiplying by this array's base
     * and adding the next digit. The receiver is left as it was.
     */
    method ToBase(b: int) returns (r: Result<DigitArray, Error>)
      requires Valid()
      ensures !IsValidBase(b) ==> r == Failure(CheckBase(b).error)
      ensures IsValidBase(b) ==> r.Success? && fresh(r.value) && fresh(r.value.digits)
      ensures IsValidBase(b) ==> r.value.Valid() && r.value.base == b
      ensures IsValidBase(b) ==> r.value.Represented() == Represented()
      ensures IsValidBase(b) ==> r.value.Normalized() && Canonical(r.value.digits.elems)
    {
      var check := CheckBase(b);
      if check.Fail? {
        return Failure(check.error);
      }
      var other := new DigitArray.Zero(b);
      var i := |digits.elems|;
      while i > 0
        invariant 0 <= i <= |digits.elems|
        invariant fresh(other) && fresh(other.digits) && other.Valid() && other.base == b
        invariant other.Represented() == Value(digits.elems[i..], base)
        invariant other.Normalized() && Canonical(other.digits.elems)
      {
        i := i - 1;
        assert digits.elems[i..][1..] == digits.elems[i + 1..];
        other.Multiply(base);
        other.Add(digits.elems[i]);
      }
      assert digits.elems[0..] == digits.elems;
      r := Success(other);
    }

    /**
     * The digits as text: each digit replaced by the alphabet's character at
     * that position, written most-significant first for big endianness.
     */
    method Encode(alphabet: string, e: Endianness) returns (r: Result<string, Error>)
      ensures r.Failure? <==> |alphabet| < base
      ensures r.Failure? ==> r.error == InsufficientAlphabet(base)
      ensures r.Success? ==> r.value == EncodedText(digits.elems, alphabet, e)
      ensures r.Success? && AllBelow(digits.elems, |alphabet|) ==>
        |r.value| == |digits.elems| &&
        forall k :: 0 <= k < |r.value| ==> r.value[k] == alphabet[InOrder(digits.elems, e)[k]]
    {
      var check := CheckAlphabet(base, alphabet);
      if check.Fail? {
        return Failure(check.error);
      }
      var symbols := Symbols(digits.elems, alphabet);
      if e == Big {
        symbols := Reversed(symbols);
      }
      r := Success(Join(symbols));
      if AllBelow(digits.elems, |alphabet|) {
        EncodedTextAt(digits.elems, alphabet, e);
      }
    }

    /**
     * The library's decode: checks the alphabet, looks every character up in
     * it, reverses for little endianness, and builds through the constructor
     * (which checks the base and reverses once more). Every character of the
     * text must be in the alphabet.
     */
    static method Decode(text: string, b: int, alphabet: string, e: Endianness) returns (r: Result<DigitArray, Error>)
      requires forall i :: 0 <= i < |text| ==> text[i] in alphabet
      ensures |alphabet| < b ==> r == Failure(InsufficientAlphabet(b))
      ensures |alphabet| >= b && !IsValidBase(b) ==> r == Failure(CheckBase(b).error)
      ensures |alphabet| >= b && IsValidBase(b) ==>
        r.Success? && fresh(r.value) && fresh(r.value.digits) && r.value.Valid() && r.value.base == b &&
        r.value.digits.elems == InOrder(SymbolIndices(text, alphabet), e)
    {
      var check := CheckAlphabet(b, alphabet);
      if check.Fail? {
        return Failure(check.error);
      }
      var indices := SymbolIndices(text, alphabet);
      var list := new DigitList(indices);
      if e == Little {
        list.Reverse();
      }
      r := New(b, List(list), Big);
      if e == Little {
        ReversedInvolution(indices);
      }
    }

    /**
     * The bundled build's decode: as Decode, but a character missing from the
     * alphabet is reported, and the constructor copies the digits.
     */
    static method DecodeChecked(text: string, b: int, alphabet: string, e: Endianness)
      returns (r: Result<DigitArray, Error>)
      ensures |alphabet| < b ==> r == Failure(InsufficientAlphabet(b))
      ensures |alphabet| >= b && TextToDigits(text, alphabet).Failure? ==>
        r == Failure(TextToDigits(text, alphabet).error)
      ensures |alphabet| >= b && TextToDigits(text, alphabet).Success? && !IsValidBase(b) ==>
        r == Failure(CheckBase(b).error)
      ensures |alphabet| >= b && TextToDigits(text, alphabet).Success? && IsValidBase(b) ==>
        r.Success? && fresh(r.value) && fresh(r.value.digits) && r.value.Valid() && r.value.base == b &&
        r.value.digits.elems == InOrder(TextToDigits(text, alphabet).value, e)
    {
      var check := CheckAlphabet(b, alphabet);
      if check.Fail? {
        return Failure(check.error);
      }
      var indices := TextToDigits(text, alphabet);
      if indices.Failure? {
        return Failure(indices.error);
      }
      var list := new DigitList(indices.value);
      if e == Little {
        list.Reverse();
      }
      r := NewCopying(b, List(list), Big);
      if e == Little {
        ReversedInvolution(indices.value);
      }
    }

    /** The number, folded from the most-significant digit: n := n * base + digit. */
    method ToNumber() returns (n: int)
      ensures n == Represented()
      ensures n == PositionalSum(digits.elems, base)
    {
      n := 0;
      var i := |digits.elems|;
      while i > 0
        invariant 0 <= i <= |digits.elems|
        invariant n == Value(digits.elems[i..], base)
      {
        i := i - 1;
        assert digits.elems[i..][1..] == digits.elems[i + 1..];
        n := n * base + digits.elems[i];
      }
      assert digits.elems[0..] == digits.elems;
      ValueIsPositionalSum(digits.elems, base);
    }
  }

  /**
   * Converting to base b and back to the original base gives the same number,
   * with no most-significant zero beyond a single 0 digit.
   */
  method ConvertAndBack(a: DigitArray, b: int) returns (r: Result<DigitArray, Error>)
    requires a.Valid()
    ensures !IsValidBase(b) ==> r == Failure(CheckBase(b).error)
    ensures IsValidBase(b) ==>
      r.Success? && r.value.base == a.base && r.value.Represented() == a.Represented() &&
      Canonical(r.value.digits.elems)
  {
    var there := a.ToBase(b);
    if there.Failure? {
      return there;
    }
    r := there.value.ToBase(a.base);
  }

  /** The library's constructor on the array [1] in big-endian order, in base 2, gives the digits [1]. */
  method ListConstructorScenario() returns (r: Result<DigitArray, Error>)
    ensures r.Success? && r.value.base == 2 && r.value.digits.elems == [1]
  {
    var list := new DigitList([1]);
    r := DigitArray.New(2, List(list), Big);
    assert InOrder([1], Big) == [1];
  }

  /** The library's constructor on the number 23 in base 2 gives 1, 1, 1, 0, 1 from the least-significant digit on. */
  method NumberConstructorScenario() returns (r: Result<DigitArray, Error>)
    ensures r.Success? && r.value.base == 2 && r.value.digits.elems == [1, 1, 1, 0, 1]
  {
    r := DigitArray.New(2, Scalar(23), Big);
    ConcreteScenarios();
  }

  /** The worked scenarios: 23 in base 2, and a big-endian array of digits stored least-significant first. */
  lemma ConcreteScenarios()
    ensures Propagate([23], 2, 0) == [1, 1, 1, 0, 1]
    ensures Value([1, 1, 1, 0, 1], 2) == 23
    ensures InOrder([3, 2, 1, 0], Big) == [0, 1, 2, 3]
    ensures InOrder([1], Big) == [1]
  {
    // 23 = 11·2 + 1, and the carry 11 is written 1, 1, 0, 1 in base 2.
    assert CarryDigits(1, 2) == [1];
    assert CarryDigits(2, 2) == [0, 1];
    assert CarryDigits(5, 2) == [1, 0, 1];
    assert CarryDigits(11, 2) == [1, 1, 0, 1];
    assert Propagate([23], 2, 0) == [1] + Propagate([], 2, 11);
  }
}
