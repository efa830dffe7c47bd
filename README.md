# digit-array in Dafny

A model of the digit-array library: a non-negative integer held as a base `b`
and a list of digits stored least-significant first, standing for
Σ digits[i]·b^i. The library normalizes digits by carry propagation, adds and
multiplies in place, converts between bases by a Horner fold built from
multiply and add, encodes digits as text through a caller's alphabet (and
decodes text back), and folds the digits back into a number.

The repository carries this logic twice: in `src/` and in the bundled build
`DigitArray.js`. The two differ in two places, and both variants are modelled:

- the `src` constructor adopts the caller's array and reverses it in place
  (`DigitArray.FromDigits`, `DigitArray.New`); the bundle copies it first
  (`DigitArray.FromDigitsCopy`, `DigitArray.NewCopying`);
- the `src` decode looks characters up without checking them, so it is
  modelled with a precondition that every character is in the alphabet
  (`DigitArray.Decode`); the bundle's decode goes through `textToDigits` and
  reports the first unknown character (`DigitArray.DecodeChecked`).

Modules:

- `Wrappers` — `Option`, `Result` and `Outcome` for the library's thrown errors.
- `Positional` — the specification functions: `Value` (nested Horner form),
  `PositionalSum` (Σ ds[i]·b^i), `Propagate` (what normalize computes),
  `Scaled`, `Reversed`, and the lemmas about them.
- `Limits` — `MAX_INT`, `MIN_BASE`, `MAX_BASE` and their relations.
- `Utils` — `checkBase`, `checkAlphabet`, `divide`, and the bundle's `textToDigits`.
- `DigitArrays` — the `DigitArray` class with fields `base` and `digits`.
  The digit array is a `DigitList` object (a shared, growable array), so
  it is visible when two holders share one array.

Three facts about the code shape the model:

- the `src` constructor adopts the caller's array and reverses that array
  itself (src/DigitArray.js:26-27), so the caller sees the change;
- `textToDigits` rebuilds its character-to-position map on every call
  (DigitArray.js:246-247); nothing is cached between calls;
- an empty array passed to the constructor, or decoding the empty text, gives
  an empty digit list, so the model allows the empty list everywhere.

Text is a sequence of `char`. In the model each `char` stands for one UTF-16
code unit, the unit in which the library measures, indexes and splits strings
(`alphabet.length`, `alphabet[digit]`, `split('')`).

## Model

| member | source | states |
|---|---|---|
| Limits.MaxIntIsTwoToThe53MinusOne | src/constants.js:2 | MAX_INT is 2^53 − 1 |
| Limits.MaxBaseIsFloorSqrt | src/constants.js:5-8 | MAX_BASE² ≤ MAX_INT < (MAX_BASE+1)², so MAX_BASE is the floor of √MAX_INT; MIN_BASE ≤ MAX_BASE, so some base is valid |
| Limits.DigitProductExact | src/constants.js:7-8 | the product of two numbers each at most MAX_BASE (two digits, or a digit and a base) is at most MAX_INT |
| Utils.CheckBase | src/utils.js:6-10 | passes exactly for bases in [MIN_BASE, MAX_BASE]; below the range it reports the too-small error, above it the too-large one |
| Utils.CheckBaseBoundaries | src/utils.js:8-9 | 2 and MAX_BASE are accepted; 0, 1 and MAX_BASE+1 are rejected with the matching error |
| Utils.CheckAlphabet | src/utils.js:17-19 | fails if and only if the alphabet is shorter than the base (equal length passes), with the insufficient-alphabet error |
| Utils.Divide | src/utils.js:29-36 | for a positive divisor, the quotient and remainder are the Euclidean ones: remainder in [0, divisor), quotient non-negative for a non-negative dividend |
| Utils.DivideRoundsDown | src/utils.js:29-36 | dividend = quotient·divisor + remainder; the quotient is the floor of dividend/divisor for either sign of the divisor |
| Utils.DivideShrinks | src/utils.js:30 | for a positive dividend and a divisor ≥ 2 the quotient is below the dividend, so normalize's carry dies out |
| Utils.LastIndexOf | DigitArray.js:246-247 | the symbol map's lookup: None exactly when the character is absent; otherwise a position holding it with no later position holding it (later entries overwrite earlier ones) |
| Utils.LastIndexOfDistinct | DigitArray.js:246-247 | in an alphabet of distinct characters, the lookup of the character at k is k |
| Utils.SymbolIndices | DigitArray.js:249-253 | one position per text character, in text order; each is the last position of that character in the alphabet |
| Utils.TextToDigits | DigitArray.js:245-254 | succeeds exactly when every character is in the alphabet, with the last-index positions in text order; otherwise fails with the first character of the text missing from the alphabet |
| Positional.ValueIsPositionalSum | src/DigitArray.js:8-10 | the nested form ds[0] + b·(ds[1] + …) equals Σ ds[i]·b^i |
| Positional.ValueAppend | src/DigitArray.js:8-10 | appending a most-significant digit d adds d·b^\|ds\| |
| Positional.ValueBelowPow | src/DigitArray.js:8-10 | in-range digits stand for a number below b^\|ds\| |
| Positional.Propagate | src/DigitArray.js:87-97 | the result of carry propagation never shrinks, has every digit in [0, b), and any digit it appends at the top is non-zero |
| Positional.CarryDigits | src/DigitArray.js:90-94 | the positions appended past the end while a carry remains: none exactly when the carry is 0, all in [0, b), the last one non-zero |
| Positional.CarryDigitsValue | src/DigitArray.js:90-94 | the appended positions stand for the leftover carry |
| Positional.PropagateValue | src/DigitArray.js:67-85 | propagation with an incoming carry c adds exactly c to the number (so normalize, with c = 0, keeps it) |
| Positional.PropagateIdle | src/DigitArray.js:87-97 | digits already in [0, b) are left unchanged by normalize |
| Positional.PropagateCanonical | src/DigitArray.js:87-97 | propagation never creates a most-significant zero: a non-empty list without one stays without one |
| Positional.ScaledValue | src/DigitArray.js:49-57 | multiplying every digit by v multiplies the number by v |
| Positional.SuffixValueBounded | src/DigitArray.js:175-184 | each intermediate of the most-significant-first fold, and its product with the base, is at most the final number, so the fold is exact whenever the number is at most MAX_INT |
| Positional.ScaledDividendsBounded | src/DigitArray.js:62-64 | after multiplying in-range digits by v, every dividend normalize divides is at most b·v |
| Positional.CarryAtMostFirst | src/DigitArray.js:90-94 | past the end of the list the carries only shrink, so the first bounds them all |
| Positional.ReversedInvolution | src/DigitArray.js:27 | reversing twice gives back the original order |
| Positional.Reversed | src/DigitArray.js:27 | the array's built-in reversal: same length, position k holds the element at \|s\|−1−k (also used at src/DigitArray.js:138 and 162) |
| Positional.Scaled | src/DigitArray.js:63 | multiply's `map`: every digit multiplied by the factor, no carry applied, length kept |
| DigitArrays.InOrder | src/DigitArray.js:26-27 | the stored list written in order e: reversed for big, unchanged for little, element by element |
| DigitArrays.InOrderInvolution | src/DigitArray.js:153-165 | converting to order e and back restores the list (decode's reversal and the constructor's cancel) |
| DigitArrays.DigitList.Reverse | src/DigitArray.js:27 | reverses the shared array in place |
| DigitArrays.AddToLeast | src/DigitArray.js:45 | the digits add leaves before normalizing: one position for an empty list (the corrected case, see Findings), otherwise as many as before; AddToLeastValue gives its number |
| DigitArrays.AddToLeastValue | src/DigitArray.js:31-47 | adding v to the least-significant digit (a missing one counts as 0) adds v to the number |
| DigitArrays.AddAsWritten | src/DigitArray.js:44-47 | add as written: on an empty list the result is [0]; on a non-empty list it stands for the old number plus v, with every digit in [0, b) |
| DigitArrays.AddAsWrittenLosesValueOnEmpty | src/DigitArray.js:44-47 | as written, adding v > 0 to an empty list gives [0], which stands for 0, not v |
| DigitArrays.ScaledCanonical | src/DigitArray.js:62-64 | multiplying by v ≥ 1 keeps a non-zero most-significant digit non-zero |
| DigitArrays.MultiplyStaysExact | src/DigitArray.js:62-64 | with a valid base, in-range digits and v ≤ MAX_BASE, every dividend normalize divides after multiply is at most MAX_INT |
| DigitArrays.PropagateKeepsValue | src/DigitArray.js:67-85 | normalizing keeps the number and keeps a canonical list canonical |
| DigitArrays.Symbol | src/DigitArray.js:135-140 | one digit's text: the alphabet's character at the digit when it is inside the alphabet; otherwise the undefined entry, which joins as the empty string |
| DigitArrays.EncodedText | src/DigitArray.js:132-141 | encode's text: at most one character per digit, every character taken from the alphabet |
| DigitArrays.EncodedTextAt | src/DigitArray.js:132-141 | with every digit inside the alphabet, encode writes one character per digit: the alphabet's character at the digit, in order e |
| DigitArrays.PositionsOfText | DigitArray.js:245-254 | a text whose characters stand at given positions of an alphabet of distinct characters is found in it, and looking it up gives those positions |
| DigitArrays.EncodedSymbolIndices | src/DigitArray.js:132-165 | looking up the characters of encode's text gives back the digits in order e |
| DigitArrays.EncodeDecodeRoundTrip | DigitArray.js:144-174 | with a distinct-character alphabet covering the digits, decoding encode's text finds every character, and the positions decode stores are the original digits |
| DigitArrays.DigitArray.Zero | src/DigitArray.js:16-29 | with no digits argument the digits are [0] |
| DigitArrays.DigitArray.FromValue | src/DigitArray.js:22-24 | from a number n: digits are the propagation of [n], stand for n and lie in [0, base) |
| DigitArrays.DigitArray.FromDigits | src/DigitArray.js:25-28 | from an array: the caller's array itself becomes the digit list, reversed in place under big endianness and left as it is under little |
| DigitArrays.DigitArray.FromDigitsCopy | DigitArray.js:37-40 | from an array: a fresh copy becomes the digit list, reversed under big endianness; the caller's array is not touched |
| DigitArrays.DigitArray.New | src/DigitArray.js:16-29 | checks the base first (its error, with the caller's array untouched); otherwise builds [0], a number's digits (the carry propagation of [n], standing for n, in range), or adopts the caller's array in order e |
| DigitArrays.DigitArray.NewCopying | DigitArray.js:28-41 | as New (a number gives the carry propagation of [n]), with a fresh copy of the caller's array |
| DigitArrays.DigitArray.Normalize | src/DigitArray.js:87-97 | the digit list becomes the carry propagation of the old list (see Propagate, PropagateValue, PropagateCanonical) |
| DigitArrays.DigitArray.Add | src/DigitArray.js:44-47 | the number grows by exactly value; the digits are the propagation of the old ones with value added to the least-significant digit, all in [0, base); a canonical list stays canonical |
| DigitArrays.DigitArray.Multiply | src/DigitArray.js:62-65 | the number is multiplied by value; a fresh list replaces the digits (the old list is untouched), all in [0, base); base unchanged |
| DigitArrays.DigitArray.ToBase | src/DigitArray.js:113-122 | fails on an invalid base; otherwise a fresh array in the new base standing for the same number, digits in range and canonical; the receiver is not modified |
| DigitArrays.DigitArray.Encode | src/DigitArray.js:132-141 | fails exactly when the alphabet is shorter than the base; otherwise the joined symbols in order e, one alphabet character per in-range digit |
| DigitArrays.DigitArray.Decode | src/DigitArray.js:153-165 | alphabet check first, then base check; otherwise the stored digits are the text's alphabet positions put back into storage order (reversed for big) |
| DigitArrays.DigitArray.DecodeChecked | DigitArray.js:165-174 | checks in the order alphabet length, unknown character, base; otherwise as Decode, with a fresh copied list |
| DigitArrays.DigitArray.ToNumber | src/DigitArray.js:175-184 | the most-significant-first fold gives the number the digits stand for, Σ digits[i]·base^i |
| DigitArrays.ConvertAndBack | src/DigitArray.js:113-122 | converting to another base and back gives the same number in the original base, without most-significant zeros |
| DigitArrays.ConcreteScenarios | test/DigitArray.tests.js:9-12 | 23 in base 2 is [1,1,1,0,1]; the big-endian array [3,2,1,0] is stored as [0,1,2,3]; [1] is stored as [1] |
| DigitArrays.ListConstructorScenario | test/DigitArray.tests.js:9-12 | the library constructor in base 2 on the big-endian array [1] gives the digits [1] |
| DigitArrays.NumberConstructorScenario | src/DigitArray.js:22-24 | the library constructor on the number 23 in base 2 gives the digits [1,1,1,0,1], least-significant first |

## Left out

- Module plumbing (the UMD wrapper, `require`, `module.exports`) and the build script: not behaviour.
- The integrality test in checkBase (`typeof` / `Math.floor`): bases are `int`, so only the two range checks remain.
- Floating point: the model computes with unbounded integers. So `Math.floor(dividend / divisor)` is exact, and `toNumber` is exact even above MAX_INT, where the library only approximates. `DigitArrays.MultiplyStaysExact` bounds multiply's dividends by MAX_INT, and `Positional.SuffixValueBounded` bounds toNumber's intermediates by the final number. Add's dividend `digits[0] + value` is not bounded, and the model does not show that the double division in divide is exact for dividends up to MAX_INT.
- Negative and non-integer operands to add and multiply, and negative digits: never checked by the library; the model takes them as `nat`.
- An omitted endianness argument: the library defaults it to big. The model passes `Endianness` explicitly, and `Big` is that default.
- Characters outside the Basic Multilingual Plane: the library measures, indexes and splits alphabets and texts by UTF-16 code unit, so a character such as an emoji counts as two positions there. The model matches the library only for alphabets and texts whose every character is one UTF-16 code unit. For an alphabet holding such characters, encode can emit a lone surrogate and decode can return a different position; `DigitArrays.EncodeDecodeRoundTrip` does not cover that case.
- Thrown message strings: modelled as `Utils.Error` values carrying the offending base or character, not the message text.
- DigitArrays.DigitArray.Decode: requires every character of the text to be in the alphabet. For an unknown character the library stores `undefined` as a digit, which has no counterpart among natural-number digits.
- DigitArrays.DigitList.Reverse: the built-in array reversal, modelled by its effect rather than by a loop.
- DigitArrays.DigitArray.Add: models the corrected behaviour on an empty digit list (see Findings). `DigitArrays.AddAsWritten` models the code as written.
- DigitArrays.DigitArray.Normalize: its contract states only the new digit list. The facts about that list (digits in range, value kept, canonical form kept) are lemmas about `Propagate`, which Add, Multiply and FromValue apply.
- Method chaining (add, multiply and normalize return the receiver): modelled as methods without a result.

## Findings

| source | as written | input that shows it | evidently intended | confidence | as-written member | corrected member |
|---|---|---|---|---|---|---|
| src/DigitArray.js:44-47 (and DigitArray.js:56-59) | add writes value into position 0 even when the digit list is empty. That position is missing, so it stores not-a-number, and normalize reads that as 0. | `new DigitArray(10, [])` then `add(5)`: the digits become [0] and the number stays 0 | the value is added as if the missing digit were 0, giving 5 | not executed | DigitArrays.AddAsWritten, DigitArrays.AddAsWrittenLosesValueOnEmpty | DigitArrays.DigitArray.Add |
