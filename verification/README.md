# Thousands grouping of the salary calculator, in Dafny

The salary calculator's helpers in `utils/index.ts` show amounts with '.'
as the thousands separator and read them back:

- `toFormattedAmount(amount)` turns the amount into a string and applies
  `replace(/\B(?=(\d{3})+(?!\d))/g, '.')`.
- `fromFormattedAmount(amount)` returns 0 for the empty string. Otherwise
  it deletes every '.' and applies `parseFloat`.
- `sum(...args)` adds its arguments. A falsy argument counts as 0.

The model follows the regular expression itself, not a paraphrase of it:

- `Grouping.NotBoundary` is `\B` over ASCII `\w`.
- `Grouping.TriplesToEnd` is the lookahead `(\d{3})+(?!\d)`, written as a
  recursive backtracking matcher.
- `Grouping.ReplaceFrom` is the global replace. Its matches are empty, so
  every position `0..|s|` is tried once, and each match puts a '.' in
  front of that position.

Lemmas then turn this into plain statements. A '.' goes in front of a
digit that follows a word character when the digit run starting there has
a length divisible by three. For an `n`-digit string that means "before
index `i` exactly when `0 < i < n` and `n - i` is a multiple of 3".

The regular expression looks at word characters, not only at digits.
A letter or `_` in front of a digit run counts like a digit, so `a123`
becomes `a.123`. A non-word character such as '-' or '.' splits the
string, and each side is grouped on its own. So `1234.5678` becomes
`1.234.5.678`: the fraction digits are grouped too, from their own right
end. The model follows the code here. Describing the grouping in terms of
digits alone covers only the digit-string case.

`DigitGroups.Chunks` is an independent reference grouping: a leading group
of 1–3 digits, then groups of three. The output, split at its dots, is
exactly that grouping.

`parseFloat` is modelled on integers, and its result is a `Float`:

- Leading ECMAScript whitespace is skipped and an optional sign is read.
  The longest digit run is then read as an exact integer (`Integral`).
- A fraction, an exponent or `Infinity` gives `Other`: the model does not
  compute that value.
- No digits gives `NaN`.

An amount is `Text(s)` or `Number(n)`, where `n` is a safe integer
(`|n| <= 2^53 - 1`). For such `n`, `toString` prints exactly its decimal
digits, and the model writes them with `Numbers.IntToString`.

The functions that compute the model are:

- `Amounts.ToFormattedAmount` for `toFormattedAmount` (utils/index.ts:42-44);
- `Amounts.FromFormattedAmount` for `fromFormattedAmount` (utils/index.ts:50-56);
- `Numbers.ParseFloat` for the `parseFloat` call at utils/index.ts:55;
- `Summation.Sum` for `sum` (utils/index.ts:20-24).

Nothing in the model reads a clock, does I/O, or depends on the runtime
environment.

## Model

| member | source | states |
|---|---|---|
| Grouping.TriplesToEndIff | utils/index.ts:43 | the lookahead `(\d{3})+(?!\d)` holds at a position exactly when the digit run starting there has a positive length divisible by 3 (both directions) |
| Grouping.MatchAtIff | utils/index.ts:43 | the pattern matches at position `i` exactly when `s[i]` is a digit, `s[i-1]` exists and is a word character, and the digit run from `i` has a length divisible by 3 |
| Grouping.DigitMatchAt | utils/index.ts:43 | for a digit string of length `n`, a '.' is inserted before index `i` exactly when `0 < i < n` and `(n - i) % 3 == 0` |
| Grouping.GroupKeepsEnds | utils/index.ts:43 | no '.' is inserted first or last: the output of a nonempty string starts with its first character and ends with its last |
| Grouping.ReplaceOnlyInsertsDots | utils/index.ts:43 | only dots are inserted: deleting the dots from the replace output gives the input with its dots deleted |
| Grouping.GroupThenStrip | utils/index.ts:43-55 | deleting every '.' from `toFormattedAmount(s)` (the deletion of line 55) gives back `s` when `s` has no dots |
| Grouping.MatchShift | utils/index.ts:43 | after a character that is not a word character, whether the pattern matches at a position depends only on the text that follows that character |
| Grouping.MatchBefore | utils/index.ts:43 | in front of a character that is not a word character, whether the pattern matches at a position depends only on the text before that character |
| Grouping.GroupSplitsAtNonWord | utils/index.ts:43 | a character that is not a word character (a sign, a decimal point) splits the grouping: `a + c + b` is grouped as the grouping of `a`, then `c`, then the grouping of `b` |
| Grouping.GroupAfterNonWord | utils/index.ts:43 | `\B` fails after a non-word character such as '-', so `c + d` is grouped as `c` followed by the grouping of `d` |
| DigitGroups.GroupDigits | utils/index.ts:43 | a nonempty digit string is written as its leading 1–3 digits, then '.' and three digits for each later group |
| DigitGroups.ReplaceOneTriple | utils/index.ts:43 | in a digit string, a group of three digits that starts a multiple of three positions before the end (and not at the start) gets one '.' in front and none inside |
| DigitGroups.GroupLength | utils/index.ts:43 | the output for `n` digits has `n + (n - 1) / 3` characters |
| DigitGroups.SplitGroup | utils/index.ts:43 | splitting the output of a digit string at its dots gives exactly the reference grouping `Chunks` |
| DigitGroups.ChunksShape | utils/index.ts:43 | the reference grouping has `(n - 1) / 3 + 1` groups, a first group of 1–3 digits, later groups of exactly 3 digits, and concatenates back to the input |
| DigitGroups.GroupShape | utils/index.ts:43 | in the output of a digit string, the first group has 1–3 digits, every later group has exactly 3, all are digits, and together they spell the input |
| Chars.DigitRun | utils/index.ts:43 | the length of the maximal run of `\d` characters starting at an index: all digits inside, none right after |
| Chars.StripDots | utils/index.ts:55 | `replace(/\./g, '')` leaves no '.' and never lengthens the string |
| Chars.StripDotsNoDots | utils/index.ts:55 | deleting dots from a dot-free string leaves it unchanged |
| Chars.StripDotsAppend | utils/index.ts:55 | deleting dots distributes over concatenation |
| Chars.StripDotBetween | utils/index.ts:55 | a single '.' between two dot-free strings is deleted and nothing else is |
| Numbers.NatToDigits | utils/index.ts:43 | the `toString` digits of a natural number are nonempty digits, with a leading '0' only for 0 |
| Numbers.DigitsOfNat | utils/index.ts:43 | reading the printed digits of `n` back gives `n` |
| Numbers.NatOfDigits | utils/index.ts:43 | a digit string without a superfluous leading zero is the printed form of its value, so digit strings and naturals correspond one to one |
| Numbers.TrimStart | utils/index.ts:55 | `parseFloat` skips exactly the leading WhiteSpace and LineTerminator characters: what remains is a suffix that does not start with whitespace |
| Numbers.ParseDigitsThen | utils/index.ts:55 | `parseFloat` reads the longest digit prefix: digits followed by a character that cannot continue the literal parse to the digits' value |
| Numbers.ParseDigits | utils/index.ts:55 | a nonempty digit string parses to its value, and the empty string to NaN |
| Numbers.ParseNegative | utils/index.ts:55 | a leading '-' negates the parsed value |
| Numbers.ParseIntToString | utils/index.ts:55 | `parseFloat` of the printed integer `n` is `n` |
| Amounts.FromFormattedEmpty | utils/index.ts:51-53 | `fromFormattedAmount("")` is 0, while `"."` is NaN because it is not empty but deletes to the empty string |
| Amounts.FromFormattedNumber | utils/index.ts:50-56 | a safe-integer argument reads back as itself |
| Amounts.RoundTripDigits | utils/index.ts:43-55 | for a digit string `s`, `fromFormattedAmount(toFormattedAmount(s))` is the value of `s` (0 for the empty string) |
| Amounts.RoundTripNegative | utils/index.ts:43-55 | for `"-" + d`, the sign stays in front of the groups and the round trip gives minus the value of `d` |
| Amounts.RoundTripNumber | utils/index.ts:43-55 | for every safe integer `n`, `fromFormattedAmount(toFormattedAmount(n))` is `n` |
| Amounts.ToFormattedExample | utils/index.ts:42-44 | `toFormattedAmount(1234567)` is `"1.234.567"` |
| Amounts.FromFormattedExample | utils/index.ts:50-56 | `fromFormattedAmount("1.234.567")` is 1234567 |
| Amounts.NegativeExample | utils/index.ts:43 | `toFormattedAmount("-1234")` is `"-1.234"` |
| Amounts.DecimalPointDeleted | utils/index.ts:55 | a decimal point is deleted like a thousands separator: `a.b` reads the same as `a` and `b` run together, namely the value of those digits (`"1.5"` reads as 15) |
| Amounts.FractionExample | utils/index.ts:43 | `toFormattedAmount("1234.5678")` is `"1.234.5.678"`: the digits after a decimal point are grouped as a number of their own |
| Summation.SumAppend | utils/index.ts:20-24 | the left fold of `reduce` over two runs of arguments is the sum of the two folds |
| Summation.SumOfTruthy | utils/index.ts:20-24 | `sum` equals the plain sum of its truthy arguments, so falsy ones (0, null, undefined) contribute nothing |
| Summation.SumDropsFalsy | utils/index.ts:22 | removing a falsy argument from any place leaves the sum unchanged |
| Summation.SumExamples | utils/index.ts:20-24 | `sum()` is 0 and `sum(1, 0, null, 3)` is 4 |

## Left out

- `roundDecimals` (utils/index.ts:8-14) is not modelled. Apart from its falsy guard it is binary floating point: `Math.round`, `parseFloat` of a fraction, and `toFixed`.
- `formatPrice` (utils/index.ts:32-35) is not modelled. It depends on that rounding, on JavaScript's number-to-string conversion of fractions, and on Vue's `toRaw` of a `MaybeRef`.
- `isClient` / `isServer` (utils/index.ts:58-59) are not modelled. They test the runtime environment and compute nothing.
- `nuxt.config.ts` is not modelled. It is declarative framework configuration.
- Number arguments are only safe integers. `toString` of fractions, of integers above 2^53 and of values written with an exponent is float formatting, which the model does not cover. Text arguments are grouped as the regular expression does it, whatever they contain, fraction digits included.
- Numbers.ParseFloat: returns the exact value of the digits, where JavaScript rounds a value above 2^53 to the nearest double. It also reports fractions, exponents and `Infinity` as `Other` without computing their value, and reads `-0` as 0.
- Amounts.RoundTripDigits: holds exactly only because `ParseFloat` is exact. In JavaScript it holds for values up to 2^53.
- Amounts.RoundTripNegative: the value is exact for digit strings of any length. In JavaScript it holds only up to 2^53: `"-9007199254740993"` reads back as -9007199254740992.
- Numbers.ParseDigits: the value is exact for digit strings of any length. JavaScript's `parseFloat` rounds a value above 2^53 to the nearest double.
- Numbers.ParseNegative: the value is exact for digit strings of any length, where JavaScript rounds above 2^53. `"-0"` reads as 0 rather than -0.
- Numbers.ParseDigitsThen: the value of the digit prefix is exact for any length, where JavaScript rounds above 2^53.
- Amounts.FromFormattedNumber: covers only safe integers. A fractional number argument has its decimal point deleted along with the dots, so `fromFormattedAmount(1.5)` is 15. The model shows the same deletion on text: `Amounts.DecimalPointDeleted` proves that `a.b` reads as the digits of `a` and `b` run together.
- Strings are sequences of Unicode scalar values, where JavaScript uses UTF-16 code units. A character outside the Basic Multilingual Plane is one character here and two code units in JavaScript, so positions differ. A lone surrogate has no counterpart here. For every well-formed string the inserted dots and the output text are the same, since every character class involved is ASCII.
- Summation.Sum: arguments are integers, null or undefined. String arguments (which make `+` concatenate), booleans, NaN, fractions and double rounding of large sums are not modelled.
