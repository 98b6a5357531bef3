# Roman numerals with vinculum, modelled in Dafny

This project models the numeral library of a small Roman-numeral converter
web site. The library converts integers 1..3,999,999 into Roman numerals. Values
of 4000 and above use the vinculum: a bar over a letter multiplies it by 1000.
It also parses numerals back and checks user input. The model covers two parts.

* The library `romanNumerals.ts`:
  * the three tables;
  * the segment encoder `toRomanSegments`;
  * the plain encoder `toRoman`;
  * the marked-string encoder `toRomanString`, which writes U+0305 COMBINING
    OVERLINE after every barred letter;
  * the decoder `fromRoman`;
  * the validator `isValidRoman`;
  * the two input classifiers `looksLikeRoman` and `looksLikeArabic`.
* The display component `RomanDisplay.tsx`:
  * the `-` placeholder of `RomanDisplay`;
  * the loop in `RomanText` that splits a marked string back into barred and
    plain runs.

Files and modules:

| file | module | what |
|---|---|---|
| `js_text.dfy` | `JsText` | `toUpperCase` (ASCII letters) and `trim` (the ECMAScript white-space and line-terminator set) |
| `symbols.dfy` | `RomanSymbols` | the tables; a logical symbol (letter plus vinculum flag), its weight, and its written form |
| `encode.dfy` | `RomanEncode` | the two greedy loops as methods, proved against the specification functions `Greedy`/`Gather`/`Segments` and `PlainGreedy`/`Plain` |
| `decode.dfy` | `RomanDecode` | the cursor loop of `fromRoman` as a method, proved against the specification function `Scan` |
| `roundtrip.dfy` | `RomanRoundTrip` | `fromRoman(toRomanString(n)) == n` on the whole range |
| `validate.dfy` | `RomanValidate` | `isValidRoman`, `looksLikeRoman`, `looksLikeArabic` |
| `display.dfy` | `RomanDisplay` | the placeholder, and the `RomanText` loop proved against the specification function `Split` |
| `worked_cases.dfy` | `RomanExamples` | cases from the library's test file, proved on the model |

The main results:

* `RoundTrip`: decoding what `toRomanString` writes gives back the number, for
  every n in 1..3,999,999.
* `PlainAgreesWithExtended`: on 1..3999 the extended encoder yields one plain
  segment that holds exactly what `toRoman` yields.
* `SplitOfEncoded`: splitting the marked string `toRomanString(n)` recovers
  `toRomanSegments(n)`.
* `IsValidRoman`: a string is valid exactly when its upper-cased, trimmed form is
  what the encoder writes for some number in range.

The decoder is modelled by its cursor loop. The decoder reads each logical
symbol, a letter with an optional U+0305 after it, and subtracts the symbol when
the next logical symbol is worth more. `Tally` states the same rule over a list of
symbols. `ScanRender` proves that scanning a written symbol list gives its tally.
The round trip then follows from three table facts, proved row by row:

* every row is one letter of the row's value, or a pair whose smaller letter is at
  most half the larger;
* the vinculum is on exactly the rows worth 4000 or more;
* values descend strictly.

Together these mean that at each seam between rows the last symbol of a row
weighs at least as much as the first symbol of the next row, so nothing is
subtracted there.

`fromRoman` returns 0 in three cases:

* the normalised input is empty;
* it holds a character that is neither a table letter nor U+0305;
* it holds only U+0305 marks.

The third case follows from the code, where stray marks are skipped. `DecodeZero`
proves that these are the only cases: every other input gives a positive total.

## Model

| member | source | states |
|---|---|---|
| RomanSymbols.ExtendedRowsWellFormed | mysite/src/utils/romanNumerals.ts:27-64 | every row of the extended table uses only letters of the decoder's map; a single letter weighs the row's value, and a two-letter row has a smaller letter (at most half) before a larger one whose difference is the value; the vinculum is on exactly the rows worth at least 4000 |
| RomanSymbols.ExtendedDescends | mysite/src/utils/romanNumerals.ts:27-53 | the extended table has 25 rows; values descend strictly and end at 1; the first twelve rows carry the vinculum and are worth at least 4000; the rest are plain and worth less than 4000 |
| RomanSymbols.ExtendedFromStandard | mysite/src/utils/romanNumerals.ts:10-53 | the extended table is the first twelve rows of the plain table times 1000 with a vinculum, followed by all thirteen plain rows unchanged |
| RomanSymbols.WeightGap | mysite/src/utils/romanNumerals.ts:56-64 | two different letter weights, with or without the factor 1000, are at least a factor of two apart |
| RomanEncode.ToRomanSegments | mysite/src/utils/romanNumerals.ts:70-92 | the loop returns the greedy segments; the result is empty exactly when num is outside 1..3,999,999; segments are non-empty and neighbours differ in their vinculum flag |
| RomanEncode.ToRoman | mysite/src/utils/romanNumerals.ts:98-114 | the loop returns the greedy plain numeral, which is empty exactly when num is outside 1..3999 |
| RomanEncode.GreedySum | mysite/src/utils/romanNumerals.ts:76-89 | the values the greedy loop emits sum to the amount it starts with, so nothing remains |
| RomanEncode.GreedyShape | mysite/src/utils/romanNumerals.ts:78-89 | the greedy loop emits well-formed table rows in non-increasing value order, none above the row where it starts |
| RomanEncode.GreedySkipsVinculum | mysite/src/utils/romanNumerals.ts:78-79 | below 4000 none of the vinculum rows is taken |
| RomanEncode.GreedyStartsWithVinculum | mysite/src/utils/romanNumerals.ts:78-79 | from 4000 on, the first row taken carries the vinculum |
| RomanEncode.GreedyMatchesPlain | mysite/src/utils/romanNumerals.ts:78-89 | from the plain rows on, the extended loop spells exactly what the plain loop of toRoman spells, and every row it takes is plain |
| RomanEncode.GatherUniform | mysite/src/utils/romanNumerals.ts:80-86 | numerals that share one flag are merged into a single segment holding their concatenation |
| RomanEncode.GatherShape | mysite/src/utils/romanNumerals.ts:80-86 | merging keeps segments non-empty and alternating; when vinculum rows come before plain ones, at most two segments result, the barred one first |
| RomanEncode.SegmentsFacts | mysite/src/utils/romanNumerals.ts:70-92 | the segments are empty exactly out of range; they alternate; there are at most two, the barred one first; the emitted values sum to num |
| RomanEncode.PlainFacts | mysite/src/utils/romanNumerals.ts:98-101 | toRoman is empty exactly outside 1..3999 |
| RomanEncode.PlainAgreesWithExtended | mysite/src/utils/romanNumerals.ts:70-114 | on 1..3999 the segment encoder gives a single plain segment whose text is toRoman's non-empty result |
| RomanEncode.GatherRenders | mysite/src/utils/romanNumerals.ts:120-134 | writing out the merged segments is writing out the rows' symbols in order, so merging does not change the marked string |
| RomanEncode.ToRomanString | mysite/src/utils/romanNumerals.ts:120-134 | the segments written out and joined in order: in a vinculum segment each letter is followed by U+0305, and plain segments are copied as they are; ToRomanStringSpells, ToRomanStringOverline and RoundTrip state what it yields |
| RomanEncode.ToRomanStringSpells | mysite/src/utils/romanNumerals.ts:120-134 | the marked string is each greedy row's letters, with U+0305 after every letter of a vinculum row |
| RomanEncode.ToRomanStringOverline | mysite/src/utils/romanNumerals.ts:120-134 | up to 3999 the marked string equals toRoman; it contains U+0305 exactly when num is at least 4000; it is non-empty and uses only letters and U+0305 |
| RomanDecode.FromRoman | mysite/src/utils/romanNumerals.ts:140-151 | fromRoman returns Decode: 0 for an empty normalised input, otherwise what the cursor loop computes |
| RomanDecode.ScanLoop | mysite/src/utils/romanNumerals.ts:150-209 | the cursor loop returns the scan total, and 0 at the first character outside the table |
| RomanDecode.LookAhead | mysite/src/utils/romanNumerals.ts:177-195 | the lookahead yields the value of the logical symbol at the next index (times 1000 when U+0305 follows it), or 0 when no letter is there |
| RomanDecode.ScanOutcome | mysite/src/utils/romanNumerals.ts:153-209 | the scan fails exactly when some character is neither a letter nor U+0305; otherwise its total is non-negative, positive exactly when there is a letter, and at least the value of the head symbol |
| RomanDecode.DecodeZero | mysite/src/utils/romanNumerals.ts:140-209 | fromRoman never returns a negative number, and returns 0 exactly when the normalised input is empty, holds an illegal character, or holds no letter |
| RomanDecode.DecodeNormalizes | mysite/src/utils/romanNumerals.ts:145 | fromRoman ignores case and surrounding white space |
| RomanDecode.ScanRender | mysite/src/utils/romanNumerals.ts:153-209 | scanning the written form of legal symbols gives their tally, the subtract-when-the-next-is-larger sum |
| RomanDecode.TallyAppend | mysite/src/utils/romanNumerals.ts:198-203 | tallies of two parts add up when the last symbol of the first weighs at least the first symbol of the second |
| RomanRoundTrip.RowTally | mysite/src/utils/romanNumerals.ts:27-64 | a table row tallies to its value; its first symbol weighs no more than the value and its last symbol no less |
| RomanRoundTrip.TallySpelled | mysite/src/utils/romanNumerals.ts:78-89 | the tally of descending well-formed rows is the sum of their values |
| RomanRoundTrip.NormalizeKeepsRoman | mysite/src/utils/romanNumerals.ts:145 | a string made of letters and U+0305 is unchanged by upper-casing and trimming |
| RomanRoundTrip.RoundTrip | mysite/src/utils/romanNumerals.ts:120-209 | fromRoman(toRomanString(n)) == n for every n in 1..3,999,999 |
| RomanRoundTrip.PlainRoundTrip | mysite/src/utils/romanNumerals.ts:98-209 | fromRoman(toRoman(n)) == n for every n in 1..3999 |
| RomanRoundTrip.ToRomanStringInjective | mysite/src/utils/romanNumerals.ts:120-134 | different numbers in range are written differently |
| RomanValidate.WrittenFacts | mysite/src/utils/romanNumerals.ts:215-242 | anything the encoder writes is non-empty and legal, is its own normalisation, and decodes to the number that writes it |
| RomanValidate.CheckChars | mysite/src/utils/romanNumerals.ts:226-230 | the character loop accepts exactly the strings made only of table letters and U+0305 |
| RomanValidate.IsValidRoman | mysite/src/utils/romanNumerals.ts:215-242 | a string is valid exactly when its normalised form is what toRomanString writes for some number in 1..3,999,999; when valid, it is what the encoder writes for its own decoded value |
| RomanValidate.LooksLikeRoman | mysite/src/utils/romanNumerals.ts:247-265 | accepts exactly the inputs whose normalised form is non-empty and made of table letters and U+0305 |
| RomanValidate.ValidLooksRoman | mysite/src/utils/romanNumerals.ts:215-265 | every valid numeral also looks like a Roman numeral |
| RomanValidate.DecodeOfShape | mysite/src/utils/romanNumerals.ts:140-265 | fromRoman returns 0 on anything looksLikeRoman rejects; on what it accepts, the result is positive exactly when there is a letter |
| RomanValidate.MatchDigits | mysite/src/utils/romanNumerals.ts:272 | the pattern ^\d+$ matches exactly the non-empty strings of ASCII digits |
| RomanValidate.LooksLikeArabic | mysite/src/utils/romanNumerals.ts:270-273 | true exactly when the trimmed input is a non-empty run of ASCII digits |
| RomanValidate.ArabicNotRoman | mysite/src/utils/romanNumerals.ts:247-273 | no input looks both Arabic and Roman |
| RomanValidate.WrittenNotArabic | mysite/src/utils/romanNumerals.ts:120-134 | nothing the encoder writes looks Arabic |
| RomanDisplay.DisplayView | mysite/src/components/RomanDisplay.tsx:8-22 | the placeholder `-` is shown exactly for values outside 1..3,999,999; otherwise the spans are exactly the encoder's segments for the value, non-empty and alternating |
| RomanDisplay.RomanText | mysite/src/components/RomanDisplay.tsx:40-69 | the loop returns the split runs: non-empty and alternating, carrying every character except U+0305 in order, each flagged exactly when U+0305 follows it |
| RomanDisplay.SplitFacts | mysite/src/components/RomanDisplay.tsx:40-69 | the runs alternate; they carry the text's characters with their flags; their concatenated texts are the text with every U+0305 removed; there are no runs exactly when nothing but marks is left, so empty text gives none |
| RomanDisplay.FlaggedRender | mysite/src/components/RomanDisplay.tsx:47-65 | reading a written symbol list character by character gives the symbols back |
| RomanDisplay.GatherSymbolsSpelled | mysite/src/components/RomanDisplay.tsx:56-62 | merging letter by letter gives the same runs as the encoder's merging numeral by numeral |
| RomanDisplay.SplitOfEncoded | mysite/src/components/RomanDisplay.tsx:40-69 | splitting toRomanString(n) gives back toRomanSegments(n) for every n in range |
| RomanExamples.FourStrokes | mysite/src/utils/romanNumerals.test.ts:181 | "IIII" decodes to 4, but it is not a valid numeral because the encoder writes 4 as "IV" |
| RomanExamples.LowerCaseYear | mysite/src/utils/romanNumerals.test.ts:168 | "mcmxciv" decodes to 1994 |
| RomanExamples.NotRoman | mysite/src/utils/romanNumerals.test.ts:180 | "ABC" decodes to 0 |
| RomanExamples.FourThousand | mysite/src/utils/romanNumerals.test.ts:71-76 | 4000 gives one barred segment "IV", and toRomanString writes it as I, U+0305, V, U+0305 (the test at lines 112-116) |
| RomanExamples.FourThousandFiveHundred | mysite/src/utils/romanNumerals.test.ts:78-85 | 4500 gives a barred "IV" segment followed by a plain "D" segment |
| RomanExamples.PlainYear | mysite/src/utils/romanNumerals.test.ts:50 | toRoman(1994) is "MCMXCIV" |
| JsText.UpperChar | mysite/src/utils/romanNumerals.ts:145 | upper-casing a character never yields a lower-case letter and keeps white space as white space; a lower-case ASCII letter moves to its upper-case form, and every other character is kept |
| JsText.Upper | mysite/src/utils/romanNumerals.ts:145 | upper-casing keeps the length and maps every character through the ASCII upper-case rule |
| JsText.Trim | mysite/src/utils/romanNumerals.ts:271 | the trimmed string is no longer than the input and has no white space at either end; which slice it is follows from the `TrimStart` and `TrimEnd` contracts (leading and trailing white space dropped) |
| JsText.TrimStart | mysite/src/utils/romanNumerals.ts:271 | the result is a suffix of the input; everything dropped is white space, and the result does not start with white space |
| JsText.TrimEnd | mysite/src/utils/romanNumerals.ts:271 | the result is a prefix of the input; everything dropped is white space, and the result does not end with white space |
| JsText.TrimUpperCommute | mysite/src/utils/romanNumerals.ts:145 | trimming and upper-casing commute |
| JsText.Normalize | mysite/src/utils/romanNumerals.ts:145 | toUpperCase, then trim; NormalizeIdempotent, NormalizeUpper and NormalizeTrim state its properties |
| JsText.NormalizeIdempotent | mysite/src/utils/romanNumerals.ts:145 | normalising twice is normalising once |
| JsText.NormalizeUpper | mysite/src/utils/romanNumerals.ts:145 | upper-casing before normalising changes nothing |
| JsText.NormalizeTrim | mysite/src/utils/romanNumerals.ts:145 | trimming before normalising changes nothing |

## Left out

- `randomInRange` and `DIFFICULTY_RANGES` (romanNumerals.ts:278-291): random numbers and quiz settings, not part of the numeral logic.
- The `Number.isInteger` and `typeof` guards: inputs are Dafny `int` and `string`, so non-integer numbers, `null` and other types cannot occur.
- JsText.Upper: upper-cases ASCII `a`..`z` only. JavaScript's `toUpperCase` maps all of Unicode, for example `ı` (U+0131) becomes `I`, so it can turn non-ASCII input into a table letter; the model does not capture that.
- JsText.Trim: strips a fixed list of code points. This is the ECMAScript white-space and line-terminator set as of ES2023, including U+FEFF.
- Strings are sequences of code points, while JavaScript indexes UTF-16 code units. In `romanNumerals.ts` this makes no difference: every character the library compares against is in the Basic Multilingual Plane, and a surrogate half is neither a table letter, U+0305, white space nor a lower-case ASCII letter, so it is rejected exactly where the whole character is.
- RomanDisplay.RomanText: reads code points, not UTF-16 code units, so it differs from the component on a character outside the Basic Multilingual Plane followed by U+0305. For example, the component splits an emoji followed by U+0305 into a plain part holding the high surrogate and a barred part holding the low one; the model returns one barred part holding the whole emoji. Such text never reaches the component: its callers pass only `toRomanString` output or input that `fromRoman` accepted, and both consist of table letters and U+0305 alone.
- The regular expression engine: `/^\d+$/` is modelled by the recursive matcher `MatchDigits`.
- All JSX and React rendering: `RomanDisplay` is modelled as a choice between a dash and the segment list, and `RomanText` as the list of parts it renders.
- RomanEncode.ToRomanSegments: the source mutates `lastSegment.text` in place through an alias into the array. The model reassigns the last element of a sequence instead; no other alias can observe the change here.
- RomanDecode.ScanLoop and RomanDecode.LookAhead: these are parts of `fromRoman`'s body (the loop and the lookahead block) that the model states as separate methods. The steps and their order are the same.
- RomanValidate.CheckChars: the character loop that `isValidRoman` and `looksLikeRoman` share is one method in the model.
- `looksLikeRoman` accepts a string made only of U+0305 marks, while `fromRoman` returns 0 for it. The model keeps that behaviour, and `DecodeOfShape` states it.
- A doubled mark after a letter, such as I followed by two U+0305 and then a barred V, is read differently by the two readers. The decoder's lookahead stops at the second mark, so the barred I is added rather than subtracted. `RomanText` drops the extra mark and reads a barred I and a barred V. No property is claimed for such input, since the encoder never writes it.
