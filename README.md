# Developer-tool helpers of the tool API, in Dafny

The tool API (`src/routes/api.js`) is an Express router. Most of its endpoints are
thin wrappers around a few self-contained helpers that compute over strings and
integers. This project models those helpers and proves properties about them:

- **`numberToChinese`** writes a non-negative integer in everyday Chinese numerals
  (module `ChineseNumber`).
- **`numberToRMBChinese`** and its inner **`sectionToChinese`** write an integer
  amount in formal banker's numerals, followed by 元整 (module `RmbNumber`).
- Both share one digit-loop rendering, the clean-up chain of 零 replacements, and a
  reader that gives the value a numeral denotes (module `Numerals`).
- **`convertCase`** has seven forms, each a global regular-expression replacement.
  Each replacement is modelled as a left-to-right, non-overlapping scan (module
  `CaseConvert`).
- **`parseCron`** and the validity test of the cron endpoint (module `Cron`).
- The **colour converter**: `#RRGGBB` to `rgb(r, g, b)` and back (module `Color`).
- **`generatePassword`**, with the random 32-bit words as an input (module
  `Password`).
- **`generateUUIDv4`**, with the random nibbles as an input (module `Uuid`).

Module `JsText` holds the JavaScript meanings the helpers rely on:
- the classes `\s`, `\w` and `[A-Z]`;
- ASCII `toUpperCase`/`toLowerCase`;
- `Number.prototype.toString` in bases 10 and 16;
- the digit reading of `parseInt`.

The source's loops and step-by-step string building are methods in the model, each
proved equal to a specification function:
- the digit loop of `numberToChinese`: `ChineseNumber.NumberToChinese`;
- the `needZero` loop of `sectionToChinese`: `RmbNumber.SectionToChinese`;
- the outer section loop of `numberToRMBChinese`: `RmbNumber.HigherText`, called by
  the straight-line `RmbNumber.NumberToRmbChinese`;
- the appends that build the pool: `Password.ChooseChars` (straight-line code);
- the drawing loop of `generatePassword`: `Password.GeneratePassword`.

The pure helpers are functions. The properties are proved about those functions.

To say what a numeral *means*, `Numerals.Read` evaluates a string of digit, unit and
section characters the usual way. Small units (十/百/千 and 拾/佰/仟) multiply the
digit before them. Section units (万, 亿, 兆) close the group before them.
Read-back lemmas state that the text written for a number evaluates to that number.

## Model

| member | source | states |
|---|---|---|
| `JsText.UpperIdempotent` | src/routes/api.js:309-310 | upper-casing twice is upper-casing once, and lower-casing ignores an earlier upper-casing |
| `JsText.LowerIdempotent` | src/routes/api.js:309-310 | lower-casing twice is lower-casing once, and upper-casing ignores an earlier lower-casing |
| `JsText.HexRoundTrip` | src/routes/api.js:177 | reading back the base-16 digits `toString(16)` writes gives the number |
| `JsText.DecimalRoundTrip` | src/routes/api.js:174-177 | reading back the decimal digits `toString()` writes gives the number |
| `JsText.HexDigitsOfByte` | src/routes/api.js:177 | `toString(16)` of a value below 256 has one digit below 16 and two digits otherwise |
| `Numerals.RenderStep` | src/routes/api.js:200-209  | one turn of either digit loop keeps "rendering of the remaining digits + text so far" unchanged; the text then starts with a non-zero digit exactly when the digit was not 0 |
| `Numerals.RenderShape` | src/routes/api.js:200-209  | the rendering never has two 零 in a row; it starts with a non-zero digit when the number is positive; it is empty for 0; it ends in 零 only if the number is a multiple of 10 and the text already written after it starts with a non-zero digit |
| `Numerals.RenderAvoids` | src/routes/api.js:200-209  | a character that is no digit, in no unit and not in "undefined" never appears in a rendering |
| `Numerals.SameRendering` | src/routes/api.js:194-195  | tables that agree on the digits and on the units of the positions a number occupies render it alike |
| `Numerals.CollapseZerosShape` | src/routes/api.js:212  | `replace(/零+/g, '零')` leaves no 零 run; it keeps every other character in order; it keeps emptiness and whether the text starts with 零; each run becomes exactly one 零 (see `Numerals.CollapseZerosMerge`) |
| `Numerals.CollapseZerosMerge` | src/routes/api.js:212 | two adjacent 零 collapse exactly like one, wherever they stand; with `Numerals.CollapseZerosIdentity` this fixes the result on every text: each run of 零 is replaced by a single 零 |
| `Numerals.CollapseZerosIdentity` | src/routes/api.js:212 | `replace(/零+/g, '零')` leaves a text without 零 runs unchanged |
| `Numerals.TrimTrailingZerosShape` | src/routes/api.js:212  | `replace(/零+$/, '')` removes exactly the trailing run of 零 and leaves a text that does not end in 零 |
| `Numerals.TrimLeadingZeroShape` | src/routes/api.js:212  | `replace(/^零/, '')` on a text without 零 runs or a trailing 零 leaves one that does not start with 零 and keeps the other characters; it removes exactly one leading 零 and nothing else (the result is the text itself or the text without its first 零) |
| `Numerals.CleanShape` | src/routes/api.js:212  | after the whole clean-up chain: no 零 run, no 零 at either end, the same non-零 characters in order, nothing new |
| `Numerals.CleanIdentity` | src/routes/api.js:212  | the clean-up chain leaves a text without 零 runs and without 零 at either end unchanged |
| `Numerals.ReadBack` | src/routes/api.js:200-209  | the rendering of m from position p evaluates to m · 10^p, for every number the unit table covers |
| `Numerals.GroupedReadBack` | src/routes/api.js:257-267  | the section-by-section rendering, higher sections first, each closed by its section unit, evaluates to the number |
| `Numerals.GroupedSingle` | src/routes/api.js:257-267  | a number below 10^4 is a single section: its rendering followed by the section's unit |
| `ChineseNumber.NumberToChinese` | src/routes/api.js:191-218 | the loop and the clean-up compute `ChineseNumeral`; 0 gives 零; a negative number gives the empty text; below 10^5 the text evaluates to the number |
| `ChineseNumber.ChineseShape` | src/routes/api.js:200-215 | for a positive number, the result is non-empty, has no two 零 in a row, has no 零 at either end, and does not start with 一十; the clean-up finds nothing to remove |
| `ChineseNumber.ZeroReadsBack` | src/routes/api.js:192 | 零 evaluates to 0 |
| `ChineseNumber.FixLeadingTenReads` | src/routes/api.js:215 | rewriting a leading 一十 to 十 does not change the value the text denotes |
| `ChineseNumber.ChineseReadsBack` | src/routes/api.js:191-218 | every number below 10^5 is written as a numeral that evaluates to it |
| `ChineseNumber.HundredThousandMisread` | src/routes/api.js:195 | 100000 is written 一亿, which evaluates to 10^8 |
| `ChineseNumber.TenMillionUndefined` | src/routes/api.js:195-202  | 10^7 is written 一undefined |
| `ChineseNumber.OneAt` | src/routes/api.js:195-209  | 10^j is written 一 followed by the unit at position j |
| `ChineseNumber.IntendedChineseReadsBack` | src/routes/api.js:194-195 | the corrected, grouped numeral of every number below 10^12 evaluates to that number |
| `ChineseNumber.IntendedAgreesBelowTenThousand` | src/routes/api.js:191-218 | below 10^4 the corrected numeral and the numeral as written coincide |
| `RmbNumber.SectionToChinese` | src/routes/api.js:235-255  | the `needZero` loop computes `SectionNumeral`; it is empty exactly for 0, never has two 零 in a row, and has no 零 at either end |
| `RmbNumber.SectionShape` | src/routes/api.js:235-255  | the text of a section is empty exactly for 0, has no two 零 in a row, and has no 零 at either end |
| `RmbNumber.SectionReadsBack` | src/routes/api.js:235-255  | a section below 10^4 evaluates to its value |
| `RmbNumber.HigherStep` | src/routes/api.js:260-265  | one pass of the outer loop keeps "text of the remaining quotient + text so far" unchanged |
| `RmbNumber.HigherText` | src/routes/api.js:257-265  | the outer loop computes `HigherSections` of the quotient ⌊\|num\| / 10^4⌋ |
| `RmbNumber.NumberToRmbChinese` | src/routes/api.js:220-273 | the function computes `RmbNumeral`: the remainder section, then the higher sections, cleaned, then 元整, with 负 in front for a negative amount |
| `RmbNumber.RmbAffixes` | src/routes/api.js:229-270  | every result ends in 元整; it starts with 负 exactly when the amount is negative, and then the rest is the result for the absolute value |
| `RmbNumber.RmbReadsBack` | src/routes/api.js:257-270  | below 10^4 the text between the sign and 元整 is the section text, and it evaluates to the amount |
| `RmbNumber.ZeroHasNoDigits` | src/routes/api.js:267-269  | 0 gives 元整, with no digit |
| `RmbNumber.RmbTwoSections` | src/routes/api.js:257-268  | between 10^4 and 10^8 the remainder section comes first and the higher section follows without 万 |
| `RmbNumber.SectionsOutOfOrder` | src/routes/api.js:260-267  | 12345678 gives 伍仟陆佰柒拾捌壹仟贰佰叁拾肆元整 |
| `RmbNumber.IntendedRmbReadsBack` | src/routes/api.js:257-267  | the corrected body, with sections in descending order under 万 and 亿, is non-empty and evaluates to the amount for every amount below 10^12 |
| `RmbNumber.IntendedTwoSections` | src/routes/api.js:257-267  | between 10^4 and 10^8, when the lower section has four digits, the corrected body is the higher section, 万, then the lower section |
| `RmbNumber.IntendedOrder` | src/routes/api.js:257-267  | the corrected text of 12345678 is 壹仟贰佰叁拾肆万伍仟陆佰柒拾捌元整 |
| `RmbNumber.IntendedAgreesBelowTenThousand` | src/routes/api.js:220-273 | below 10^4 the corrected text and the text as written coincide |
| `CaseConvert.ConvertCase` | src/routes/api.js:302-313 | an unknown form returns the input; snake, kebab, constant and lower leave no upper-case letter; upper keeps the length and leaves no lower-case letter; lower keeps the length |
| `CaseConvert.SeparateUpperShape` | src/routes/api.js:305-306 | snake and kebab output is longer by one per upper-case letter and holds no upper-case letter; with the separators taken out it is the input in lower case |
| `CaseConvert.SeparateUpperLength` | src/routes/api.js:305-306 | snake and kebab output is longer than the input by the number of upper-case letters |
| `CaseConvert.SeparateUpperRemove` | src/routes/api.js:305-306 | taking the separators out of snake or kebab output gives the input in lower case, when the input holds no separator |
| `CaseConvert.CamelUndoesSeparateUpper` | src/routes/api.js:304-306 | camel case undoes snake or kebab case on text without separators |
| `CaseConvert.SeparateUpperUndoesCamel` | src/routes/api.js:304-306 | snake or kebab case undoes camel case on text in snake or kebab form |
| `CaseConvert.CamelNoMatch` | src/routes/api.js:304 | camel case leaves alone a text in which no separator is followed by a word character |
| `CaseConvert.SnakeUndoesPascal` | src/routes/api.js:305-307  | snake case of the pascal case of a snake-case word starting with a lower-case letter is that word with a leading `_` |
| `CaseConvert.ConstantShape` | src/routes/api.js:308 | the constant form is the snake form without the separator that a leading upper-case letter or `_` produces; it holds no upper-case letter |
| `CaseConvert.ConstantIsLowerCase` | src/routes/api.js:308 | the constant form of helloWorld is hello_world |
| `CaseConvert.IntendedConstantShape` | src/routes/api.js:308 | the corrected constant form holds no lower-case letter and differs from the form as written only in letter case |
| `CaseConvert.IntendedConstantExample` | src/routes/api.js:308 | the corrected constant form of helloWorld is HELLO_WORLD |
| `Cron.ParseCron` | src/routes/api.js:385-396 | the result is a schedule exactly when the split gives five fields; its fields hold no white space, together they are the expression without its white space, and joined by single spaces they are the expression with each white-space run squashed to one space |
| `Cron.SplitShape` | src/routes/api.js:386 | splitting on white-space runs gives at least one field; no field holds white space; the fields put together are the input without its white space; the fields joined by single spaces are the input with each maximal white-space run squashed to one space, so a run of any length is one separator |
| `Cron.SplitJoin` | src/routes/api.js:386 | splitting non-empty fields without white space, joined by single spaces, gives the fields back |
| `Cron.ParseFormat` | src/routes/api.js:385-396 | parsing five well-formed fields joined by spaces gives back exactly those fields |
| `Cron.SplitSquash` | src/routes/api.js:386 | a text and the same text with every white-space run squashed to one space split into the same fields |
| `Cron.ParseSquashed` | src/routes/api.js:385-396 | fields separated by white-space runs of any length and kind parse as the same schedule as with single spaces |
| `Cron.ParsedFields` | src/routes/api.js:385-404 | every field of a valid expression holds only digits, `*`, `/`, `,` and `-` |
| `Cron.ValidAlphabet` | src/routes/api.js:404 | a valid expression without its white space holds only digits, `*`, `/`, `,` and `-` |
| `Cron.LeadingSpaceQuirk` | src/routes/api.js:386-404  | one leading space and four fields parse as a schedule whose minute is empty, and such an expression is valid when its characters are allowed |
| `Color.HexPair` | src/routes/api.js:168-170 | `parseInt` of two hex digits in base 16 is their byte value, at most 255 |
| `Color.ComponentBounds` | src/routes/api.js:168-170 | a component read from a slice of at most two characters is NaN or lies in -15..255 |
| `Color.HexToRgbOfDigits` | src/routes/api.js:168-171 | a text with six hex digits after the first character gives three bytes and their `rgb(r, g, b)` text |
| `Color.MatchRgbText` | src/routes/api.js:174-176 | the pattern `rgb\((\d+),\s*(\d+),\s*(\d+)\)` finds the three decimal components in an `rgb(r, g, b)` text |
| `Color.ToHexOfByte` | src/routes/api.js:177 | `toHex` of a value at most 255 is exactly its two hex digits |
| `Color.RgbToHexOfBytes` | src/routes/api.js:174-178 | `rgb(r, g, b)` with components at most 255 gives `#` and the three zero-padded byte pairs, in upper case |
| `Color.HexRoundTrip` | src/routes/api.js:168-179 | hex to rgb gives components in 0..255, and back to hex gives the first seven characters in upper case |
| `Color.RgbRoundTrip` | src/routes/api.js:168-179 | rgb to hex gives seven characters, and back to rgb gives the same components and the same text |
| `Password.Pool` | src/routes/api.js:92-98 | the pool is never empty |
| `Password.SelectedEmpty` | src/routes/api.js:92-98 | the selected groups are empty exactly when no flag is set |
| `Password.PoolMembership` | src/routes/api.js:90-98 | a character is in the pool exactly when it belongs to a selected group, or, with no flag set, when it is a lower-case letter or a digit |
| `Password.ChooseChars` | src/routes/api.js:92-98 | the appends build the pool; with no flag set it is the fallback |
| `Password.GeneratePassword` | src/routes/api.js:89-109 | the loop computes `Draw` over the pool; the password has the requested length and every character is in the pool |
| `Password.GeneratePasswordWithDefaults` | src/routes/api.js:89-113 | with the defaults of the request and of `generatePassword`, the result is the draw over the pool of the resolved flags; a missing length gives 16 characters, and with no flag given every character is a letter, a digit or a symbol |
| `Password.DefaultPool` | src/routes/api.js:90-96 | flags that are not given are all set, and the pool is then the four groups in order: exactly the ASCII letters, the digits and the symbols |
| `Password.DrawStep` | src/routes/api.js:104-106 | drawing one more word appends its character |
| `Password.EveryCharReachable` | src/routes/api.js:105 | the word equal to a pool index draws that character |
| `Password.DrawModulo` | src/routes/api.js:105 | words that agree modulo the pool size give the same password |
| `Uuid.Variant` | src/routes/api.js:74 | `r & 0x3 \| 0x8` is 8 plus the two low bits of r |
| `Uuid.Fill` | src/routes/api.js:72-76 | the global replacement keeps the template's length |
| `Uuid.TemplateSlots` | src/routes/api.js:72 | the template holds 31 characters to replace |
| `Uuid.FillMatches` | src/routes/api.js:72-76 | every fill of a template has a lower-case hex digit at each `x`, one of 8, 9, a, b at each `y`, and the template character elsewhere |
| `Uuid.FillRead` | src/routes/api.js:72-76 | filling a template with the values read from a match gives that match back |
| `Uuid.ReadFill` | src/routes/api.js:72-76 | reading a fill back gives the values drawn, with only the low two bits of the value for `y` |
| `Uuid.TemplateIsUuidV4` | src/routes/api.js:72 | a text matches the template exactly when it is a lower-case version-4 UUID as in section 4.4 of RFC 4122 |
| `Uuid.GeneratedIsUuidV4` | src/routes/api.js:71-77 | every generated identifier is a lower-case version-4 UUID |
| `Uuid.EveryUuidV4Generated` | src/routes/api.js:71-77 | every lower-case version-4 UUID is generated by some draw |

## Left out

- The URL shortener (src/routes/api.js:6-41) calls into `src/utils/urlShortener`. That file is not part of this model.
- Express routing, request parsing, status codes and the JSON envelopes are framework plumbing.
- Hashing, base64, URI coding and the date and time endpoints call foreign libraries or depend on the clock and locale.
- `Math.random` and `crypto.randomFillSync` are replaced by inputs:
  - the nibbles of `Uuid.GenerateUuid`;
  - the words of `Password.GeneratePassword`.
- The `count` parsing of the UUID endpoint (src/routes/api.js:80) is left out.
- `parseFloat`, `isNaN` and the non-integer path of `numberToRMBChinese` work on floating point. Amounts are integers here.
  - `ChineseNumber.NumberToChinese` takes the integer that `Math.floor` produced.
  - Precision loss above 2^53 is not modelled.
- `Color.RgbToHex`: components are unbounded integers, while `parseInt` (src/routes/api.js:177) yields a double.
  - A component above 2^53 loses precision in the source, so its hex digits differ from the model's.
  - A component of more than 308 digits becomes `Infinity`, which the source writes as `INFINITY`.
  - The model agrees with the source for components below 2^53, which covers every byte.
- Case mapping covers ASCII letters only. Non-ASCII letters are left as they are, while `toUpperCase` would map them.
- `generatePassword` details left out:
  - Option values are booleans, so JavaScript truthiness of other values is not modelled.
  - A non-integer `length` is truncated by `Uint32Array`, but the loop at src/routes/api.js:104 runs while `i < length`. So 2.5 gives two pool characters followed by the text `undefined`, since `array[2]` is `undefined` and `chars[NaN]` is too.
  - A `length` between -1 and 0, such as -0.5, gives the empty password. A `length` of -1 or less makes `Uint32Array` throw a `RangeError`.
  - The model takes a `nat`.
- `ChineseNumber.NumberToChinese`: its read-back ensures is stated below 10^5 only, because from 10^5 on the unit table misplaces units (see Findings).
- `RmbNumber.RmbReadsBack`: read-back is stated below 10^4 only, because from 10^4 on the sections come out of order (see Findings).
- `ChineseNumber.IntendedChineseReadsBack` and `RmbNumber.IntendedRmbReadsBack` stop at 10^12. The largest section unit (亿, or 兆 for everyday numerals) bounds what the grouped form can write.

## Findings

| source | as written | input that shows it | evidently intended | confidence | as-written member | corrected member |
|---|---|---|---|---|---|---|
| src/routes/api.js:195 | units are taken per decimal position from `['', '十', '百', '千', '万', '亿', '兆']`, so positions 5 and 6 get 亿 and 兆 and position 7 is past the end | 100000 gives 一亿 (read as 10^8); 10000000 gives 一undefined | 十万, 百万, 千万: four-digit groups under 万 and 亿 | not executed | `ChineseNumber.HundredThousandMisread`, `ChineseNumber.TenMillionUndefined` | `ChineseNumber.IntendedChineseReadsBack`, `ChineseNumber.IntendedAgreesBelowTenThousand` |
| src/routes/api.js:260-267 | each pass renders the whole remaining quotient, the first pass uses the empty section unit, and the remainder section is put in front of the higher ones | 12345678 gives 伍仟陆佰柒拾捌壹仟贰佰叁拾肆元整 | 壹仟贰佰叁拾肆万伍仟陆佰柒拾捌元整 | not executed | `RmbNumber.SectionsOutOfOrder`, `RmbNumber.RmbTwoSections` | `RmbNumber.IntendedOrder`, `RmbNumber.IntendedRmbReadsBack` |
| src/routes/api.js:267-269 | the remainder section of 0 is empty and the clean-up leaves nothing before 元整 | 0 gives 元整 | 零元整 | not executed | `RmbNumber.ZeroHasNoDigits` | `RmbNumber.IntendedRmbReadsBack` |
| src/routes/api.js:308 | the constant form is snake case without the leading `_`, still in lower case | helloWorld gives hello_world | HELLO_WORLD | not executed | `CaseConvert.ConstantIsLowerCase` | `CaseConvert.IntendedConstantExample`, `CaseConvert.IntendedConstantShape` |
