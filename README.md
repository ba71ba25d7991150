# Instapay receipt-amount extraction, modelled in Dafny

This project models the part of the donation tracker that reads the paid amount off an Instapay payment confirmation. There are two pieces.

- **The amount extractor** `extractBestAmount` (`app/api/ocr/instapay/route.ts`). It takes the OCR text of a screenshot and returns a number or `null`.
  - It splits the text into trimmed, non-empty lines.
  - Tier 1 takes the first amount token of the earliest line mentioning `EGP` (case-insensitive) whose token is usable.
  - Tier 2 does the same for lines matching `transfer\s*amount`.
  - Tier 3 collects every token of every line, drops the phone-like ones, the non-positive ones and values of at least 1e9, and returns the largest.
  - A token is *phone-like* when it has 9 or more digits, or 11 digits starting `01`.
- **The image preprocessor geometry and pixel pass** (`lib/ocrPreprocess.ts`):
  - the option defaults;
  - `getCropRect`, the fractional crop rectangle;
  - `fitWithin`, no-upscale scaling with each side at least 1 pixel;
  - `enhanceForOCR`, the in-place grayscale and contrast loop over the RGBA buffer.

Modules:

- `Wrappers`: the `Option` type standing for `null`.
- `JsText`: the ECMAScript string operations used.
  - `\d`, `\w` and the `trim` white space;
  - `split`;
  - `replace(/[^\d]/g, "")`;
  - ASCII case-insensitive search.
- `JsNumber`: ECMAScript numbers in exact arithmetic.
  - The datatype `Num` covers NaN and the two infinities, and overflow past `Number.MAX_VALUE` is modelled.
  - `Number(s)` for decimal strings.
  - `/`, `*`, `+`, `Math.min`, `Math.max` and `Math.floor`.
  - ToUint8Clamp, the conversion applied when a value is stored into a `Uint8ClampedArray`.
- `AmountRegex`: `AMOUNT_REGEX` as a backtracking matcher.
  - Each sub-pattern is the list of its possible ends, in the order the engine tries them.
  - Alternation is left first, greedy quantifiers longest first, and `\b` is checked at both ends.
  - `match` without `g` is the leftmost match. The global `match` lists the non-overlapping matches from left to right.
- `AmountValue`: `toNumber` and `isPhoneLike`.
- `InstapayRoute`: the extractor.
  - The tier loops are a method over the lines, proved equal to a function.
  - The tier-3 `sort` is an in-place insertion sort on an array, proved sorted and a permutation.
- `AmountFormat` and `Receipts`: amounts as a confirmation prints them (`5.00`, `1,250.00`, `999,999.99`).
  - Such an amount is read back exactly on its own, on an `EGP` line and in a whole multi-line confirmation.
  - Whole numbers without groups are matched whole and parsed too: `500` is read back, while `01098765432` is matched and parsed but rejected as phone-like.
  - Four worked confirmations from the system's documentation are proved: `Payment Successful / EGP 1,250.00 / To: 01012345678` gives 1250, `Transfer Amount: 500 / Ref: 9988776655` gives 500, `300 / 01098765432 / 45` gives 300, and `Account 123456789012` gives nothing.
- `OcrPreprocess`: the options, the crop, fit-within, and `enhanceForOCR` as a method on `array<Uint8>`, proved equal to a pixel-by-pixel function.

Inputs and outputs:

- The extractor is total. It takes a string and returns an `Option<real>`.
- Numbers are exact reals, not doubles.
- Image sizes are whole numbers below the double overflow bound (`Count`).

## Model

| member | source | states |
|---|---|---|
| JsText.DigitsOf | app/api/ocr/instapay/route.ts:23 | the digits of a string, only digits, never longer than the string |
| JsText.DigitsOfKeepsDigits | app/api/ocr/instapay/route.ts:23 | a character is in the digit string exactly when it is a digit of the input: every non-digit is removed, no digit is lost |
| JsText.DigitsOfAppend | app/api/ocr/instapay/route.ts:23 | the digits of `a + b` are the digits of `a` followed by those of `b` |
| JsText.DigitsOfDigits | app/api/ocr/instapay/route.ts:23 | a string of digits is its own digit string |
| JsText.TrimStart | app/api/ocr/instapay/route.ts:8 | the result is no longer than the input and starts with a non-space |
| JsText.TrimStartDropsSpace | app/api/ocr/instapay/route.ts:8 | the result is a suffix of the input, and what is dropped is all white space |
| JsText.TrimEnd | app/api/ocr/instapay/route.ts:8 | the result is no longer than the input and ends with a non-space |
| JsText.TrimEndDropsSpace | app/api/ocr/instapay/route.ts:8 | the result is a prefix of the input, and what is dropped is all white space |
| JsText.Trim | app/api/ocr/instapay/route.ts:8 | the trimmed line is empty, or starts and ends with a non-space |
| JsText.TrimIsInfix | app/api/ocr/instapay/route.ts:8 | the trimmed line is an infix of the input with only white space on either side |
| JsText.TrimUnpadded | app/api/ocr/instapay/route.ts:8 | trimming leaves a string alone when neither end is white space |
| JsText.Split | app/api/ocr/instapay/route.ts:6-7 | at least one piece, no piece contains the separator, and the pieces joined by the separator give back the input |
| JsText.SplitUnique | app/api/ocr/instapay/route.ts:6-7 | `split` returns the only separator-free pieces that join back to the input |
| JsText.SplitAppend | app/api/ocr/instapay/route.ts:6-7 | `(a + "\n" + b).split("\n")` is the pieces of `a` followed by the pieces of `b` |
| JsText.SplitNoSeparator | app/api/ocr/instapay/route.ts:6-7 | a string without the separator splits into itself alone |
| JsText.AsciiUpper | app/api/ocr/instapay/route.ts:33 | case folding for `/i`: the result is an upper-case letter exactly when the input is an ASCII letter, an upper-case result is the input or its lower-case form, and every non-letter is unchanged |
| JsNumber.FromExact | app/api/ocr/instapay/route.ts:18-19 | a value is finite exactly when it is below the overflow bound in magnitude, and then it is kept exactly |
| JsNumber.DigitsValue | app/api/ocr/instapay/route.ts:18 | the value of `n` decimal digits is below 10^n |
| JsNumber.DigitsValueAppend | app/api/ocr/instapay/route.ts:18 | the value of `a + b` is the value of `a` times 10^(length of b) plus the value of `b` |
| JsNumber.FractionValue | app/api/ocr/instapay/route.ts:18 | the digits after a decimal point are worth at least 0 and less than 1 |
| JsNumber.ParseNumber | app/api/ocr/instapay/route.ts:18 | `Number(s)` on decimal forms; any finite result is non-negative |
| JsNumber.ParseDecimal | app/api/ocr/instapay/route.ts:18 | `ddd.ddd` parses to its whole part plus its fraction |
| JsNumber.ParseNumberBelow | app/api/ocr/instapay/route.ts:18 | a parsed decimal is below 10 to the number of its digits |
| JsNumber.Divide | lib/ocrPreprocess.ts:72 | `a / b` is the exact quotient for `b != 0`; for `b == 0` the result is NaN exactly when `a == 0` |
| JsNumber.Min | lib/ocrPreprocess.ts:72 | `Math.min` is NaN exactly when an operand is; otherwise it is one of the operands and at most both |
| JsNumber.Max | lib/ocrPreprocess.ts:73-74 | `Math.max` is NaN exactly when an operand is; otherwise it is one of the operands and at least both |
| JsNumber.Floor | lib/ocrPreprocess.ts:73-74 | a finite value is floored to the whole number just at or below it; NaN and the infinities are kept |
| JsNumber.ToUint8Clamp | lib/ocrPreprocess.ts:99 | NaN gives 0; values are clamped to [0, 255]; in between, the nearest byte, ties to even |
| JsNumber.ToUint8ClampMonotone | lib/ocrPreprocess.ts:99 | storing a larger value never gives a smaller byte |
| AmountRegex.DigitRun | app/api/ocr/instapay/route.ts:15 | `\d+` greedy: the run of digits from `p` is all digits and stops before a non-digit |
| AmountRegex.CountdownEnds | app/api/ocr/instapay/route.ts:15 | a greedy repetition of `n` available characters tries its ends strictly longest first, and they are exactly the positions 1 to `n` past the start |
| AmountRegex.FracDigitsEnds | app/api/ocr/instapay/route.ts:15 | `\d{1,2}` ends one or two characters on, longest first: it has an end exactly when a digit follows, and two exactly when two digits follow |
| AmountRegex.OptFraction | app/api/ocr/instapay/route.ts:15 | `(?:\.\d{1,2})?` tries the fraction first and ends last without it |
| AmountRegex.GroupsStarEnds | app/api/ocr/instapay/route.ts:15 | `(?:,\d{3})*` tries its ends longest first, ends last on taking no group, and has more than that end exactly when a `,ddd` group follows |
| AmountRegex.GroupsPlus | app/api/ocr/instapay/route.ts:15 | `(?:,\d{3})+` ends at least one group (4 characters) on |
| AmountRegex.ThenFraction | app/api/ocr/instapay/route.ts:15 | the optional fraction after each end in turn stays inside the text |
| AmountRegex.ThenGroups | app/api/ocr/instapay/route.ts:15 | the groups and fraction after each end in turn stay inside the text |
| AmountRegex.GroupedEnds | app/api/ocr/instapay/route.ts:15 | the first alternative `\d{1,3}(?:,\d{3})+(?:\.\d{1,2})?` ends past its start |
| AmountRegex.PlainEnds | app/api/ocr/instapay/route.ts:15 | the second alternative `\d+(?:\.\d{1,2})?` ends past its start |
| AmountRegex.FirstAtBoundary | app/api/ocr/instapay/route.ts:15 | the closing `\b`: the first end tried after which `\b` holds, or none when it holds after no end |
| AmountRegex.FirstAtBoundaryIsFirst | app/api/ocr/instapay/route.ts:15 | the closing `\b` picks the earliest end tried after which `\b` holds: an end with `\b` and none before it is the result, and any result is such an end |
| AmountRegex.MatchAt | app/api/ocr/instapay/route.ts:15 | a match at `p` is non-empty, lies in the text, and has `\b` at both ends |
| AmountRegex.NoMatchAtNonDigit | app/api/ocr/instapay/route.ts:15 | no match starts where there is no digit |
| AmountRegex.ThenGroupsWithoutGroups | app/api/ocr/instapay/route.ts:15 | the grouped alternative gives nothing where no `,ddd` follows |
| AmountRegex.TwoDigitFraction | app/api/ocr/instapay/route.ts:15 | over `.dd` and a non-word character, the fraction is taken whole and `\b` holds after it |
| AmountRegex.NoGroupedEnds | app/api/ocr/instapay/route.ts:15 | when the digits at a position are not followed by a comma, the first alternative has no end |
| AmountRegex.PlainEndsHead | app/api/ocr/instapay/route.ts:15 | the second alternative tries all the digits plus the two-digit fraction first |
| AmountRegex.GroupedEndsHead | app/api/ocr/instapay/route.ts:15 | the first alternative tries the lead digits, the one group and the two-digit fraction first |
| AmountRegex.PlainAmountMatch | app/api/ocr/instapay/route.ts:15 | `d.dd` to `ddd.dd`, set off by non-word characters, is matched whole |
| AmountRegex.GroupedAmountMatch | app/api/ocr/instapay/route.ts:15 | `d,ddd.dd` to `ddd,ddd.dd`, set off by non-word characters, is matched whole by the first alternative |
| AmountRegex.WholeEndsHead | app/api/ocr/instapay/route.ts:15 | without a decimal point after them, the second alternative tries all the digits first |
| AmountRegex.WholeAmountMatch | app/api/ocr/instapay/route.ts:15 | a whole number set off by non-word characters, and followed by neither a point nor a comma, is matched whole |
| AmountRegex.PlainMatchOf | app/api/ocr/instapay/route.ts:15 | where `\b` holds and no comma follows the digits, the first end of the second alternative that `\b` follows is the match |
| AmountRegex.PlainHeadMatch | app/api/ocr/instapay/route.ts:15 | where `\b` holds and the first alternative has nothing, an end of the second alternative tried first and followed by `\b` is the match |
| AmountRegex.MatchAtOfEnds | app/api/ocr/instapay/route.ts:15 | where `\b` holds, the match is the first end of either alternative, left one first, that `\b` follows |
| AmountRegex.Matches | app/api/ocr/instapay/route.ts:34 | the table of matches has one entry per start position, each ending past its start |
| AmountRegex.MatchTableAt | app/api/ocr/instapay/route.ts:34 | entry `p` of the table is the match that starts at `p` |
| AmountRegex.FirstFrom | app/api/ocr/instapay/route.ts:34 | the search from `p` finds a span at or after `p` |
| AmountRegex.FirstFromIsMatch | app/api/ocr/instapay/route.ts:34 | the span found is a match |
| AmountRegex.FirstFromIsLeftmost | app/api/ocr/instapay/route.ts:34 | no match starts between `p` and the span found |
| AmountRegex.FirstFromNone | app/api/ocr/instapay/route.ts:34 | the search finds nothing exactly when no match starts at or after `p` |
| AmountRegex.FirstFromSkips | app/api/ocr/instapay/route.ts:34 | the search passes over positions where no match starts |
| AmountRegex.FirstMatchIsLeftmost | app/api/ocr/instapay/route.ts:34 | `line.match(AMOUNT_REGEX)` is null exactly when no match starts anywhere; otherwise it is the text of a match with no match starting before it |
| AmountRegex.SpansFrom | app/api/ocr/instapay/route.ts:54 | the spans of a global match lie between the start and the end of the text |
| AmountRegex.SpansAreMatches | app/api/ocr/instapay/route.ts:54 | every span visited is a match, the spans are in order and do not overlap, the first is the leftmost match, and no match starts in a gap before, between or after them |
| AmountRegex.MatchesCovered | app/api/ocr/instapay/route.ts:54 | every position where a match starts lies inside one of the spans visited from before it |
| AmountRegex.GlobalMatchMissesNothing | app/api/ocr/instapay/route.ts:54 | the global match leaves no match uncovered: every match start lies inside one of its tokens |
| AmountRegex.MatchAllStartsWithFirstMatch | app/api/ocr/instapay/route.ts:54 | the global match is non-empty exactly when the plain match is non-null, and its first token is the plain match |
| AmountValue.StripCommas | app/api/ocr/instapay/route.ts:18 | `replace(/,/g, "")` leaves no comma |
| AmountValue.StripCommasKeepsDigits | app/api/ocr/instapay/route.ts:18 | removing commas keeps every digit, in order |
| AmountValue.StripCommasAppend | app/api/ocr/instapay/route.ts:18 | removing commas distributes over concatenation |
| AmountValue.StripCommasWithoutCommas | app/api/ocr/instapay/route.ts:18 | a string without commas is left alone |
| AmountValue.ToNumber | app/api/ocr/instapay/route.ts:17-20 | a result is finite and strictly positive, and below 10 to the token's digit count |
| AmountValue.ToNumberOfDigits | app/api/ocr/instapay/route.ts:17-20 | a digit string reads as its decimal value when that is positive and finite, and as nothing otherwise (zero included) |
| AmountValue.IsPhoneLike | app/api/ocr/instapay/route.ts:22-29 | a token is phone-like exactly when it has 9 or more digits; the 11-digit `01` rule is covered by that |
| AmountValue.AcceptedBelowHundredMillion | app/api/ocr/instapay/route.ts:17-29 | a token that passes the phone test and parses denotes less than 100,000,000 |
| InstapayRoute.Kept | app/api/ocr/instapay/route.ts:8-9 | a piece is dropped, or kept as one trimmed non-empty line |
| InstapayRoute.TrimmedNonEmpty | app/api/ocr/instapay/route.ts:8-9 | no more lines than pieces |
| InstapayRoute.TrimmedNonEmptyUnpadded | app/api/ocr/instapay/route.ts:8-9 | every kept line is non-empty with no white space at either end |
| InstapayRoute.TrimmedNonEmptyAppend | app/api/ocr/instapay/route.ts:8-9 | trimming and filtering distribute over concatenation, so the order of lines is kept |
| InstapayRoute.Lines | app/api/ocr/instapay/route.ts:6-9 | every line scanned is trimmed and non-empty |
| InstapayRoute.LinesAppend | app/api/ocr/instapay/route.ts:6-9 | the lines of `a + "\n" + b` are the lines of `a` followed by those of `b` |
| InstapayRoute.LinesOfOneLine | app/api/ocr/instapay/route.ts:6-9 | a text without a newline is its trimmed self, or no line when blank |
| InstapayRoute.FirstMarkedIsEarliest | app/api/ocr/instapay/route.ts:32-51 | a tier yields a value exactly when some line gives one, and then it is the value of the earliest such line |
| InstapayRoute.ScanMarkedLines | app/api/ocr/instapay/route.ts:32-51 | the loop with early `return` computes the tier's value, `FirstMarked` |
| InstapayRoute.CandidatesAre | app/api/ocr/instapay/route.ts:56-60 | `v` is a candidate exactly when some token is not phone-like, parses to `v`, and `v` is below 1e9 |
| InstapayRoute.CapNeverBinds | app/api/ocr/instapay/route.ts:60 | the 1e9 cap never removes a token that passed the phone test |
| InstapayRoute.Largest | app/api/ocr/instapay/route.ts:65-66 | the largest candidate is one of them and at least every one |
| InstapayRoute.SortDescending | app/api/ocr/instapay/route.ts:65 | `sort((a, b) => b - a)` in place: afterwards the array descends and is a permutation of what it held |
| InstapayRoute.InsertionStart | app/api/ocr/instapay/route.ts:65 | inserting the next element starts with the descending prefix intact |
| InstapayRoute.SwapStep | app/api/ocr/instapay/route.ts:65 | a swap moves the inserted element one step left and keeps the contents |
| InstapayRoute.InsertionDone | app/api/ocr/instapay/route.ts:65 | once the inserted element stops, the prefix up to it descends |
| InstapayRoute.SortedHeadIsLargest | app/api/ocr/instapay/route.ts:65-66 | `candidates[0]` after the sort is the largest candidate |
| InstapayRoute.ExtractBestAmount | app/api/ocr/instapay/route.ts:5-67 | the two loops, then the sort, compute `BestAmount` |
| InstapayRoute.LineTokensInAllTokens | app/api/ocr/instapay/route.ts:54 | every token of a line is among the tokens of the text |
| InstapayRoute.FirstMarkedFromToken | app/api/ocr/instapay/route.ts:32-51 | a tier's value is the value of a usable token of the text |
| InstapayRoute.SelectedFromUsableToken | app/api/ocr/instapay/route.ts:31-66 | whatever the tier, the result is the value of a usable token |
| InstapayRoute.BestAmountFromUsableToken | app/api/ocr/instapay/route.ts:5-67 | any result comes from a usable token, so it is above 0 and below 100,000,000 |
| InstapayRoute.BestAmountOfEmpty | app/api/ocr/instapay/route.ts:6-9 | the empty text gives null |
| InstapayRoute.EgpLineWins | app/api/ocr/instapay/route.ts:32-40 | the earliest EGP line whose first token is usable decides, whatever the other lines say |
| InstapayRoute.TransferAmountLineWins | app/api/ocr/instapay/route.ts:43-51 | with no EGP value anywhere, the earliest "transfer amount" line with a usable first token decides |
| InstapayRoute.FallbackIsLargestUsable | app/api/ocr/instapay/route.ts:54-66 | with no marked value, the result is the largest usable token value of the text, and null exactly when no token is usable |
| InstapayRoute.FallbackOfLines | app/api/ocr/instapay/route.ts:54-66 | the same over the lines |
| InstapayRoute.LargestCandidate | app/api/ocr/instapay/route.ts:56-66 | the candidates are empty exactly when no token is usable; otherwise their largest is the largest usable value |
| AmountFormat.DigitChar | app/api/ocr/instapay/route.ts:18 | the character of a digit is a digit worth that digit |
| AmountFormat.LeadValue | app/api/ocr/instapay/route.ts:18 | the one to three digits printed for `n < 1000` are worth `n` |
| AmountFormat.ThreeValue | app/api/ocr/instapay/route.ts:18 | the three zero-padded digits printed for `n < 1000` are worth `n` |
| AmountFormat.TwoValue | app/api/ocr/instapay/route.ts:18 | the two zero-padded digits printed for `n < 100` are worth `n` |
| AmountFormat.StripWhole | app/api/ocr/instapay/route.ts:18 | removing the comma from the printed pounds leaves their digits side by side |
| AmountFormat.WholeDigits | app/api/ocr/instapay/route.ts:18 | the printed pounds without the comma are at most six digits worth the pounds |
| AmountFormat.StripFormat | app/api/ocr/instapay/route.ts:18 | without commas a printed amount is `pounds.dd` |
| AmountFormat.FormatValue | app/api/ocr/instapay/route.ts:17-20 | `toNumber` reads a printed positive amount back exactly |
| AmountFormat.FractionOfTwo | app/api/ocr/instapay/route.ts:18 | two printed piastre digits are worth piastres / 100 |
| AmountFormat.FormatNotPhoneLike | app/api/ocr/instapay/route.ts:22-29 | a printed amount has at most 8 digits and is not phone-like |
| AmountFormat.FormatIsAmountToken | app/api/ocr/instapay/route.ts:15 | every printed amount has the shape of one of the two alternatives |
| AmountFormat.PlainShape | app/api/ocr/instapay/route.ts:15 | amounts below 1,000 print as `ddd.dd` |
| AmountFormat.GroupedShape | app/api/ocr/instapay/route.ts:15 | amounts from 1,000 print as `ddd,ddd.dd` |
| AmountFormat.Standing | app/api/ocr/instapay/route.ts:15 | between pieces that do not end or start with a word character, a token has `\b` on both sides |
| AmountFormat.PlainPlaced | app/api/ocr/instapay/route.ts:15 | a set-off `ddd.dd` token gives the text the shape the second alternative needs |
| AmountFormat.PlainTokenMatch | app/api/ocr/instapay/route.ts:15 | a set-off `ddd.dd` token is matched exactly where it stands |
| AmountFormat.GroupedPlaced | app/api/ocr/instapay/route.ts:15 | a set-off `ddd,ddd.dd` token gives the text the shape the first alternative needs |
| AmountFormat.GroupedTokenMatch | app/api/ocr/instapay/route.ts:15 | a set-off `ddd,ddd.dd` token is matched exactly where it stands |
| AmountFormat.TokenMatch | app/api/ocr/instapay/route.ts:15 | every set-off amount token is matched exactly where it stands |
| AmountFormat.NoMatchesAtNonDigits | app/api/ocr/instapay/route.ts:34 | no match starts at a stretch of non-digits |
| AmountFormat.TokenEntry | app/api/ocr/instapay/route.ts:34 | a set-off token is the table entry where it stands |
| AmountFormat.FirstAt | app/api/ocr/instapay/route.ts:34 | a match with no digit before it is the plain match |
| AmountFormat.FirstTokenAt | app/api/ocr/instapay/route.ts:34 | a set-off token with no digit before it is the plain match |
| AmountFormat.FirstMatchOfToken | app/api/ocr/instapay/route.ts:34 | in `pre + t + post` with no digit in `pre`, the plain match is `t` |
| AmountFormat.OnlyToken | app/api/ocr/instapay/route.ts:54 | a match with no digit before or after it is the only token of the global match |
| AmountFormat.OnlyTokenAt | app/api/ocr/instapay/route.ts:54 | a set-off token with no other digit in the text is the only token of the global match |
| AmountFormat.MatchAllOfToken | app/api/ocr/instapay/route.ts:54 | in `pre + t + post` with no digit in `pre` or `post`, the global match is `[t]` |
| AmountFormat.WholeEntry | app/api/ocr/instapay/route.ts:15 | a whole number standing in a text, with no point or comma after it, is the match starting where it stands |
| AmountFormat.FirstMatchOfWhole | app/api/ocr/instapay/route.ts:15 | a whole number after a non-digit prefix, set off on both sides, is the first match of the line |
| AmountFormat.MatchAllOfWhole | app/api/ocr/instapay/route.ts:54 | a whole number with only non-digits around it is the one token of the global match |
| AmountFormat.DigitLine | app/api/ocr/instapay/route.ts:15 | a line of digits only is its own first match and its only token |
| Receipts.FormatReadsAs | app/api/ocr/instapay/route.ts:17-29 | a printed positive amount is a token, not phone-like, that reads back as its value |
| Receipts.MatchesAtAppend | app/api/ocr/instapay/route.ts:33 | a case-insensitive occurrence stays one when text is added on either side |
| Receipts.MarkerAppend | app/api/ocr/instapay/route.ts:33 | a marker in a piece of a line is a marker of the line, for both markers |
| Receipts.LetterWhereMatched | app/api/ocr/instapay/route.ts:33 | a case-insensitive occurrence of a pattern that starts with a letter sits on a letter |
| Receipts.NoLettersNoMarker | app/api/ocr/instapay/route.ts:33 | a line without letters has neither marker |
| Receipts.AmountTokenNoLetters | app/api/ocr/instapay/route.ts:15 | an amount token has no letter, no newline and no padding |
| Receipts.MarkedLineGives | app/api/ocr/instapay/route.ts:33-38 | a marked line whose first digits are a set-off usable token gives that token's value |
| Receipts.EgpPrefixLine | app/api/ocr/instapay/route.ts:33-38 | the line `EGP <amount>` gives the amount in tier 1 |
| Receipts.LinesAround | app/api/ocr/instapay/route.ts:6-9 | a one-line text between two others keeps its place among their lines |
| Receipts.EgpAmountLineDecides | app/api/ocr/instapay/route.ts:32-40 | in a whole confirmation, the EGP amount line decides when no line above it gives an EGP value |
| Receipts.EgpAround | app/api/ocr/instapay/route.ts:32-40 | over lines, the first line to give an EGP value decides |
| Receipts.NoneAround | app/api/ocr/instapay/route.ts:32-51 | a tier gives nothing over lines where no piece gives anything |
| Receipts.TransferAmountAround | app/api/ocr/instapay/route.ts:43-51 | over lines, with no EGP value, the first line to give a "transfer amount" value decides |
| Receipts.TransferAmountLineDecides | app/api/ocr/instapay/route.ts:43-51 | in a whole confirmation without EGP values, the first usable "transfer amount" line decides |
| Receipts.OneLine | app/api/ocr/instapay/route.ts:6-9 | an unpadded text without a newline is one line |
| Receipts.FallbackOfOneLine | app/api/ocr/instapay/route.ts:54-66 | tier 3 over one unmarked line with a single usable token gives that token's value |
| Receipts.LoneTokenFallback | app/api/ocr/instapay/route.ts:54-66 | an unmarked one-line text whose only digits are a set-off token gives that token's value |
| Receipts.LoneToken | app/api/ocr/instapay/route.ts:5-67 | a usable amount token on its own is read back as its value |
| Receipts.PrintedAmountAlone | app/api/ocr/instapay/route.ts:5-67 | a printed positive amount on its own is read back as the amount it stands for |
| Receipts.EgpLineOfToken | app/api/ocr/instapay/route.ts:31-40 | an `EGP <token>` line decides the confirmation when no line above it gives an EGP value |
| Receipts.EgpLabel | app/api/ocr/instapay/route.ts:33 | the label `EGP ` is marked, has no digits and ends in a non-word character |
| Receipts.LabelledLine | app/api/ocr/instapay/route.ts:8 | a label followed by a trimmed line is still a trimmed line |
| Receipts.EgpLine | app/api/ocr/instapay/route.ts:8-9 | `EGP <t>` for a trimmed line `t` is one trimmed line, marked EGP |
| Receipts.PrintedEgpLine | app/api/ocr/instapay/route.ts:31-40 | a printed `EGP 1,250.00`-style line decides the confirmation when no line above it gives an EGP value |
| Receipts.WithoutGNoEgp | app/api/ocr/instapay/route.ts:33 | a line without the letter G does not mention EGP |
| Receipts.HeaderGivesNoEgpValue | app/api/ocr/instapay/route.ts:32-40 | the header `Payment Successful` gives no EGP value |
| Receipts.PaymentSuccessfulExample | app/api/ocr/instapay/route.ts:5-67 | `Payment Successful / EGP 1,250.00 / To: 01012345678` gives 1250 |
| Receipts.EgpMarked | app/api/ocr/instapay/route.ts:33 | `EGP ` followed by any text is an EGP line |
| Receipts.WithoutRNoTransferAmount | app/api/ocr/instapay/route.ts:44 | a line without the letter R does not mention a transfer amount |
| Receipts.WholeValue | app/api/ocr/instapay/route.ts:17-29 | a whole number below 1e9 reads as its value, and is phone-like exactly when it has 9 digits or more |
| Receipts.MarkedWholeGives | app/api/ocr/instapay/route.ts:31-51 | a marked line whose first digits are a short whole number after a non-word character gives that number in the marker's tier |
| Receipts.TransferAmountLabel | app/api/ocr/instapay/route.ts:44 | the label `Transfer Amount: ` matches `transfer\s*amount` case-insensitively |
| Receipts.TransferAmountFiveHundred | app/api/ocr/instapay/route.ts:43-51 | the line `Transfer Amount: 500` gives 500 in tier 2 |
| Receipts.ReferenceHasNoTransferAmount | app/api/ocr/instapay/route.ts:44 | `Ref: 9988776655` has no "transfer amount" marker |
| Receipts.ReferenceLine | app/api/ocr/instapay/route.ts:31-51 | `Ref: 9988776655` is one line and gives nothing in tiers 1 and 2 |
| Receipts.TwoLines | app/api/ocr/instapay/route.ts:6-9 | two one-line texts joined by a newline are two lines |
| Receipts.TransferAmountFirstLine | app/api/ocr/instapay/route.ts:31-51 | with no EGP value on two lines, a first line that gives a "transfer amount" value decides |
| Receipts.TransferAmountExample | app/api/ocr/instapay/route.ts:5-67 | `Transfer Amount: 500 / Ref: 9988776655` gives 500 |
| Receipts.ThreeLines | app/api/ocr/instapay/route.ts:6-9 | three one-line texts joined by newlines are three lines |
| Receipts.NoneOfThree | app/api/ocr/instapay/route.ts:31-51 | a tier finds nothing in three lines none of which gives a value in it |
| Receipts.TokensOfThree | app/api/ocr/instapay/route.ts:54 | the tokens of three lines are those of each line, in order |
| Receipts.DigitLineFacts | app/api/ocr/instapay/route.ts:5-67 | a line of digits only is one unpadded line, mentions no marker, and is its own token |
| Receipts.DigitLines | app/api/ocr/instapay/route.ts:5-67 | three lines of digits are three lines and three tokens, and give nothing in tiers 1 and 2 |
| Receipts.LargerOfTwoUsable | app/api/ocr/instapay/route.ts:54-66 | when only the first and last of three tokens are usable, tier 3 selects the larger value |
| Receipts.FallbackOfDigitLines | app/api/ocr/instapay/route.ts:54-66 | three digit lines, the middle one unusable, give the larger of the other two |
| Receipts.LongWholePhoneLike | app/api/ocr/instapay/route.ts:22-29 | a whole number of 9 digits or more is phone-like |
| Receipts.NineDigitsUnusable | app/api/ocr/instapay/route.ts:22-29 | a token with nine digits or more is phone-like and never usable, whatever its commas and point |
| Receipts.MillionIsPhoneLike | app/api/ocr/instapay/route.ts:22-29 | `1,000,000.00` is phone-like and never usable, so no tier returns it |
| Receipts.MillionDigits | app/api/ocr/instapay/route.ts:23 | `1,000,000.00` has nine digits |
| Receipts.MobileNumber | app/api/ocr/instapay/route.ts:22-29 | `01098765432`, an Egyptian mobile number, is phone-like |
| Receipts.FallbackExample | app/api/ocr/instapay/route.ts:5-67 | `300 / 01098765432 / 45` gives 300 |
| Receipts.LongNumberAlone | app/api/ocr/instapay/route.ts:5-67 | an unmarked line whose only number has 9 digits or more gives nothing |
| Receipts.AccountLine | app/api/ocr/instapay/route.ts:31-51 | `Account 123456789012` is one line and mentions neither marker |
| Receipts.AccountExample | app/api/ocr/instapay/route.ts:5-67 | `Account 123456789012` gives nothing |
| OcrPreprocess.ResolveOptions | lib/ocrPreprocess.ts:18-20 | a missing field, or missing options, becomes 1100, 1100 and `"smart"`; a given field is kept |
| OcrPreprocess.Percent | lib/ocrPreprocess.ts:54-67 | `Math.floor(n * pct / 100)`: the floor of the exact product, at most `n` |
| OcrPreprocess.GetCropRect | lib/ocrPreprocess.ts:51-69 | the floors of 10/18/80/55 % (center) or 6/15/88/60 % (smart) of the sides, and the rectangle lies inside the image |
| OcrPreprocess.CropIsNonEmpty | lib/ocrPreprocess.ts:51-69 | an image of at least 2 by 2 gets a crop of at least one pixel each way |
| OcrPreprocess.CropOfSinglePixel | lib/ocrPreprocess.ts:51-69 | a 1 by 1 image gets a crop of width and height 0 |
| OcrPreprocess.ScaleIsLargestFitting | lib/ocrPreprocess.ts:72 | the scale is NaN exactly in the `0 / 0` case; otherwise it is the largest factor of at most 1 that keeps each side within its cap |
| OcrPreprocess.RatioIsRatioOf | lib/ocrPreprocess.ts:72 | `max / side` is the quotient, an infinity or NaN, stated without division |
| OcrPreprocess.FittingFactor | lib/ocrPreprocess.ts:72 | `Math.min(rw, rh, 1)` is NaN exactly in the `0 / 0` case, and otherwise the largest fitting factor |
| OcrPreprocess.WithinCap | lib/ocrPreprocess.ts:72 | a factor no larger than a side's ratio keeps that side within its cap |
| OcrPreprocess.ScaledSideValue | lib/ocrPreprocess.ts:73-74 | for a factor in [0, 1] a side becomes `max(1, floor(side * s))` |
| OcrPreprocess.FitWithinUniformScale | lib/ocrPreprocess.ts:71-76 | both sides are scaled by one and the same largest fitting factor |
| OcrPreprocess.FitWithinDefinedness | lib/ocrPreprocess.ts:71-76 | a side is NaN exactly in the `0 / 0` case; otherwise both are whole numbers of at least 1 |
| OcrPreprocess.FitWithinNoUpscale | lib/ocrPreprocess.ts:71-76 | no side grows past the crop's (or 1), nor past a cap of at least 1 |
| OcrPreprocess.FitWithinFactor | lib/ocrPreprocess.ts:71-76 | the output is both sides scaled by the returned largest fitting factor |
| OcrPreprocess.FitAtBounds | lib/ocrPreprocess.ts:73-74 | scaling by a fitting factor never upscales |
| OcrPreprocess.FitWithinKeepsFittingCrop | lib/ocrPreprocess.ts:71-76 | a crop that fits is kept at its own size |
| OcrPreprocess.ByteAt | lib/ocrPreprocess.ts:86-88 | `d[k]` is finite exactly inside the buffer, and is then a whole number in [0, 255]; past the end it is NaN, from `undefined` |
| OcrPreprocess.Stretched | lib/ocrPreprocess.ts:91-97 | the stretched luminance lies in [0, 255] |
| OcrPreprocess.GrayOfBytes | lib/ocrPreprocess.ts:91-97 | the number arithmetic of the pass on a whole pixel is the exact stretch |
| OcrPreprocess.GrayOfMissingChannel | lib/ocrPreprocess.ts:86-99 | a pixel missing a channel is written as 0 |
| OcrPreprocess.GrayOfPixel | lib/ocrPreprocess.ts:86-99 | the bytes read at `i` give the pixel's gray value |
| OcrPreprocess.GrayIsNearest | lib/ocrPreprocess.ts:91-99 | the gray value is the byte nearest to the clamped stretched luminance, ties to even |
| OcrPreprocess.GrayMonotone | lib/ocrPreprocess.ts:91-99 | a brighter pixel, channel by channel, is no darker |
| OcrPreprocess.GrayStretchesContrast | lib/ocrPreprocess.ts:94 | on gray pixels values above 128 do not darken, values below do not lighten, and 0, 128 and 255 stay fixed |
| OcrPreprocess.Enhanced | lib/ocrPreprocess.ts:85-101 | the pass keeps the buffer's length |
| OcrPreprocess.EnhancedAppend | lib/ocrPreprocess.ts:85-101 | the pass distributes over a split at a pixel boundary |
| OcrPreprocess.EnhancedPixel | lib/ocrPreprocess.ts:85-101 | in a complete pixel R, G and B become its gray value and alpha is kept |
| OcrPreprocess.EnhancedTail | lib/ocrPreprocess.ts:85-101 | after the last complete pixel, three bytes get their gray value and one or two bytes become 0 |
| OcrPreprocess.EnhancedAt | lib/ocrPreprocess.ts:85-101 | byte `j` of the pixel at `i` is the pixel's gray value, or its kept alpha |
| OcrPreprocess.EnhanceForOcr | lib/ocrPreprocess.ts:78-102 | the in-place loop leaves the buffer equal to `Enhanced` of what it held |
| OcrPreprocess.WriteGray | lib/ocrPreprocess.ts:99 | `d[i] = d[i + 1] = d[i + 2] = y` writes the three bytes that exist and nothing else |
| OcrPreprocess.PixelGrayAt | lib/ocrPreprocess.ts:86-97 | the bytes read and the arithmetic give `PixelGray` |
| OcrPreprocess.DefaultOutputSizeBounds | lib/ocrPreprocess.ts:18-30 | with the default options every image gives a canvas between 1 by 1 and 1100 by 1100 pixels |

## Left out

- The `POST` handler (`route.ts:70-117`) is not modelled. It does form parsing, base64, the Google Vision HTTP call and JSON plumbing.
- The browser steps of the preprocessor are not modelled: image loading, `drawImage`, `getImageData`/`putImageData` and JPEG encoding. They are graphics APIs whose output is not specified. `OutputSize` chains only the options, the crop and fit-within.
- IEEE-754 rounding is not modelled. Numbers are exact reals.
  - `w * 0.10`-style products are exact, so a product that a double rounds across a whole number can floor differently.
  - The luminance and contrast arithmetic is exact before the byte store.
  - Overflow to an infinity and NaN are modelled. Signed zero and `-0` are not.
- JsNumber.ParseNumber covers only the decimal forms (`ddd`, `ddd.`, `.ddd`, `ddd.ddd`, the empty string) and reads everything else as NaN. That is safe here because the regex only produces digits, commas and a point. Exponents, hex, `Infinity` and surrounding white space are not modelled.
- A Dafny `char` is a Unicode scalar value, while an ECMAScript string is a sequence of UTF-16 code units. Unpaired surrogates are therefore not modelled, and a character outside the Basic Multilingual Plane is one `char` instead of two code units. Nothing modelled depends on this. `\d`, `\w` and `\s`, `split("\n")` and the ASCII markers only ever match characters of the Basic Multilingual Plane, and `trim` uses the ECMAScript white-space set.
- Image sizes and caps are whole numbers (`Count`). Fractional or negative option values are not modelled.
- Some definitions have no `ensures` of their own. Their properties are the lemmas in the table:
  - the matcher's `AmountRegex.FirstMatch` and `AmountRegex.MatchAll`;
  - the extractor's `InstapayRoute.HasMarker`, `InstapayRoute.HasTransferAmount`, `InstapayRoute.FirstTokenAmount`, `InstapayRoute.MarkedAmount`, `InstapayRoute.FirstMarked`, `InstapayRoute.AllTokens`, `InstapayRoute.Candidates`, `InstapayRoute.SelectAmount` and `InstapayRoute.BestAmount`;
  - the case-insensitive search `JsText.MatchesAt` and `JsText.ContainsIgnoringCase`, and the number operations `JsNumber.Times`, `JsNumber.Plus` and `JsNumber.Minus`;
  - the preprocessor's `OcrPreprocess.Scale`, `OcrPreprocess.ScaledSide`, `OcrPreprocess.FitWithin`, `OcrPreprocess.Luminance`, `OcrPreprocess.Adjusted`, `OcrPreprocess.GrayOf`, `OcrPreprocess.Gray`, `OcrPreprocess.PixelGray` and `OcrPreprocess.OutputSize`.
- Receipts.PrintedAmountAlone: the formatting round trip is proved for printed amounts below one million with two decimals, i.e. at most one thousands group. The limit of one million is forced by the code, not only by the proofs: a two-decimal amount from `1,000,000.00` up has nine digits or more, so `isPhoneLike` rejects it and no tier returns it (`MillionIsPhoneLike`). Amounts with one decimal, or grouped without decimals, are matched by the same regex but not covered by the lemmas; whole numbers without groups are covered by the whole-number lemmas.
- Grouped whole numbers (`30,000`, `27,600`) are matched by the same alternative as `1,250.00` but are not covered by a lemma. Whole numbers without groups are covered (`WholeAmountMatch`).
- Where the code differs from the system's stated intent, the model follows the code:
  - A 1-pixel-wide or 1-pixel-high image gets a crop of 0 pixels on that side. `fitWithin` then still returns 1 (`CropOfSinglePixel`).
  - The output is not always within `maxWidth` × `maxHeight`. A cap of 0 gives a side of 1, or NaN when the crop side is also 0. `FitWithinNoUpscale` bounds the side by the cap only when the cap is at least 1, and `FitWithinDefinedness` names the NaN case.
  - The "11 digits starting `01`" phone rule can never decide anything, because the "9 digits or more" rule already covers it (`IsPhoneLike`).
  - A value of a million or more printed with thousands separators and two decimals does not read back. The regex matches `1,234,567.89`, the example in the comment above it, but its nine digits make it phone-like, so `extractBestAmount` drops it in every tier (`MillionIsPhoneLike`, `NineDigitsUnusable`). The multi-group amounts the extractor can return have at most eight digits, e.g. `1,234,567` or `1,234,567.8`.
