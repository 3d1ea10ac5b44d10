# FlashFusion client-side input security, in Dafny

This project models `src/lib/security.ts` of the FlashFusion flashcard
application. That file is the client-side validation layer that every deck
and flashcard form goes through. It has three parts:

- **Text validator and sanitiser** (`validateAndSanitizeText`).
  - It runs its checks in order and stops at the first failure: blank input, input over the length limit, XSS patterns, then SQL-injection patterns.
  - Accepted input is HTML-entity-encoded (`&` first, then `<`, `>`, `"`, `'`) and trimmed.
  - Per-field wrappers supply the limits: question and answer 2000, title 255, description 1000. A blank description is accepted as `""`.
  - `sanitizeForDisplay` decodes the entities again.
- **File-upload check** (`validateFileUpload`): an allowlist of four image MIME types, then an inclusive 5 MiB size cap.
- **Sliding-window rate limiter** (`ClientRateLimiter`): for each key, the timestamps of the attempts it let through.
  - `canAttempt` prunes the key's timestamps to the window. It refuses once `maxAttempts` remain; otherwise it records `now`.
  - `getRemainingTime` reports how long until the oldest attempt leaves the window.

Modules:

- `Text` (text.dfy): JavaScript's whitespace set, `trim`, ASCII case folding and substring occurrence.
- `Patterns` (patterns.dfy): the two pattern lists. Each regular expression is modelled as an exact predicate over the lower-cased input, not as a regex engine.
- `HtmlEntities` (entities.dfy): the encode chain, the decode chain and the round-trip theory.
- `Validation` (validation.dfy): the result record, the limits, the text validator, the wrappers and the file check.
- `RateLimiting` (rate_limiter.dfy): the rate limiter, as a class whose `attempts` map the methods update.

The wall clock (`Date.now()`) becomes a `now` argument. A `File` is modelled as a record holding its MIME type and its size.

An opening `<script>` tag with no closing tag is **accepted**. All four tag patterns (src/lib/security.ts:17-20) need a closing tag, so an unclosed `<script>` passes the XSS check. The text is then stored encoded as `&lt;script&gt;` (`Validation.UnclosedScriptTagAccepted`).

## Model

| member | source | states |
|---|---|---|
| Text.IsWhitespace | src/lib/security.ts:52 | the characters `trim` strips and `\s` matches: JavaScript's WhiteSpace and LineTerminator code points. Used by `Trim`, the `\s` runs of `Patterns.Matches` and `Validation.NoTriggerNoMatch` |
| Text.Lower | src/lib/security.ts:17-34 | the `i` flag: a string of the same length in which exactly `A`..`Z` become lower case. All patterns are matched against it |
| Text.Trim | src/lib/security.ts:52 | `trim`: the result neither starts nor ends with whitespace; it holds only characters of the input; it is empty exactly when the input is blank |
| Text.TrimIsMiddle | src/lib/security.ts:52 | `trim` cuts a blank prefix and a blank suffix and nothing else: the result is a contiguous stretch `s[i..j]` of the input, with blank text on both sides |
| Text.NatToStringValue | src/lib/security.ts:63 | the rendering of a non-negative number reads back as that number and has no leading zero except for 0: it is the canonical decimal numeral |
| Patterns.Matches | src/lib/security.ts:16-35 | one regular expression tested against the input. It has no contract of its own. The lemmas in this table state what each pattern kind needs in order to match |
| Patterns.MatchesAny | src/lib/security.ts:68-85 | a `for ... of` loop over a pattern list that stops at the first pattern that matches. It has no contract of its own. `ValidateAndSanitizeText` states the order of the two loops and their messages |
| Patterns.QuoteOrTerminatorExactly | src/lib/security.ts:28 | the first SQL pattern matches exactly the inputs holding a `'` or a `;` |
| Patterns.QuoteOrSemicolonFlagged | src/lib/security.ts:28 | any input with a quote or a semicolon is an SQL-injection suspect |
| Patterns.ScriptBlockFlagged | src/lib/security.ts:17 | `<script` (any case) followed by a non-word character and, later, `</script>` is flagged as XSS |
| HtmlEntities.ReplaceAll | src/lib/security.ts:89-93 | `.replace(/lit/g, rep)`: every occurrence, found left to right without overlap, is replaced. It has no contract of its own. `ReplaceAbsent`, `EncodeStep`, `DecodeStep` and `CountPreserved` carry its properties |
| HtmlEntities.ReplaceAbsent | src/lib/security.ts:89 | a global literal `.replace` leaves alone a text that does not contain the pattern's first character |
| HtmlEntities.EncodeStep | src/lib/security.ts:89-93 | replacing one more reserved character by its entity extends the per-character encoding. This holds only because `&` is replaced first, before any entity exists |
| HtmlEntities.EncodeEntities | src/lib/security.ts:88-93 | the five-step replace chain equals the per-character encoding `EncodeChars`: each reserved character becomes its entity and every other character is kept |
| HtmlEntities.SanitizeForDisplay | src/lib/security.ts:191-198 | the decode chain as written, `&amp;` first: text without `&` is returned unchanged. `RoundTripExactly` states when it inverts the encoding |
| HtmlEntities.EncodedHasNoMarkup | src/lib/security.ts:88-93 | encoded text holds no raw `<`, `>`, `"` or `'` |
| HtmlEntities.EncodeCommutesWithTrim | src/lib/security.ts:88-94 | trimming after encoding equals encoding the trimmed input |
| HtmlEntities.DecodeStep | src/lib/security.ts:193-197 | one decode step turns back exactly the encoded occurrences of its character, unless a raw `&` of the original already reads as that character's entity |
| HtmlEntities.DecodeGains | src/lib/security.ts:194-197 | when a raw `&` reads as an entity, that decode step produces at least one character more than the original held |
| HtmlEntities.RoundTripWhenNotLooksEncoded | src/lib/security.ts:191-198 | `sanitizeForDisplay` undoes the encoding of any input in which no `&` is followed by `lt;`, `gt;`, `quot;` or `#x27;` |
| HtmlEntities.RoundTripFailsWhenLooksEncoded | src/lib/security.ts:191-198 | for every other input the round trip does not give the input back |
| HtmlEntities.RoundTripExactly | src/lib/security.ts:191-198 | the round trip holds if and only if no `&` of the input already reads as an entity |
| HtmlEntities.NoAmpersandRoundTrips | src/lib/security.ts:191-198 | text without `&` always comes back unchanged |
| HtmlEntities.NoSemicolonNotLooksEncoded | src/lib/security.ts:193-197 | every entity ends in `;`, so text without a semicolon never looks encoded |
| HtmlEntities.AmpFirstCounterexample | src/lib/security.ts:193-194 | `&lt;` encodes to `&amp;lt;`, and the decoder as written turns that into `<` |
| HtmlEntities.AmpLastRoundTrip | src/lib/security.ts:191-198 | with `&amp;` decoded last, decoding inverts the encoding for every input |
| Validation.IntToString | src/lib/security.ts:63 | the limit printed in the message: non-empty, with a leading `-` exactly for negative limits |
| Validation.IntToStringValue | src/lib/security.ts:63 | after the sign, the printed limit is the canonical decimal numeral of its magnitude: digits only, reading back as the magnitude, with no leading zero unless the limit is 0 |
| Validation.ValidateAndSanitizeText | src/lib/security.ts:46-100 | The result is accepted iff the input is not blank, is within the limit and matches no XSS or SQL pattern. Failures are checked in order: blank, then length, then XSS, then SQL, and each carries its own message and no value. A success carries no message, and its value is the encoding of the trimmed input. That value contains no raw markup characters and displays as the trimmed input under both the written and the corrected decoder. Accepted input never contains `'` or `;` |
| Validation.SanitizedFacts | src/lib/security.ts:87-94 | for input that no SQL pattern matches, and so has no quote or semicolon, encode-then-trim is the encoding of the trimmed input; it is free of markup and decodes back to the trimmed input |
| Validation.ValidateQuestion | src/lib/security.ts:105-111 | the validator with limit 2000 and field name `Question`: it accepts iff the input is acceptable under 2000, and gives the empty and length messages for the field |
| Validation.ValidateAnswer | src/lib/security.ts:116-122 | the same with limit 2000 and field name `Answer` |
| Validation.ValidateTitle | src/lib/security.ts:127-133 | the same with limit 255 and field name `Title` |
| Validation.ValidateDescription | src/lib/security.ts:138-149 | blank input gives `{isValid: true, sanitized: ""}` without any pattern check. Other input is accepted iff it is acceptable under 1000, and over-length input gets the `Description` length message |
| Validation.QuestionLengthMessage | src/lib/security.ts:105-111 | the question's length message reads `Question must be 2000 characters or less` |
| Validation.AnswerLengthMessage | src/lib/security.ts:116-122 | the answer's length message reads `Answer must be 2000 characters or less` |
| Validation.TitleLengthMessage | src/lib/security.ts:127-133 | the title's length message reads `Title must be 255 characters or less` |
| Validation.DescriptionLengthMessage | src/lib/security.ts:138-149 | the description's length message reads `Description must be 1000 characters or less` |
| Validation.QuoteOrSemicolonRejected | src/lib/security.ts:78-85 | input with a quote or semicolon that passes the earlier checks is refused with `<field> contains invalid characters` |
| Validation.ScriptBlockRejected | src/lib/security.ts:68-75 | a closed script block within the limit is refused with `<field> contains potentially dangerous content` |
| Validation.NoTriggerNoMatch | src/lib/security.ts:16-35 | every pattern of both lists needs a `/`, `=`, `:`, quote, semicolon or whitespace in the input to match |
| Validation.NoTriggerAccepted | src/lib/security.ts:46-100 | non-blank text within the limit and without those characters is accepted |
| Validation.UnclosedScriptTagAccepted | src/lib/security.ts:17 | `<script>` alone is accepted as a question; it is stored encoded and displays as typed |
| Validation.ValidateFileUpload | src/lib/security.ts:203-222 | The upload is accepted iff its type is one of the four image types and its size is at most 5242880 bytes. A refused type gets the type message whatever the size. An allowed type over the cap gets the size message. A success carries neither a message nor a value |
| Validation.FileSizeBoundary | src/lib/security.ts:205-219 | an image of exactly 5 MiB passes; one byte more fails; an oversized file of a refused type gets the type message |
| RateLimiting.Recent | src/lib/security.ts:162 | the window filter keeps exactly the timestamps `t` with `now - t < windowMs`, and never lengthens the list |
| RateLimiting.Min | src/lib/security.ts:179 | `Math.min` of a non-empty list is an element of it and at most every element |
| RateLimiting.RecentConcat | src/lib/security.ts:162 | the filter keeps the order of the attempts: filtering two consecutive parts is filtering each part |
| RateLimiting.RecentSingle | src/lib/security.ts:162 | a single timestamp is kept exactly when `now - t < windowMs`. With `RecentConcat` this pins the filter's result down completely |
| RateLimiting.RecentMultiplicity | src/lib/security.ts:162-164 | each copy of a timestamp inside the window survives and each copy outside is dropped, so repeated timestamps each count towards `maxAttempts` |
| RateLimiting.PruneLater | src/lib/security.ts:162 | pruning at one instant and then at a later one is the same as pruning at the later one |
| RateLimiting.RecentKeepsAll | src/lib/security.ts:162 | nothing is pruned while every attempt is inside the window |
| RateLimiting.ClientRateLimiter.constructor | src/lib/security.ts:155 | a new limiter has an empty map |
| RateLimiting.ClientRateLimiter.CanAttempt | src/lib/security.ts:157-173 | Allowed iff fewer than `maxAttempts` of the key's timestamps are inside the window. On refusal the map is unchanged. When allowed, the key holds the pruned list followed by `now`, so it holds at most `maxAttempts` entries and includes `now`. Other keys never change, and no stored list is empty |
| RateLimiting.ClientRateLimiter.GetRemainingTime | src/lib/security.ts:175-183 | It returns 0 for a key without attempts and `max(0, windowMs - (now - oldest))` for a stored key, whose history the class invariant keeps non-empty. The result is never negative. It is positive iff every recorded attempt is still inside the window. It is at most `windowMs` when `windowMs >= 0` and no attempt lies in the future. Nothing changes |
| RateLimiting.ThreeAttemptsThenWindow | src/lib/security.ts:157-183 | with a limit of 3, three calls at one instant are allowed and the fourth is refused; the key then waits 60000 ms, and a call one full window later is allowed |

## Left out

- The stateful matching of `/g` regular expressions under `.test` is not modelled. The model assumes stateless matching: each test scans the whole input. In the source, `lastIndex` carries over between calls and can make a later call miss a match.
- Patterns.Matches folds only ASCII letters to lower case. That is exact for these ASCII-only, non-unicode expressions.
- Validation.ValidateAndSanitizeText counts lengths in characters (code points). JavaScript counts UTF-16 code units, so a text with characters outside the Basic Multilingual Plane can pass the model's length check and fail the source's.
- Validation.ValidateAndSanitizeText takes the limit as an integer. The source accepts any JavaScript number; fractional and non-finite limits are not modelled.
- `null` or `undefined` input, which the source's `!input` also rejects as empty, is not modelled: inputs are strings.
- Validation.ValidateFileUpload takes the size as a natural number. Fractional sizes are not modelled.
- Validation.IntToString prints every digit of a limit. JavaScript prints integers of 10^21 and above in exponent form (`1e+21`), so the model's message text differs from the source's for such limits.
- RateLimiting.ClientRateLimiter.CanAttempt and RateLimiting.ClientRateLimiter.GetRemainingTime take `maxAttempts`, `windowMs` and the timestamps as integers. The source accepts any JavaScript number. Fractional or non-finite values are not modelled, including a fractional `windowMs`, for which `getRemainingTime` returns a fraction.
- `rateLimiter`, the module-level shared instance, is not modelled: the model creates limiters explicitly.
- `Date.now()` is not modelled: each call takes `now` as an argument.
- `CATEGORY_MAX_LENGTH` and `DISPLAY_NAME_MAX_LENGTH` are defined as constants, but no validator in the file uses them.
- Nothing else in the repository is modelled:
  - the React components and pages, which only render and call the hosted database;
  - the edge function that calls a text-generation service;
  - the security-event monitor. `securityMonitor` is imported at src/components/SecurityDebugPanel.tsx:5, but `src/lib/security.ts` does not define it. The module that defines it is not part of this model.

## Findings

| source | as written | input that shows it | evidently intended | confidence | as-written member | corrected member |
|---|---|---|---|---|---|---|
| src/lib/security.ts:193-197 | `sanitizeForDisplay` decodes `&amp;` before the other entities, so an `&` produced by that first step combines with the text after it into a new entity | `&lt;` encodes to `&amp;lt;`, which displays as `<` instead of `&lt;` | decode `&amp;` last, so that every encoded text displays exactly as typed | not executed; text that passed the validator never triggers it, because the validator refuses every `;` and each entity ends in `;` | HtmlEntities.AmpFirstCounterexample | HtmlEntities.AmpLastRoundTrip |
