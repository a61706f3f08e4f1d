# libcribaly detection predicates in Dafny

This project models `src/detectionMethods.ts`, a set of heuristic checks that flag a hyperlink as possibly
malicious. Each check is a function of the link (and, for `isFakingDestination`, its displayed text), of the
numeric `limit` where there is one, and of three read-only reference tables: known shortening services,
popular websites and suspicious top-level domains.

- `wrappers.dfy` (`Wrappers`): `Option` and `Result`.
- `url.dfy` (`Urls`): the parsed URL record (`host` with any non-default port, `hostname` without it, `pathname`,
  canonical `href`) and `Chunk`, the `host + pathname` text that two of the checks scan.
- `js_string.dfy` (`JsString`): the JavaScript string built-ins the code relies on: `includes`,
  `lastIndexOf` and one-argument `substring` with its clamping of out-of-range starts.
- `levenshtein.dfy` (`Levenshtein`): edit distance by its recursive definition, with its basic laws.
- `secret_runs.dfy` (`SecretRuns`): the consonant and vowel run counters of `isSecretLike` as functions
  of the scanned prefix, plus an independent description: the text is flagged exactly when its letters,
  with every other character dropped, hold more than `limit` consonants or vowels in a row.
- `detection_methods.dfy` (`DetectionMethods`): the predicates. The loops of `isShortened`,
  `isSecretLike`, `isTyposquatting` and `isSuspiciousTLD` are methods with loops and early returns, each
  proved against a specification function or a closed-form statement. The counter loop of
  `isSecretLike` is the method `ScanChunk`, and its two inner passes over the letter strings are
  `CountLetter`. `isHyphened`,
  `isFakingDestination` and `getTLD` are single expressions in the source and are functions here.
- `worked_cases.dfy` (`WorkedCases`): links from the repository's test file, traced through the model.

The URL parser is a parameter `parse: string -> Option<Url>`, where `None` means that `new URL` throws.
Every property holds for every parser. The reference tables are `seq<string>` parameters. A thrown
`Error("Expected a positive limit parameter")` is the result `Err(InvalidLimit)`. The default limits (5 and 3)
are default parameter values.

Three behaviours of the code that are easy to misread:
- `isSecretLike` scans `host + pathname`, so a port is part of the text. Port digits and `:` are not
  letters, so they never move a counter.
- Only the lower-case letters in `bcdfghjklmnpqrstvwxz` and `aeiouy` move the counters. Upper-case
  letters are skipped like digits, so the scan is not case-insensitive.
- `isTyposquatting` and `isSuspiciousTLD` parse the link inside their loops. With an empty table they
  return `false` without parsing anything. In `isTyposquatting` a popular entry that fails to parse ends
  the scan with `false`, even if a later entry would have matched.

## Model

| member | source | states |
|---|---|---|
| `Urls.Chunk` | src/detectionMethods.ts:80 | the scanned text is the host (with port) followed by the path, with both parts recoverable from it |
| `JsString.Includes` | src/detectionMethods.ts:31 | `s.includes(sub)` is true iff `sub` occurs in `s` at some index as a contiguous block |
| `JsString.IncludesChar` | src/detectionMethods.ts:47 | including a one-character string is membership of that character |
| `JsString.LastIndexOf` | src/detectionMethods.ts:151 | the result is -1 or an index holding `c`, and no later index holds `c` |
| `JsString.Substring` | src/detectionMethods.ts:152 | the result is a suffix; a start at or below 0 gives the whole string, one at or past the end gives the empty string, otherwise the suffix from the start |
| `DetectionMethods.IsShortened` | src/detectionMethods.ts:24-40 | true iff the link parses, its path is not `/`, and some listed entry is a substring of its hostname; false on a parse failure or an empty table |
| `DetectionMethods.SubdomainStillShortened` | src/detectionMethods.ts:31 | a hostname that contains a listed entry still contains it with any subdomain prefix added (`test.app.link` for `app.link`) |
| `DetectionMethods.IsHyphened` | src/detectionMethods.ts:42-56 | true iff the link parses and its hostname contains `-` |
| `DetectionMethods.HyphenedIgnoresPath` | src/detectionMethods.ts:47 | two links with the same hostname get the same verdict, whatever their paths or queries |
| `DetectionMethods.IsFakingDestination` | src/detectionMethods.ts:58-71 | false unless both strings parse; when both parse, true iff their canonical `href`s differ |
| `DetectionMethods.FakingDestinationSymmetric` | src/detectionMethods.ts:62 | swapping the link target and the displayed text leaves the verdict unchanged |
| `DetectionMethods.NeverFakesItself` | src/detectionMethods.ts:62 | a link whose displayed text is its own target is never flagged |
| `DetectionMethods.IsSecretLike` | src/detectionMethods.ts:73-107 | fails with `InvalidLimit` iff `limit < 1`, whatever the link; otherwise true iff the link parses and some non-empty prefix of `host + pathname` drives a run counter above `limit` |
| `DetectionMethods.ScanChunk` | src/detectionMethods.ts:87-106 | the counter loop with its early return yields true iff the text is secret-like in the sense of `SecretRuns.SecretLikeText` |
| `DetectionMethods.CountLetter` | src/detectionMethods.ts:89-101 | the two inner loops amount to one counter step: a consonant extends the consonant run and zeroes the vowel run, a vowel the reverse, anything else changes neither |
| `SecretRuns.ListsAreTheKinds` | src/detectionMethods.ts:85-86 | the consonant string holds exactly the lower-case ASCII letters other than `aeiouy`, the vowel string exactly `aeiouy`, and neither repeats a letter, so a character matches at most once in the inner loops |
| `SecretRuns.Step` | src/detectionMethods.ts:89-101 | one character's effect: a consonant adds one to the consonant run and zeroes the vowel run, a vowel the reverse, any other character leaves both; it keeps at most one counter non-zero and raises their sum by at most one |
| `SecretRuns.Run` | src/detectionMethods.ts:87-101 | the counters after reading a text from zero, one step per character in order; at most one of them is non-zero and their sum is at most the text's length |
| `SecretRuns.SecretLikeText` | src/detectionMethods.ts:89-106 | the scan returns true iff after some character a counter is above `limit`; for `limit >= 0` this needs a text longer than `limit` |
| `SecretRuns.RunOneMore` | src/detectionMethods.ts:89-104 | the counters after one more character are one step from the counters before it |
| `SecretRuns.CountersAreTrailingRuns` | src/detectionMethods.ts:87-101 | after any prefix, each counter is the length of the current run of its kind among the letters read so far, non-letters dropped |
| `SecretRuns.SecretLikeHasBlock` | src/detectionMethods.ts:102-104 | a counter above `limit` after some prefix means more than `limit` letters of one kind in a row |
| `SecretRuns.BlockMakesSecretLike` | src/detectionMethods.ts:102-104 | more than `limit` letters of one kind in a row make some prefix drive a counter above `limit` |
| `SecretRuns.SecretLikeIffLongBlock` | src/detectionMethods.ts:84-106 | the scan flags a text iff its letters, other characters dropped, hold more than `limit` consonants or vowels in a row; digits and punctuation neither extend nor break a run |
| `SecretRuns.RunClimbsOnBlock` | src/detectionMethods.ts:89-101 | inside a stretch of one kind of letter, the matching counter grows by at least one per letter |
| `SecretRuns.BlockInTextIsSecretLike` | src/detectionMethods.ts:102-104 | a contiguous stretch of more than `limit` consonants, or of vowels, anywhere in the text makes the scan report it |
| `Levenshtein.Distance` | src/detectionMethods.ts:125 | the value of the `levenshtein` call: the textbook recursion (delete, insert or substitute, substitution free on equal characters); never more than the two lengths added |
| `DetectionMethods.Near` | src/detectionMethods.ts:125-126 | the test `distance > 0 && distance < limit` on the two host-and-path texts; a near entry differs from the link, and nothing is near when `limit <= 1` |
| `DetectionMethods.TypoScan` | src/detectionMethods.ts:114-130 | the loop over the popular sites: each round parses the link and the entry, stops with false on a parse failure and with true on a near entry; true only if the link parses, the table is non-empty and `limit > 1` |
| `DetectionMethods.IsTyposquatting` | src/detectionMethods.ts:109-131 | fails with `InvalidLimit` iff `limit < 1`, whatever the link; otherwise returns the left-to-right scan over the popular sites that stops with false at the first parse failure and with true at the first entry near the link |
| `DetectionMethods.TypoScanFindsNearEntry` | src/detectionMethods.ts:117-129 | the scan is true iff the link parses and some entry, all entries up to it parsing, lies at edit distance strictly between 0 and `limit` |
| `DetectionMethods.TypoScanOnParsedList` | src/detectionMethods.ts:117-129 | when every popular entry parses, the scan is true iff the link parses and is near some entry |
| `DetectionMethods.NearMeansDifferentButClose` | src/detectionMethods.ts:125-126 | an entry is near iff its text differs from the link's and their distance is below `limit`, so an exact match is never flagged, and near texts differ in length by less than `limit` |
| `DetectionMethods.NearSymmetric` | src/detectionMethods.ts:125-126 | nearness does not depend on which side is the link |
| `Levenshtein.ZeroIffEqual` | src/detectionMethods.ts:125-126 | the edit distance is 0 exactly when the two strings are equal |
| `Levenshtein.Symmetric` | src/detectionMethods.ts:125 | the edit distance is symmetric |
| `Levenshtein.AtLeastLengthDifference` | src/detectionMethods.ts:125 | the edit distance is at least the difference of the lengths |
| `Levenshtein.AtMostLongerLength` | src/detectionMethods.ts:125 | the edit distance is at most the longer length |
| `DetectionMethods.GetTLD` | src/detectionMethods.ts:150-153 | the result is a suffix of the hostname; with a `.` in the hostname it starts with `.` and holds no other `.`; with none it is the whole hostname |
| `DetectionMethods.TLDFromLastDot` | src/detectionMethods.ts:150-153 | when index `n` holds the last `.` of the hostname, the top-level domain is exactly the suffix from `n` |
| `DetectionMethods.IsSuspiciousTLD` | src/detectionMethods.ts:133-148 | true iff the link parses and its hostname's top-level domain is exactly one of the listed entries (equality, not substring); false on a parse failure or an empty table |
| `DetectionMethods.UndottedEntriesNeverMatch` | src/detectionMethods.ts:143 | list entries without a leading `.` can never match a hostname that contains a `.` |
| `WorkedCases.SecretLikePath` | tests/detectionMethods.test.ts:229-232 | `justaregularlink.com/lkjljkljlj` is flagged at limit 5, because the path holds the six consonants `lkjljk` in a row |
| `WorkedCases.SecretLikeConsonants` | tests/detectionMethods.test.ts:209-212 | `awwwwwwwwebsitewithtoomanyconsons.com/` is flagged at limit 5 |
| `WorkedCases.SecretLikeVowels` | tests/detectionMethods.test.ts:214-217 | `awebiiiiiiiiitewithtoomanyvoyels.com/` is flagged at limit 5 |
| `WorkedCases.TopLevelDomainCom` | tests/detectionMethods.test.ts:293-296 | the top-level domain of `mozilla.com` is `.com` |
| `WorkedCases.TopLevelDomainCa` | tests/detectionMethods.test.ts:288-291 | the top-level domain of `justaregularlink.ca` is `.ca` |

## Left out

- `isIPAddress` (src/detectionMethods.ts:6-22): it is two JavaScript regular expressions run with `\b`, the `g` flag and unanchored `test`. Modelling it faithfully would mean modelling the regex engine, not this repository's logic.
- URL parsing and canonicalisation (`new URL`): this is the WHATWG URL parser, a foreign library. It is an arbitrary parser parameter here, so the model does not know that `https://x.com` and `https://x.com/` serialise alike.
- The `js-levenshtein` implementation: a foreign library. Only the distance it returns is modelled, by its recursive definition.
- Console logging on detection and on parse failure: an observability side effect that never affects a verdict.
- `async` and `Promise`: nothing is awaited, so every predicate is synchronous here.
- The three JSON tables: their contents are not part of this model. They are parameters.
- The commented-out `isUnknownTLD` and `isTrendingFishing`: they are not code.
- `IsSecretLike`, `IsTyposquatting`: `limit` is a JavaScript number and may be fractional or NaN; the model takes an integer.
- JavaScript strings are UTF-16. `for...of` walks code points, while `includes`, `lastIndexOf`, `substring` and `js-levenshtein` (which compares `charCodeAt` code units) count code units. The model uses code points throughout. That differs only for characters outside the Basic Multilingual Plane, and the visible case is the distance: such a character costs two edits in `js-levenshtein` and one in the model.
