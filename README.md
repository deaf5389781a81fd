# Jan Aawaz moderation and digest pipeline — a Dafny model

Jan Aawaz is a civic reporting app. Citizens file problem reports. Each report's
text is screened by a hate-speech classifier, with a local keyword filter as the
fallback. Leaders get a digest that groups the reports by category and
summarizes each group, with a local truncation as the fallback. This project
models that pipeline in Dafny and proves properties of it. It also models two
small pure helpers: the hexadecimal nonce encoder used for Google sign-in, and
the maintenance-mode access rule.

The calls to the Hugging Face inference API become inputs:

- `ClassifierOutcome` is either `Threw` (the `fetch` or the JSON parse raised, or
  the body parsed to `null` so that reading `result[0]` raised) or
  `Parsed(firstLabel, score)`: what `result[0]?.label` and `result[0].score` were.
- `SummaryOutcome` is either `SummaryThrew` (the same three ways) or
  `SummaryParsed(summaryText)`:
  what `result[0]?.summary_text` was.
- The digest takes one `SummaryOutcome` per category group, in group order.
  `Promise.all` keeps results in index order, so the model is a sequential map
  over the groups.
- The random bytes of the nonce and the `admin_settings` row are inputs.

Modules, one per component:

- `Wrappers` (`wrappers.dfy`): `Option`.
- `Text` (`text.dfy`): the JavaScript string operations the moderation and digest code uses, over ASCII:
  `toLowerCase`, `toUpperCase`, `substring(0, n)` with its index clamping,
  `includes`, `join`, and decimal rendering of a count.
- `Moderation` (`moderation.dfy`): `moderateContent` and `summarizeText`.
- `Digest` (`digest.dfy`): `generateLeaderDigest`. The `reduce` that mutates an
  accumulator object is the imperative method `GroupByCategory`. It is proved
  equal to the specification function `Grouping`, which is a stable partition.
  The rendering and join are functions.
- `Nonce` (`nonce.dfy`): `generateNonce` as a bytes-to-lower-case-hex encoder,
  with a decoder as its partner.
- `Availability` (`availability.dfy`): `isAppAvailable`.

Behaviour of the code that the model follows:

- The code reads only element 0 of the classifier response. It does not pick the
  highest score.
- A response that parses but has no truthy label gives `{false, 'unknown', 0}`.
  It does not fall back to the keyword filter.
- The verdict has no `source` field. The confidence is not clamped.
- There are no timeouts, cancellation, bounded fan-out or input validation.
- The truncation fallback appends `...` even when the text is shorter than
  `maxLength`.

## Model

| member | source | states |
|---|---|---|
| Moderation.ModerateContent | src/services/moderationService.js:7-38 | The verdict has exactly three shapes. On an exception it is `{keyword hit, 'neutral', 0.5}`. If element 0 has a truthy label, `flagged` holds iff the label is `'hate'`, `sentiment` is the label and `confidence` is the score. A parsed response without a truthy label (absent or empty) gives `{false, 'unknown', 0}` |
| Moderation.FallbackFlagsIffDenyWordOccurs | src/services/moderationService.js:28-37 | On the exception path, `flagged` holds iff one of `gali`, `abuse`, `spam` occurs at some index of the lower-cased text |
| Moderation.FallbackIgnoresCase | src/services/moderationService.js:33 | Two texts that are equal after lower-casing get the same fallback verdict |
| Moderation.ParsedIgnoresText | src/services/moderationService.js:20-27 | Once the response parsed, the verdict does not depend on the text: the deny-list is not consulted |
| Moderation.FlaggedCauses | src/services/moderationService.js:20-37 | A verdict is flagged iff the classifier's first label is `'hate'`, or the call threw and a deny-list word occurs in the lower-cased text |
| Moderation.UpperCaseSpamIsFlagged | src/services/moderationService.js:31-33 | The fallback flags `"Buy SPAM now"`: matching ignores case |
| Moderation.KeywordFlagged | src/services/moderationService.js:31-33 | The keyword filter `KeywordFlagged` answers true iff one of `gali`, `abuse`, `spam` occurs at some index of the lower-cased text |
| Moderation.SomeIncludedIffOccurs | src/services/moderationService.js:33 | `SomeIncluded`, the model of `badWords.some(w => s.includes(w))`, holds iff some listed word occurs in `s` at some index |
| Text.IncludesIffOccurs | src/services/moderationService.js:33 | `Includes`, the left-to-right `includes` scan, answers true iff the word occurs at some index |
| Text.ToLower | src/services/moderationService.js:33 | Lower-casing keeps the length, turns each ASCII capital into its own lower-case letter (code point plus 32), leaves no ASCII capital, and keeps every other character |
| Text.ToLowerIdempotent | src/services/moderationService.js:33 | Lower-casing twice equals lower-casing once |
| Text.Prefix | src/services/moderationService.js:57 | `substring(0, n)` is a prefix of the text whose length is `n` clamped into `[0, len]`: all of it when `n >= len`, empty when `n <= 0` |
| Moderation.Truncation | src/services/moderationService.js:57 | The fallback summary has length `min(maxLength, len) + 3`, starts with a prefix of the text and ends with `...` |
| Moderation.SummarizeText | src/services/moderationService.js:40-59 | The result is the remote `summary_text` when present and non-empty. Otherwise, and on an exception, it is the truncation fallback. It is never empty |
| Moderation.DefaultFallbackBound | src/services/moderationService.js:40-57 | With the default `maxLength` of 100, a fallback summary has at most 103 characters. For a text of at least 100 characters it is the first 100 characters plus `...` |
| Digest.FirstSeenDistinctAndSound | src/services/moderationService.js:63-67 | Each category appears once among the groups, and each is the category of some report |
| Digest.FirstSeen | src/services/moderationService.js:63-67 | Every report's category has a group. There are no more groups than reports |
| Digest.FirstSeenOrder | src/services/moderationService.js:63-71 | Groups are in first-seen order: if group `i` comes before group `j`, a report of `i` precedes every report of `j` |
| Digest.FirstSeenSnoc | src/services/moderationService.js:63-67 | Reading one more report adds its category at the end, unless it was already seen |
| Digest.Members | src/services/moderationService.js:63-67 | Every report in a group has the group's category |
| Digest.MembersSnoc | src/services/moderationService.js:65 | Pushing a report extends only its own category's list, at the end |
| Digest.MembersAppend | src/services/moderationService.js:63-67 | Stability: the group of a concatenation is the group of the first part followed by that of the second, so reports keep their input order |
| Digest.MembersEmptyIffAbsent | src/services/moderationService.js:64 | A category has no reports iff it is not one of the groups |
| Digest.GroupsNonEmpty | src/services/moderationService.js:63-67 | Every group holds at least one report, so every header count is at least 1 |
| Digest.GroupingIsPartition | src/services/moderationService.js:63-67 | The groups, read one after another, are a permutation of the reports (no report dropped or duplicated). The group sizes sum to the number of reports |
| Digest.FirstSeenExample | src/services/moderationService.js:63-71 | Categories `[A, B, A, C]` give the groups A, B, C in that order |
| Digest.MembersExample | src/services/moderationService.js:63-67 | For categories `[A, B, A, C]`, group A holds the first and third report, in that order |
| Digest.GroupByCategory | src/services/moderationService.js:63-71 | The `reduce` over a mutable accumulator, then `Object.entries`, computes exactly the stable partition `Grouping` |
| Digest.MirrorsStep | src/services/moderationService.js:64-65 | One `reduce` step keeps the accumulator's key order equal to the first-seen categories, and each key's list equal to that category's reports |
| Digest.MirrorsGrouping | src/services/moderationService.js:71 | Listing the accumulator's entries in key order gives the grouping |
| Digest.RenderLine | src/services/moderationService.js:72 | A report line is the bullet `• `, the title, `: `, then the description, each at its stated position |
| Digest.Combined | src/services/moderationService.js:72 | The summarizer input of no reports is empty, of one report is its line, and otherwise starts with the first report's line |
| Digest.CombinedSnoc | src/services/moderationService.js:72 | Each further report appends a newline and its own line |
| Digest.Header | src/services/moderationService.js:74 | A header is the upper-cased category, ` (`, the decimal report count, then ` reports):` and a newline, each at its stated position |
| Digest.RenderBlock | src/services/moderationService.js:72-74 | A block is the header `CATEGORY (n reports):` and a newline, followed by the summary of the group's newline-joined `• title: description` lines at `maxLength` 150 |
| Digest.RenderBlocks | src/services/moderationService.js:70-76 | There is one block per group |
| Digest.GenerateLeaderDigest | src/services/moderationService.js:61-79 | The digest is the blocks joined by a blank line. An empty report list gives the empty string |
| Digest.BlockAt | src/services/moderationService.js:70-76 | Block `i` belongs to the `i`-th first-seen category: its upper-cased name, its report count, and the summary of its lines under outcome `i` |
| Digest.FailedGroupGetsTruncation | src/services/moderationService.js:73 | A group whose summarization failed gets its header followed by the first 150 characters of its own lines and `...` |
| Digest.SiblingBlocksUnchanged | src/services/moderationService.js:70-76 | Changing one group's summarizer outcome changes no other group's block |
| Digest.SingleReportFallback | src/services/moderationService.js:61-79 | A single report with a failed summary gives its header followed by its line, cut at 150 characters, and `...` |
| Digest.GroupingSingle | src/services/moderationService.js:63-67 | One report gives one group holding it |
| Digest.SingleReportUnreachable | src/services/moderationService.js:61-79 | A single `road` report with the summarizer unreachable gives `ROAD (1 reports):`, a newline, the report's whole line, then `...` |
| Digest.RoadHeader | src/services/moderationService.js:74 | The header of one `road` report is `ROAD (1 reports):` and a newline |
| Text.ToUpper | src/services/moderationService.js:74 | Upper-casing keeps the length, turns each ASCII lower-case letter into its own capital (code point minus 32), leaves no ASCII lower-case letter, and keeps every other character |
| Text.Decimal | src/services/moderationService.js:74 | A count renders as one or more decimal digits with no leading zero |
| Text.DecimalRoundTrip | src/services/moderationService.js:74 | Reading the rendered count back gives the count |
| Text.Join | src/services/moderationService.js:78 | `join` of no parts is empty, of one part is that part, and otherwise begins with the first part; JoinSnoc places every later part and separator |
| Text.JoinSnoc | src/services/moderationService.js:78 | `join` accumulates left to right: joining one more part appends the separator and then that part |
| Text.JoinLength | src/services/moderationService.js:78 | A join is as long as its parts plus one separator between each pair of neighbours |
| Nonce.HexDigit | src/context/AuthContext.js:99 | A nibble renders as a character in `0-9a-f` |
| Nonce.ToHexString | src/context/AuthContext.js:99 | `toString(16)` gives one or more characters, all in `0-9a-f`, with no leading `0` unless the number is 0; HexRoundTrip pins the digits to the number |
| Nonce.HexRoundTrip | src/context/AuthContext.js:99 | Reading the `toString(16)` rendering back as a base-16 numeral gives the number |
| Nonce.PadStart | src/context/AuthContext.js:99 | `padStart` returns the input when it is already at least the width. Otherwise it returns copies of the fill character followed by the input, exactly `width` characters in all |
| Nonce.ByteToHex | src/context/AuthContext.js:99 | Each byte becomes two characters, high nibble first, with a leading `0` for bytes below 16 |
| Nonce.EncodeHex | src/context/AuthContext.js:99 | The output is twice as long as the input, and every character is in `0-9a-f` |
| Nonce.GenerateNonce | src/context/AuthContext.js:96-99 | The nonce drawn from 16 bytes is 32 characters long, all in `0-9a-f` |
| Nonce.EncodeHexAppend | src/context/AuthContext.js:99 | Encoding distributes over concatenation |
| Nonce.EncodeHexAt | src/context/AuthContext.js:99 | Byte `i` is at characters `2i` and `2i+1`, high nibble first |
| Nonce.HexValue | src/context/AuthContext.js:99 | A character has a value iff it is a lower-case hex digit, and that value renders back to the character |
| Nonce.HexValueOfDigit | src/context/AuthContext.js:99 | Reading a rendered nibble gives the nibble |
| Nonce.DecodeEncode | src/context/AuthContext.js:99 | Decoding the output two characters at a time gives back the bytes |
| Nonce.EncodeDecode | src/context/AuthContext.js:99 | Conversely, any text that decodes is exactly the encoding of what it decodes to |
| Nonce.EncodeHexInjective | src/context/AuthContext.js:99 | Distinct byte strings give distinct nonces |
| Availability.IsAppAvailable | src/config/supabase.js:32-38 | With no settings row, or with the maintenance flag false or null, the app is available to every role. With the flag set, it is available iff the role is `admin` or `app_owner` |
| Availability.DefaultRoleBlockedInMaintenance | src/config/supabase.js:32-37 | The default role `citizen` is shut out when the flag is set |
| Availability.PrivilegedAlwaysAvailable | src/config/supabase.js:37 | `admin` and `app_owner` are never shut out |

## Left out

- The HTTP calls to Hugging Face are not modelled: `fetch`, `response.json()`, the endpoint URLs, the bearer token read from the environment, and the request bodies. The `min_length: 30` parameter is sent to the service and has no local effect. The outcome of each call is an input.
- `Promise.all` runs the group summaries concurrently. Only its index-order guarantee is modelled, as a sequential map. The model has no timeouts, cancellation, retries or bounded fan-out, because the code has none.
- Moderation.ModerateContent: the score is a `real` that is only passed through. A label present with a missing score (JavaScript `undefined` confidence) is not modelled, nor are labels of non-string types.
- Moderation.SummarizeText: a `summary_text` of a non-string type is not modelled.
- Text.ToLower, Text.ToUpper: ASCII letters only. Full Unicode case mapping is not modelled.
- Text.Prefix: `substring` counts code points here, where JavaScript counts UTF-16 code units; the same holds for `Moderation.Truncation`.
- Digest.GroupByCategory: JavaScript objects enumerate integer-like keys (such as `"7"`) before other keys, in numeric order. The model assumes non-numeric categories and uses insertion order for every key.
- Digest.GroupByCategory: a category that names an inherited `Object.prototype` property (such as `"constructor"` or `"__proto__"`) makes `acc[p.category] || []` pick up the inherited value, and the `push` throws. The model treats every category as a fresh key.
- Digest.GenerateLeaderDigest: it requires exactly one summarizer outcome per group, because `generateLeaderDigest` makes exactly one call per group.
- `console.error` logging is not modelled.
- Google OAuth, session and profile handling, and `crypto.getRandomValues` in src/context/AuthContext.js are not modelled. The random bytes are an input.
- The Supabase client configuration and the SecureStore adapter in src/config/supabase.js are not modelled. The `admin_settings` query is an input, and `None` stands for a null `data` (no row, several rows, or a failed query).
- The screens src/screens/Home/MapDashboardScreen.js and src/screens/Admin/AdminDashboardScreen.js are React UI and backend calls, and are not part of this model.
