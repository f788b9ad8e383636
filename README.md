# Phishing triage: feature extraction and the classify endpoint

This project models the text-classification path of the phishing-triage
backend, `backend/server2.js`:

- `extractFeatures(text)` runs two global regular-expression scans over the
  text. They are `/https?:\/\/[^\s]+/g` for links and
  `/(urgent|verify|suspended|click here|account|password)/gi` for suspicious
  keywords. The function returns the two raw match counts.
- The `POST /api/classify` handler, in three steps:
  - it picks `text || url || ""` from the request body;
  - it rejects an input whose `trim()` is empty with
    `"No text or URL provided."`;
  - otherwise it builds the mock verdict: a label, a score capped at 5 (hence in 1..5),
    two fixed reason sentences, and one `urls` entry per link with verdict
    `"unknown"`. The `highlights` list is always empty.

The model is pure, as the source is.

- `Scanning` models ECMAScript's `String.prototype.match` with a global
  pattern. The scan tries a match at the current position. On a match it
  records the match and resumes at the match's end; otherwise it moves on one
  character. The pattern itself is given as a table holding, for each
  position, the length of the match found there.
- `Scanning.Scan` comes with two partners:
  - a declarative description, `LeftmostScan`, that every scan result
    satisfies;
  - a proof that the description has exactly one solution.
- `Features` builds the two tables from the two patterns:
  - for links, a greedy `http://` or `https://` followed by a maximal run of
    non-whitespace;
  - for keywords, alternation over six terms, folding ASCII case only, since
    the pattern has the `i` flag but no `u` flag.
- `Features` also states both scans declaratively, in terms of the patterns
  alone, and proves that each scan is the only solution of its description.
- `Text` holds the ECMAScript whitespace set (shared by `\s` and `trim`),
  `trim`, and ASCII lower-casing.
- `Handler` models the endpoint.
  - Each body field is an `Option<string>`: an absent field is `None`, and JSON
    `null` or an absent field are equally falsy.
  - A 400 answer is `Err(message)` and a 200 answer is `Ok(Response(..))`.
- `Samples` works through concrete inputs.

The keyword count is the number of regex matches, repeated ones included, of
exactly six terms: `click here` includes its space, and there is no `login`.

## Model

| member | source | states |
|---|---|---|
| Text.IsWhitespace | backend/server2.js:19 | the ECMAScript WhiteSpace and LineTerminator characters, the set used both by `\s` in the link pattern and by `trim()` at line 30; a plain predicate whose meaning is the listed set |
| Text.Trim | backend/server2.js:30 | `input.trim()`: the result is no longer than the input and neither starts nor ends with whitespace |
| Text.TrimIsInfix | backend/server2.js:30 | the trimmed string is a contiguous part of the input, and everything cut away on either side is whitespace |
| Text.TrimEmptyIffBlank | backend/server2.js:30 | `input.trim()` is empty exactly when every character of the input is whitespace |
| Text.TrimStart | backend/server2.js:30 | the result is a suffix of the input, the dropped prefix is whitespace, and the result does not start with whitespace |
| Text.TrimEnd | backend/server2.js:30 | the result is a prefix of the input, the dropped suffix is whitespace, and the result does not end with whitespace |
| Text.LowerAscii | backend/server2.js:22 | the `i` flag without `u` maps `A`..`Z` to `a`..`z` and leaves every other character unchanged |
| Text.LowerAsciiString | backend/server2.js:22 | folding a string folds it character by character and keeps its length |
| Scanning.Scan | backend/server2.js:19 | the global match scan yields matches at or after the start position, disjoint and left to right, and no uncovered position starts a match |
| Scanning.LeftmostScanDeterministic | backend/server2.js:19 | two results that both meet the description of a leftmost, non-overlapping scan are equal |
| Scanning.LeftmostScanUnique | backend/server2.js:22 | any spans meeting the leftmost-scan description are exactly the ones the scan finds |
| Scanning.LeftmostCountBound | backend/server2.js:23 | if every match is at least `k` long, a leftmost scan from `i` has at most `(length - i) / k` matches |
| Scanning.ScanCountBound | backend/server2.js:23 | the same bound for the scan itself |
| Scanning.NoMatchNoSpans | backend/server2.js:19 | a subject with no match at any position gives an empty match list |
| Scanning.Texts | backend/server2.js:19 | the matched substrings are read off the spans, one per span, in order |
| Features.NonWhitespaceRun | backend/server2.js:19 | `[^\s]+` taken greedily: the run has no whitespace and ends at whitespace or at the end of the string |
| Features.SchemeLengthAt | backend/server2.js:19 | `https?:\/\/` matches with length 8 exactly when `https://` is there, and with length 7 exactly when `http://` is there |
| Features.SchemesExclusive | backend/server2.js:19 | `http://` and `https://` never start at the same position, so the optional `s` leaves no choice |
| Features.LinkLengthAt | backend/server2.js:19 | the link match at a position is a scheme plus at least one non-whitespace character, ends at whitespace or the end of the text, and no longer link starts there; length 0 means no link starts there |
| Features.LinkTable | backend/server2.js:19 | the link table has one entry per character, each entry is the link match there, and no entry runs past the end |
| Features.LinkSpans | backend/server2.js:19 | every link found lies inside the text and is non-empty |
| Features.MaximalLinkIsMatch | backend/server2.js:19 | any link-pattern word followed by whitespace or the end of the text is exactly the match the engine finds at its start |
| Features.LinkSpansAreLinkScan | backend/server2.js:19 | each link found is a maximal link (scheme, at least one more character, no whitespace, then whitespace or the end), they are disjoint and left to right, and no link starts outside them |
| Features.LinkScanUnique | backend/server2.js:19 | any spans of maximal links that are disjoint, ordered and leave no link uncovered are exactly the links found |
| Features.FindLinks | backend/server2.js:19 | `text.match(...)`, or `[]` when nothing matches: one string per link span, equal to the text of that span, each a link-pattern word |
| Features.NoSchemeNoLinks | backend/server2.js:19 | a text containing neither `http://` nor `https://` has no links (the fallback `[]` is taken) |
| Features.NoLinkAtOtherInitial | backend/server2.js:19 | no link starts at a character other than `h` |
| Features.AlternationAt | backend/server2.js:22 | alternation tries the terms in order: it is 0 exactly when no term from the `k`-th on matches, and otherwise the length of a matching term |
| Features.AtMostOneKeywordAt | backend/server2.js:22 | at most one of the six terms matches at any position, so the order of the alternatives does not matter |
| Features.NoKeywordAtOtherInitial | backend/server2.js:22 | no keyword starts at a character that does not fold to one of `u v s c a p` |
| Features.KeywordLengthAt | backend/server2.js:22 | the keyword match at a position is 0 exactly when no term matches there, and otherwise the length of the term that matches |
| Features.KeywordTable | backend/server2.js:22 | the keyword table has one entry per character, each entry is the keyword match there, and no entry runs past the end |
| Features.KeywordSpans | backend/server2.js:22 | every keyword occurrence found lies inside the text and is non-empty |
| Features.KeywordMatchSpanIsKeyword | backend/server2.js:22 | each recorded keyword span is exactly one of the six terms, matched case-insensitively at its start |
| Features.KeywordSpansAreKeywordScan | backend/server2.js:22 | each keyword span is an occurrence of a term, they are disjoint and left to right, and no term starts outside them |
| Features.KeywordScanUnique | backend/server2.js:22 | any disjoint, ordered term occurrences that leave no occurrence uncovered are exactly the ones found |
| Features.KeywordSpansFold | backend/server2.js:22 | every keyword occurrence found folds to one of the six terms |
| Features.KeywordMatches | backend/server2.js:22 | `text.match(.../gi)`, or `[]` when nothing matches: one string per occurrence, as written in the text, each folding to one of the six terms |
| Features.ExtractFeatures | backend/server2.js:16-24 | `{num_links, suspicious_words}` obey `8 * num_links` and `6 * suspicious_words` are each at most the length of the text |
| Features.EmptyTextHasNoFeatures | backend/server2.js:23 | the empty text has no link and no keyword, so both counts are 0 |
| Handler.Truthy | backend/server2.js:29 | JavaScript truthiness of an optional string field: an absent field and `""` are falsy, every other string (whitespace-only included) is truthy; a plain predicate, used by `SelectInputChoice` |
| Handler.SelectInput | backend/server2.js:29 | the input choice (`text`, else `url`, else the empty string); no contract of its own: its meaning is stated by `Handler.SelectInputChoice`, `Handler.BlankTextShadowsUrl` and `Handler.FalsyTextFallsBackToUrl` |
| Handler.Classify | backend/server2.js:27-56 | the `POST /api/classify` handler on the request body; no contract of its own: its meaning is stated by `Handler.MissingInputRejected`, `Handler.BlankTextShadowsUrl`, `Handler.FalsyTextFallsBackToUrl`, `Handler.ClassifyInput` and the `Handler.Response*` lemmas |
| Handler.SelectInputChoice | backend/server2.js:29 | the input choice: a truthy `text` wins, else a truthy `url`, else `""`, and the input is `""` exactly when neither is truthy |
| Handler.MissingInputRejected | backend/server2.js:29-31 | a request with neither a truthy `text` nor a truthy `url` gets the error `"No text or URL provided."` |
| Handler.BlankTextShadowsUrl | backend/server2.js:29-31 | a non-empty all-whitespace `text` is truthy, so it shadows any `url` and the request is rejected |
| Handler.FalsyTextFallsBackToUrl | backend/server2.js:29 | an absent or empty `text` answers as if `url` alone had been sent |
| Handler.ClassifyInput | backend/server2.js:30-54 | the answer is an error exactly when the chosen input is all whitespace, and the error carries `"No text or URL provided."` |
| Handler.AcceptedResponse | backend/server2.js:35-54 | a non-blank input is answered with the label, score, reasons and urls of its features and no highlights |
| Handler.Score | backend/server2.js:43 | the score lies in 1..5, is 1 exactly when both counts are 0, and is 5 whenever there are two or more links |
| Handler.ResponseScore | backend/server2.js:43 | the score is `min(5, suspicious_words + 2 * num_links + 1)` over the counts of keyword and link matches, and lies in 1..5 |
| Handler.Label | backend/server2.js:41 | the label is `"Phishing"` or `"Safe"`, and `"Safe"` exactly when the score is 1 |
| Handler.ResponseLabel | backend/server2.js:41-43 | the label is `"Phishing"` exactly when the input holds a link or a keyword, and `"Safe"` exactly when the score is 1 |
| Handler.Reasons | backend/server2.js:44-51 | exactly two reasons; the first is the keyword sentence, chosen by `suspicious_words > 0`, the second the link sentence, chosen by `num_links > 0` |
| Handler.ResponseReasons | backend/server2.js:44-51 | the response carries those two sentences, in that order, chosen by whether keywords and links were found |
| Handler.UrlVerdicts | backend/server2.js:53 | one entry per link, in order, holding that link and the verdict `"unknown"` |
| Handler.ResponseUrls | backend/server2.js:53 | `urls` has `num_links` entries, the `i`-th being the `i`-th link with verdict `"unknown"`; `highlights` is empty |
| Samples.RepeatedKeywordSpans | backend/server2.js:22 | in `"urgent URGENT"` the keyword scan finds both occurrences |
| Samples.RepeatedKeywordCountsTwice | backend/server2.js:22-23 | `"urgent URGENT"` yields the matches `["urgent", "URGENT"]` and no link: repeated terms each count |
| Samples.RepeatedKeywordResponse | backend/server2.js:28-54 | `{text: "urgent URGENT"}` is answered `"Phishing"` with score 3, both reasons for keywords present and links absent, and empty `urls` and `highlights` |
| Samples.SampleLinkSpans | backend/server2.js:19 | in `"http://verify.me"` the link scan finds the whole text |
| Samples.SampleKeywordSpans | backend/server2.js:22 | in `"http://verify.me"` the keyword scan finds `verify` |
| Samples.KeywordInsideLinkCounts | backend/server2.js:19-22 | `"http://verify.me"` is one link, and the keyword `verify` inside it counts as well |

## Left out

- Server wiring is not modelled: Express, `cors`, `body-parser`, `dotenv`,
  `PORT` and `app.listen` (`backend/server2.js:1-14`, `59-61`) are framework
  and I/O plumbing.
- HTTP status codes and JSON serialisation are not modelled. The 400 answer is
  the value `Err("No text or URL provided.")` and the 200 answer is a
  `Response` value.
- The commented-out language-model client and prompt
  (`backend/server2.js:5`, `13`, `37`) are not modelled, because they are
  unimplemented.
- `frontend/script.js` is not part of this model. It is DOM rendering and
  `fetch` calls, with no logic of its own.
- Body fields that are neither absent nor strings (numbers, objects, arrays)
  are not modelled. Each field is an optional string. In the source a truthy
  non-string value has no `trim` and the handler throws.
- Strings are sequences of Unicode scalar values, whereas ECMAScript strings
  are UTF-16 code units. All whitespace and all characters the patterns
  mention lie in the Basic Multilingual Plane, so both views find the same
  matches. The length bounds of `Features.ExtractFeatures` are stated over
  characters, and they imply the same bounds over code units, which are never
  fewer.
- Handler.Score: the score is an unbounded integer. JavaScript numbers are
  doubles, which are exact for any count a string can produce.
