# Water footprint analyzer: the `/analyze` and `/health` handlers

The service takes a photo of an agricultural product, sends it to a hosted
generative model with a fixed prompt, and relays the model's answer as JSON.
The model's reply is free text. The handler has to find the JSON inside it:
first a ```` ```json ```` fenced block, and otherwise the span from the first
`{` to the last `}`. It then parses that text and accepts it only if three
top-level keys are present. On any extraction, parse or key failure it answers
with a fixed fallback record that carries the raw reply.

This project models that handler as pure Dafny functions and proves what it
does:

- `outcomes.dfy`: `Option` and `Result`.
- `pystrings.dfy` (module `PyStrings`): the Python string operations the
  handler uses. These are `isspace`, which is also what `\s` matches in a
  `str` regex, plus `strip()`, `find`, `rfind`, `startswith` and `split(',')`.
  `SkipSpace`, `TrimEnd`, `FindFrom`, `RFindAtOrBefore` and `Split` are
  recursive functions. `IsSpace` and `StartsWith` are predicates, and
  `Strip` is built from `SkipSpace` and `TrimEnd`. The lemma `StripUnique`
  characterises `strip()`, and the lemmas `JoinSplit` and
  `SplitPiecesAvoidSep` characterise `split(',')`.
- `pyjson.dfy` (module `PyJson`): what `json.loads` can return (None, bool,
  int, float, str, list, dict). It also holds Python truth testing, the `in`
  operator on those values, and the texts of the exceptions the handler can
  raise itself.
- `extraction.dfy` (module `Extraction`): finding the candidate JSON text.
  - `SearchFence` computes the regex search with `find`.
  - `SearchFenceIsRegexSearch` proves that it selects exactly the match a
    backtracking `re.search(r'```json\s*(.*?)\s*```', text, re.DOTALL)`
    selects: the leftmost start, the greedy leading `\s*`, then the shortest
    lazy group.
  - The brace path follows the source line by line. This includes the
    `json_end == -1` test, which is proved dead.
- `analyze.dfy` (module `Analyze`): the required-key check, the fallback
  record, the dispatch of `POST /analyze` into its outcomes, and
  `GET /health`.

What the source does, and the model keeps:

- **Data-URL prefix.** A `data:image...` string is replaced by
  `split(',')[1]`, the text between the first and the second comma. This is
  not "everything after the first comma". When the string has no comma, the
  handler gives the generic 500 answer with the `IndexError` text and
  `data: null`.
- **Empty fenced block.** A fenced block whose content is empty does not fall
  back to the brace path. The empty candidate goes to `json.loads`.
- **Empty brace slice.** When the last `}` stands just before the first `{`,
  the brace path produces an empty candidate and does not raise. The same
  happens when the first `{` is at index 0 and there is no `}` at all.
- **Shallow key check.** The check is Python's `in`. A parsed list of the
  three key names, or a string containing them, is accepted as an analysis.
  A parsed `null`, boolean or number makes `in` raise `TypeError`. That
  exception is not a `ValueError`, so it skips the fallback and reaches the
  generic 500 handler.
- **Parser exceptions other than `ValueError`.** Only a `ValueError` (a
  `JSONDecodeError` among them) leads to the fallback record. Any other exception `json.loads`
  raises, such as `RecursionError`, reaches the generic 500 handler.
- **Malformed requests.** A request body that is not a JSON object gives the
  generic 500 answer. So does an `image` member that is truthy but not a
  string. Only a missing or false-like `image` member gives 400.

## Model

| member | source | states |
|---|---|---|
| PyStrings.IsSpace | app.py:168 | the whitespace of `\s` and `isspace`: space, tab, newline and carriage return are in it; no printable ASCII character (backtick and braces included) is |
| PyStrings.StartsWith | app.py:50 | `str.startswith`: the string is at least as long as the prefix and agrees with it character by character |
| PyStrings.SkipSpace | app.py:168 | the greedy `\s*` after the opening marker: every character it passes is whitespace, and the next one is not |
| PyStrings.TrimEnd | app.py:168 | the lazy group's end: the characters from it to the closing marker are whitespace, and the one before it is not (or it is the group start) |
| PyStrings.Strip | app.py:175 | `str.strip()`: the result starts and ends with non-whitespace, is no longer than the input, and is empty exactly when the input is all whitespace |
| PyStrings.StripUnique | app.py:175 | strip is characterised by what it keeps: whitespace, then a stripped middle, then whitespace, strips to that middle |
| PyStrings.StripSlice | app.py:178 | the same characterisation for a slice of a string |
| PyStrings.StripStripped | app.py:178 | a string with no whitespace at either end is unchanged by `strip()` |
| PyStrings.StripIdempotent | app.py:178 | stripping twice equals stripping once (the fenced path strips an already stripped group) |
| PyStrings.FindFrom | app.py:171 | `str.find`: -1 or an index at or after the start where the needle occurs, with no occurrence between the start and the result |
| PyStrings.RFind | app.py:172 | `str.rfind`: -1 or an occurrence index, with no occurrence after it |
| PyStrings.Split | app.py:51 | `str.split(',')` never returns an empty list |
| PyStrings.SplitPiecesAvoidSep | app.py:51 | no piece of a split contains the separator |
| PyStrings.JoinSplit | app.py:51 | joining the pieces with the separator gives back the original string |
| PyStrings.SplitAtFirst | app.py:51 | the first piece is what precedes the first separator, and the rest is the split of what follows it |
| PyStrings.SplitManyIffSep | app.py:51 | the split has a second piece exactly when the separator occurs |
| PyStrings.SplitNoSep | app.py:51 | a string without the separator splits into itself alone |
| PyJson.Truthy | app.py:46 | `not image_data`: the false values are exactly None, False, 0, 0.0 and the empty str, list and dict |
| PyJson.Contains | app.py:183 | `key in v` raises `TypeError` exactly for None, bool and numbers; for a dict it is key membership |
| PyJson.AllIn | app.py:183 | the chained `not in` test raises exactly when there are keys and the value is not a container, then with the `TypeError` for that value's type, and passes exactly when every key is in the value |
| Extraction.SearchFence | app.py:168 | a match starts at the leftmost `` ```json `` (the `find` result); the group starts where the whitespace run after that marker ends, and ends where the whitespace run before the first `` ``` `` after the marker begins |
| Extraction.SearchFenceIsRegexSearch | app.py:168 | the find-based search matches exactly when the regex does, and reports the regex engine's own choice: leftmost start, longest leading `\s*`, shortest lazy group |
| Extraction.FencedCandidate | app.py:168-178 | `group(1).strip()`: there is none exactly when the regex does not match, and it has no leading or trailing whitespace |
| Extraction.FenceGroupStripped | app.py:168 | the regex group already has no leading or trailing whitespace |
| Extraction.FencedCandidateBetweenMarkers | app.py:168-178 | the fenced candidate is the stripped text between the leftmost `` ```json `` and the first `` ``` `` after it |
| Extraction.FenceGroupIsStrippedSpan | app.py:168-178 | the reported group is what `strip()` makes of the text between the leftmost `` ```json `` and the first `` ``` `` after it, and `strip()` leaves the group unchanged |
| Extraction.TrimmedSpan | app.py:168-178 | skipping leading and trimming trailing whitespace inside a span gives what `strip()` gives on that span, and a fixpoint of `strip()` |
| Extraction.FencedCandidateClean | app.py:177-178 | the fenced candidate never contains `` ``` ``, and stripping it again changes nothing |
| Extraction.BraceCandidate | app.py:170-175 | the brace path fails only with the "Could not find a JSON object" message |
| Extraction.BraceEndNeverMinusOne | app.py:172-173 | `rfind('}') + 1` is never -1, so the `json_end == -1` test is dead |
| Extraction.BraceCandidateNoOpen | app.py:171-174 | with no `{` in the reply the brace path fails |
| Extraction.BraceCandidateFailsIff | app.py:171-174 | with the first `{` at i, the brace path fails iff i > 0 and no `}` stands at i - 1 or later |
| Extraction.BraceCandidateSpan | app.py:171-175 | with the first `{` at i and the last `}` at j >= i, the candidate is exactly `text[i..j + 1]` (Python's `text[i:j+1]`), braces included |
| Extraction.BraceCandidateAtBounds | app.py:171-175 | with `find('{')` at start and `rfind('}') + 1` at end, start <= end, the candidate is the stripped slice between them |
| Extraction.BraceCandidateEmpty | app.py:171-175 | the candidate is empty when the last `}` is just before the first `{`, or when `{` is at index 0 and there is no `}` |
| Extraction.FindOpenBrace | app.py:171 | `find('{')` returns the index of the first `{` |
| Extraction.FindCloseBrace | app.py:172 | `rfind('}')` returns the index of the last `}` |
| Extraction.ExtractCandidate | app.py:168-179 | every candidate has no leading or trailing whitespace; failure happens only with the brace-path message, and only when the regex does not match |
| Extraction.ExtractCandidateStrategy | app.py:168-178 | the brace path decides only when there is no fenced match; otherwise the fenced candidate is used, whatever braces the reply holds |
| Extraction.EmptyFenceNoFallback | app.py:168-178 | a leftmost `` ```json``` `` gives the empty candidate and does not fall back to braces |
| Extraction.FencedBodyExtracted | app.py:168-178 | if no `` ```json `` occurs before index p, one occurs at p, the first `` ``` `` after it is at q, and the text between them is whitespace, a stripped body, whitespace, then the candidate is exactly that body; backticks before p or inside the body do not matter |
| Extraction.BraceBodyExtracted | app.py:170-175 | with no fence, the span from the first `{` to the last `}` is extracted exactly |
| Analyze.FallbackRecord | app.py:194-208 | the fallback has exactly the thirteen fixed top-level keys |
| Analyze.FallbackSentinels | app.py:196-207 | the fallback's raw text equals the reply verbatim, its overall severity is "Unknown", and both chart fields are None |
| Analyze.FallbackKeepsReply | app.py:207 | two fallbacks are equal iff their replies are equal |
| Analyze.FallbackHasRequiredKeys | app.py:183-184 | the fallback would itself pass the required-key check |
| Analyze.ImagePayload | app.py:49-51 | a string without the `data:image` prefix passes unchanged; a `data:image` string has no payload (the `IndexError`) exactly when it holds no comma, and otherwise its payload contains no comma |
| Analyze.ImagePayloadBetweenCommas | app.py:50-51 | for a `data:image` string, the payload is the text strictly between the first comma and the next comma (or the end) |
| Analyze.ImagePayloadNoComma | app.py:50-51 | a `data:image` string without a comma has no payload (the `IndexError`) |
| Analyze.ImagePayloadHeaderTransparent | app.py:49-51 | a data-URL header followed by a comma and a payload gives the same payload as sending the payload alone |
| Analyze.Reconcile | app.py:167-191 | the inner try block: accepted iff a candidate is found, parses, and holds all three keys, with the parsed value unmodified; an exception escapes iff `json.loads` raises something other than a `ValueError` or the key check meets a parsed None, bool or number (with the `TypeError` text); otherwise a failed extraction is rejected with the brace-path message, a parser `ValueError` with that exception's own text, and a parsed value lacking a key with the missing-keys message |
| Analyze.ReconcileObject | app.py:183-189 | for a parsed dict, acceptance is presence of the three keys; otherwise the reply is rejected with the missing-keys reason |
| Analyze.ReconcileAcceptsKeyNameList | app.py:183-189 | a parsed list of the three key names passes the shallow check |
| Analyze.ImageField | app.py:44 | `data.get('image')`: the member when present, and None (which is false-like) when absent |
| Analyze.UnexpectedResponse | app.py:215-221 | the generic handler: 500, not successful, null data, and the error is the fixed prefix followed by `str(e)` |
| Analyze.AnalyzeWaterFootprint | app.py:38-221 | the status is 200, 400 or 500; success iff 200 iff no error message; 400 is only the no-image answer; a missing model gives the model-unavailable answer whatever the body |
| Analyze.AnalyzeBadRequestIff | app.py:43-47 | with a model loaded, 400 iff the body is an object whose `image` member is missing or false-like |
| Analyze.AnalyzeOutcomeOfReply | app.py:181-221 | once the reply is in: accepted gives 200 with the parsed data; rejected gives 500 with "Could not fully parse AI response. Reason: " plus the reason and the fallback; escaped gives the generic 500 |
| Analyze.AnalyzeFallbackOnlyOnParseFailure | app.py:191-213 | any non-success answer with a data value has status 500, a parse-failure error, and the fallback of the model's reply |
| Analyze.AnalyzeDataUrlWithoutComma | app.py:215-221 | a `data:image` field without a comma gives 500 with the `IndexError` text and `data: null` |
| Analyze.AnalyzeFencedObjectSucceeds | app.py:168-189 | if the leftmost `` ```json `` and the first `` ``` `` after it enclose whitespace, a stripped text and whitespace, and that text parses to an object with the three keys, then the answer is 200 with exactly that object; backticks elsewhere do not matter |
| Analyze.AnalyzeAnswerShapes | app.py:38-221 | every answer is one of five: the model-unavailable 500, the no-image 400, 200 with a value, the parse-failure 500 with the fallback of a reply, or the generic 500 for some exception |
| Analyze.AnalyzeEarlyShapes | app.py:39-50 | until an image string is in hand, the answer is the model-unavailable 500, the no-image 400, or the generic 500 |
| Analyze.AnalyzeImageStageShapes | app.py:49-221 | from an image string on, the answer is 200 with a value, the parse-failure 500, or the generic 500 |
| Analyze.AnalyzeReplyStageShapes | app.py:181-221 | once the model's reply is in, the answer is 200 with a value, the parse-failure 500, or the generic 500 |
| Analyze.AnalyzeEarlyFailuresAreGeneric | app.py:43-50 | an unreadable body, a body that is not an object (no `get`), or a truthy `image` that is not a string (no `startswith`) gives the generic 500 with that exception's text |
| Analyze.AnalyzeServiceFailureIsGeneric | app.py:53-163 | a failing base64 decode or image load, or a failing model call, gives the generic 500 with that exception's text |
| Analyze.AnalyzeParserCrashEscapes | app.py:181-191 | a `json.loads` failure that is not a `ValueError` gets the generic 500 with that exception's text and null data, not the fallback |
| Analyze.AnalyzeMissingKeyFallsBack | app.py:183-213 | a parsed object without `overall_severity` gets 500 with the missing-keys reason and the fallback carrying the reply |
| Analyze.HealthStatus | app.py:224-227 | the status is "healthy" iff the model handle is present, else "warning (model not loaded)" |
| Analyze.HealthMatchesAnalyze | app.py:39-40 | health reports "healthy" iff `/analyze` does not give the model-unavailable answer |

## Left out

- Startup (app.py:14-29) is left out. Reading `GEMINI_API_KEY`, configuring the client and the ping are network and process setup. The model handle is a parameter `Option<M>`, and None means initialisation failed.
- Flask (app.py:1-12, 32-34, 229-231) is left out: routing, `jsonify`, CORS and template rendering. `request.json` is an input, either the parsed body or the text of the error Flask raises reading it. A response is a datatype of status, success, error and data.
- Base64 decoding, `Image.open` and the RGBA-to-RGB conversion (app.py:53-59) are one collaborator, `prepareImage`. It returns an image or the text of its exception.
- The model call (app.py:162-163), with the prompt literal (app.py:62-160), is the collaborator `generate`. It returns the reply text or the text of its exception. The prompt is a constant and is not modelled.
- `json.loads` (app.py:181) is the collaborator `loadJson`. It returns a Python value, or fails with the text of its exception and whether that exception is a `ValueError` (a `JSONDecodeError`, or the plain `ValueError` raised for an integer literal over the digit limit) or another one (a `RecursionError` on deep nesting). JSON syntax, and which texts make it raise what, are not modelled.
- Non-finite floats: `json.loads` and `request.json` accept `NaN`, `Infinity` and `-Infinity`, which a Dafny `real` cannot hold. Such a value would be a truthy `float` that is not a container, so no outcome depends on the difference.
- Lone surrogates: Dafny's `char` is a Unicode scalar value, so a request string holding an unpaired surrogate such as `"\ud800"`, which a Python `str` can carry, is not representable.
- Dict order: dicts are maps, so key order and duplicate keys in the reply are not represented.
- Logging with `print` (app.py:164-165, 176, 179, 192, 216) is not modelled. Most of it cannot change a response, but `print(response_text)` at app.py:165 runs inside the outer `try`. On a stdout whose encoding cannot represent the reply (a locale-encoded, redirected stdout and a reply containing "CO₂", say), it raises `UnicodeEncodeError`. The request then ends in the generic 500 of app.py:215-221 instead of 200 or the fallback. The model does not capture this case: it assumes printing always succeeds.
- Exception texts: the model uses the message wording of CPython 3.11 to 3.13 for `IndexError`, `AttributeError` and `TypeError`. Other Python versions word some of these differently.
