# assistants-benches runner, modelled in Dafny

The benchmark runner reads a file of test cases. Each test case is a
sequence of HTTP steps against the assistants API. For every step the
runner:

1. checks the method (`GET` or `POST` only);
2. writes the variables captured so far into the step's endpoint and into
   the top-level values of its request object;
3. sends the request;
4. asks an LLM judge to grade the response against the expected response;
5. captures fields of the response into variables for later steps;
6. reads the judge's score from the judge's answer with the regex `(\d+)\s*$`.

The scored steps of each test case are collected, and the first error
stops the run.

This project models that per-step pipeline as pure functions, then the
test-case and run folds around it:

- `Text` holds Rust's `str::replace`, including its empty-pattern behaviour,
  removal of `"`, and ASCII digit runs.
- `Json` holds serde_json's `Value`, `value[key]` indexing and the compact
  `to_string`, with string escaping.
- `VariableStore` is the per-test-case variable map.
- `Substitution` is the placeholder loop.
- `Capture` is the `save_response_to_variable` loop.
- `Score` is the trailing-number regex.
- `Runner` holds the step, the test case and the whole run.

The HTTP server's response and the judge's text are inputs to the model.
Each step receives a `Reply`: either `Answered(response, judgeText)`,
`TransportFailed` or `JudgeFailed`.

Behaviour that is easy to misread:

- **Stored values keep their JSON quotes.** A captured value is stored as
  the field's JSON text, quotes and escapes included. Every `"` is removed
  only when the value is used, so a captured string containing `"` comes back
  with a stray backslash (`Capture.QuoteInsideAtUse`).
- **The object check depends on the store.** The request must be an object
  only when the store is non-empty. The check sits inside the per-variable
  loop, so the first step of a test case is sent unchecked
  (`Substitution.Substitute`, `Runner.FirstStepUnsubstituted`).
- **Substitution order matters.** The result can depend on the order in
  which variables are visited, and that order is the `HashMap`'s
  (`Substitution.SubstitutionOrderMatters`).
- **Scores are not clamped.** The judge is asked for 0 to 5, but any
  trailing number is taken as the score (`Score.ScoreOfTrailingNumber`).

## Model

| member | source | states |
|---|---|---|
| Runner.ParseMethod | assistants-benches/src/main.rs:67-76 | only the exact names "GET" and "POST" are accepted; any other method string is an `UnknownMethod` error, and no method has that name |
| Runner.MethodRoundTrip | assistants-benches/src/main.rs:67-69 | every method's name parses back to that method |
| Runner.MethodExamples | assistants-benches/src/main.rs:67-76 | "get" and "DELETE" are refused; "GET" and "POST" are accepted |
| Text.InsertAtBoundaries | assistants-benches/src/main.rs:83-85 | `replace` with an empty pattern inserts the replacement at each of the `|s|+1` character boundaries and adds no other characters |
| Text.InsertOne | assistants-benches/src/main.rs:83-85 | with an empty pattern, a one-character text `c` becomes `rep + c + rep` |
| Text.InsertStartsWithRep | assistants-benches/src/main.rs:83-85 | with an empty pattern, the result begins with the replacement |
| Text.InsertConcat | assistants-benches/src/main.rs:83-85 | with an empty pattern, the result for `a + b` is the result for `a` followed by the result for `b` without its leading replacement, so the boundary between them gets one copy |
| Text.ReplaceAll | assistants-benches/src/main.rs:83-85 | every character of `s.replace(pat, rep)` comes from `s` or from `rep` |
| Text.FirstCharAbsent | assistants-benches/src/main.rs:83-85 | a pattern whose first character is missing from a text does not occur in it |
| Text.ReplaceAllAbsent | assistants-benches/src/main.rs:83-85 | text in which the pattern does not occur is left unchanged |
| Text.ReplaceAllCopiesPrefix | assistants-benches/src/main.rs:83-85 | text before the first occurrence is copied unchanged |
| Text.ReplaceAllAtFront | assistants-benches/src/main.rs:83-85 | an occurrence at the front is replaced, and scanning resumes after it, so matches do not overlap |
| Text.ReplaceAllSingleOccurrence | assistants-benches/src/main.rs:83-85 | a pattern occurring once, between text without the pattern's first character, is replaced in place and the surrounding text is kept |
| Text.ReplaceAllSelf | assistants-benches/src/main.rs:83-85 | replacing a pattern by itself changes nothing, even for the empty pattern |
| Text.ReplaceAllLength | assistants-benches/src/main.rs:83-85 | the result's length changes by `|rep| - |pat|` per replaced occurrence |
| Text.MatchCountPositive | assistants-benches/src/main.rs:83-85 | some occurrence is replaced if and only if the pattern occurs |
| Text.ReplaceAllSameLengthChanges | assistants-benches/src/main.rs:83-85 | a different replacement of the same length always changes a text that holds the pattern |
| Text.ReplaceAllUnchanged | assistants-benches/src/main.rs:83-85 | for every pattern, the empty one included, `s.replace(pat, rep) == s` holds exactly when `pat` does not occur in `s` or `rep == pat`; the empty pattern occurs in every text, so it leaves a text unchanged only with an empty replacement |
| Text.WithoutQuotes | assistants-benches/src/main.rs:85 | the reference filter: its result holds no `"`, is no longer than its input, and keeps only the input's characters |
| Text.WithoutQuotesConcat | assistants-benches/src/main.rs:85 | the filter distributes over concatenation |
| Text.WithoutQuotesIdentity | assistants-benches/src/main.rs:85 | text without `"` passes the filter unchanged |
| Text.StripQuotesFilters | assistants-benches/src/main.rs:85 | `value.replace("\"", "")` equals the reference filter that drops every `"` |
| Text.StripQuotes | assistants-benches/src/main.rs:85 | the stripped value is the value with every `"` filtered out and nothing else changed |
| Text.StripQuotesSpec | assistants-benches/src/main.rs:99 | a stripped value holds no `"`, and stripping changes a value if and only if it contains a `"` |
| Text.NatToDigits | assistants-benches/src/main.rs:152 | the decimal text of a number is non-empty, all digits, and has no leading zero |
| Text.DigitsRoundTrip | assistants-benches/src/main.rs:161 | reading back the decimal text of `n` gives `n` |
| Json.Lookup | assistants-benches/src/main.rs:150-152 | the lookup is absent exactly when no field has the key; a present value is the value of the first field with that key |
| Json.Field | assistants-benches/src/main.rs:150-152 | `value[key]` is `null` for a non-object or a missing key; for an object with the key, it is the value of the first field with that key |
| Json.Escape | assistants-benches/src/main.rs:152 | the escaped contents are never shorter than the string |
| Json.EscapeChar | assistants-benches/src/main.rs:152 | a character is written as itself exactly when it is not `"`, not `\` and not a control character; otherwise it becomes an escape of two or more characters |
| Json.UnescapeEscapeChar | assistants-benches/src/main.rs:152 | each character's escape reads back as that character, for the short escapes and for `\u00XX` |
| Json.EscapeRoundTrip | assistants-benches/src/main.rs:152 | reading back the escaped contents serde_json writes for a string gives the string |
| Json.EscapeConcat | assistants-benches/src/main.rs:152 | escaping works character by character, so it distributes over concatenation |
| Json.EscapeIdentity | assistants-benches/src/main.rs:152 | escaping leaves a string unchanged if and only if every character is plain |
| Json.StringText | assistants-benches/src/main.rs:152 | a string's text is its escaped contents between two `"`, and the contents read back as the string |
| Json.TextQuotes | assistants-benches/src/main.rs:152 | a value's text begins with `"` exactly when the value is a string; null, booleans and numbers produce no `"` |
| Json.NumberText | assistants-benches/src/main.rs:152 | a non-negative number that serde_json keeps as an integer (below 2^64) is written as all digits, which read back as the number |
| Json.ToText | assistants-benches/src/main.rs:152 | the compact text of every value is non-empty |
| Json.JoinContains | assistants-benches/src/main.rs:152 | each part appears in the comma-joined text of an array or object |
| Json.ArrayText | assistants-benches/src/main.rs:152 | an array's text opens with `[`, closes with `]` and holds the text of each item |
| Json.ObjectText | assistants-benches/src/main.rs:152 | an object's text opens with `{`, closes with `}` and holds, for each field, its key quoted and escaped, a `:` and the value's text |
| VariableStore.Get | assistants-benches/src/main.rs:63-64 | the lookup is absent exactly when the name is not a key, and a present value is stored under that name |
| VariableStore.Upsert | assistants-benches/src/main.rs:154 | an insert grows the store by at most one entry |
| VariableStore.UpsertGet | assistants-benches/src/main.rs:154 | after `insert(k, v)`, `k` maps to `v` and every other name maps to what it did before |
| VariableStore.UpsertKeySet | assistants-benches/src/main.rs:154 | an insert adds exactly its own key to the key set |
| VariableStore.UpsertKeys | assistants-benches/src/main.rs:154 | an insert adds exactly its own key and keeps the keys distinct, so re-capturing a name overwrites it |
| Substitution.ReplaceTopLevel | assistants-benches/src/main.rs:97-101 | one variable's pass over a request object keeps every key and its position; a value equal to the JSON string of the name becomes the JSON string of the stripped value, and every other value is kept |
| Substitution.Substitute | assistants-benches/src/main.rs:79-103 | with an empty store, the endpoint and request pass through unchecked; otherwise substitution succeeds exactly when the request is an object, fails with `RequestNotObject` otherwise, and keeps the object's keys in order |
| Substitution.SubstituteIsPointwise | assistants-benches/src/main.rs:79-103 | for every store, the empty one included, the loop over a request object equals the per-variable reference folds: the endpoint goes through `SubstituteEndpoint`, and each request value goes through `SubstituteValue` in its own position |
| Substitution.SubstituteValueSpec | assistants-benches/src/main.rs:97-101 | a request value that is no variable name passes through unchanged; a placeholder becomes some stored value, quote-stripped, as a JSON string |
| Substitution.SubstituteEndpointQuotes | assistants-benches/src/main.rs:83-85 | substitution never brings a `"` into an endpoint |
| Substitution.SubstituteEndpointAbsent | assistants-benches/src/main.rs:83-85 | an endpoint containing none of the non-empty variable names is sent unchanged |
| Substitution.SubstituteSingle | assistants-benches/src/main.rs:79-103 | with one stored variable, the endpoint becomes `endpoint.replace(name, stripped value)` and the request gets that variable's top-level pass |
| Substitution.SubstitutionOrderMatters | assistants-benches/src/main.rs:79-85 | when one variable's value is another variable's name, the two visiting orders give different endpoints |
| Capture.CapturedText | assistants-benches/src/main.rs:152 | the stored text of a missing field, or of any field of a non-object response, is `null`; a string field's text is enclosed in `"` |
| Capture.CaptureAll | assistants-benches/src/main.rs:149-155 | capture succeeds exactly when every spec has string `type` and `name`; any other spec is a `MalformedCaptureSpec` error, standing for the `unwrap` panic |
| Capture.CaptureLastWins | assistants-benches/src/main.rs:149-155 | after capture, each variable holds the text of the field named by the last spec for it; a variable that no spec names keeps its old value; keys stay distinct |
| Capture.CaptureOne | assistants-benches/src/main.rs:149-155 | one spec whose `type` and `name` are strings, in any key order and with any other keys, yields on an empty store exactly the variable named by `type` bound to the text of the response field named by `name` |
| Capture.PlainStringAtUse | assistants-benches/src/main.rs:152 | a captured string with no `"`, no `\` and no control character comes back as itself once its quotes are stripped at use (line 85) |
| Capture.NumberAtUse | assistants-benches/src/main.rs:152 | a captured number that serde_json keeps as an integer (within the `i64` and `u64` ranges) is used as its decimal text |
| Capture.EscapeQuoteInside | assistants-benches/src/main.rs:152 | plain text around a `"` is written with that quote escaped as `\"` |
| Capture.FilterQuoteInside | assistants-benches/src/main.rs:85 | stripping the quoted literal of `a\"b` leaves `a\b` |
| Capture.QuoteInsideAtUse | assistants-benches/src/main.rs:152 | a captured string `a"b` comes back as `a\b` at use: the escape loses its quote but keeps the backslash |
| Score.TrimmedLength | assistants-benches/src/main.rs:157 | the length of the text without its trailing white space: everything after it is white space, and the character before it is not |
| Score.RunStart | assistants-benches/src/main.rs:157 | the start of the maximal digit run that ends at a given position |
| Score.TrailingMatch | assistants-benches/src/main.rs:157-160 | the reported match of `(\d+)\s*$` is a match; it is the leftmost one; every match ends its group at the same place, so the first match is also the last; no match is reported only when there is none |
| Score.ExtractScore | assistants-benches/src/main.rs:157-161 | a score is read exactly when the text, without trailing white space, ends in a digit, which holds exactly when the regex matches |
| Score.ScoreOfMatch | assistants-benches/src/main.rs:157-161 | the score is the value of the whole maximal digit run of any match |
| Score.ScoreOfTrailingNumber | assistants-benches/src/main.rs:157-161 | any number written after a non-digit and before optional white space is read back exactly, so it is not clamped to 0..5 |
| Score.ScoreExampleBare | assistants-benches/src/main.rs:157-161 | "3" scores 3 |
| Score.ScoreExampleAboveFive | assistants-benches/src/main.rs:157-161 | "42" scores 42 |
| Score.ScoreExampleAfterText | assistants-benches/src/main.rs:157-161 | "The answer is 4" scores 4 |
| Score.ScoreExampleLastWins | assistants-benches/src/main.rs:157-161 | "score: 2, actually 5" scores 5 |
| Score.ScoreExampleTrailingSpace | assistants-benches/src/main.rs:157-161 | "5 \n" scores 5 |
| Score.ScoreExamplesAbsent | assistants-benches/src/main.rs:157-161 | "no number here" and "4." give no score |
| Runner.RunStep | assistants-benches/src/main.rs:66-171 | a step completes if and only if its method is known, substitution succeeds, the call and the judge answer, and capture succeeds; an unknown method fails with `UnknownMethod` before anything else; a completed step's record keeps the method and expected response, holds the substituted endpoint and request and the extracted score, and the new store is the capture result |
| Runner.RunStepFailure | assistants-benches/src/main.rs:66-155 | a failing step fails with the error of its first failing stage, in source order: method, substitution, HTTP call, judge, capture |
| Runner.UnscoredStepCompletes | assistants-benches/src/main.rs:157-171 | a judge answer without a trailing number does not fail the step; the step is recorded with no score |
| Runner.RunSteps | assistants-benches/src/main.rs:66-172 | a completed test case has one scored step per step, in order, with each step's method and expected response, all methods known; a step with an unknown method makes the test case fail |
| Runner.CompletesShift | assistants-benches/src/main.rs:66-172 | once the first step completes, the steps before `j` complete exactly when the remaining steps before `j - 1` complete from the store the first step left |
| Runner.RunStepsCompletes | assistants-benches/src/main.rs:66-172 | a test case's steps complete if and only if every step completes from the store built by the captures before it |
| Runner.RunStepsFailsAt | assistants-benches/src/main.rs:66-172 | when the steps before `j` complete and step `j` fails from the store it sees, the test case fails with step `j`'s error |
| Runner.RunStepsFailure | assistants-benches/src/main.rs:66-172 | a failing test case fails at some step: every step before it completed, and its error is the test case's error |
| Runner.RunTestCase | assistants-benches/src/main.rs:61-176 | a completed test case keeps its name and has one scored step per step, in order, with the methods and expected responses of the input |
| Runner.TestCaseCompletes | assistants-benches/src/main.rs:61-176 | a test case completes if and only if each of its steps completes from the store built by the captures before it, starting from an empty store |
| Runner.StoreBeforePrefix | assistants-benches/src/main.rs:147-155 | the store a step sees depends only on the steps before it |
| Runner.StepsSeeEarlierCaptures | assistants-benches/src/main.rs:66-172 | in a completed test case, each step was substituted with exactly the store built by the captures of the steps before it, and was scored from its own judge text |
| Runner.FirstStepUnsubstituted | assistants-benches/src/main.rs:63-103 | the first step of a test case is recorded with its endpoint and request exactly as written |
| Runner.CaptureThenUse | assistants-benches/src/main.rs:79-155 | in a two-step test case whose first step has exactly one capture spec (its `type` and `name` strings, in any key order), the variable it captures is written into step two's endpoint as the field's JSON text without its quotes |
| Runner.ThreadEndpoint | assistants-benches/src/main.rs:83-85 | `/threads/id/messages` with `id` replaced by a thread id is `/threads/<id>/messages` |
| Runner.ThreadScenario | assistants-benches/src/main.rs:79-155 | a plain `thread_id` field of step one's response, among any other fields, captured as `id` by step one's only spec, is written into step two's endpoint `/threads/id/messages` |
| Runner.Collect | assistants-benches/src/main.rs:61-176 | the recorded test cases are the leading successful outcomes, in order; the run fails exactly when an outcome is an error, and then with the first error |
| Runner.RunAll | assistants-benches/src/main.rs:61-176 | the recorded test cases are the results of the leading test cases, in order, each from a fresh store; the run stops at the first failing test case with its error, and that test case is not recorded |
| Runner.UnknownMethodStopsRun | assistants-benches/src/main.rs:67-76 | a step with an unknown method stops the run at its test case: neither that test case nor any later one is recorded |

## Left out

- Console output (the `println!` calls at lines 62, 104, 117, 124 and 139) is not modelled. It does not affect the results.
- The HTTP call (lines 110-116) and the LLM judge call (lines 119-138) are not modelled. They are given as a per-step `Reply`: the runner uses only their results, a response and a judge text, or a failure.
- The judge prompt text and the serialization of the user prompt (lines 49-57, 119-123) are not modelled. They only feed the judge, which is an input here.
- Reading and parsing the test-case file (lines 45-47) are not modelled. The model starts from parsed `TestCase` values.
- Writing the results file (lines 177-189) is not modelled, and neither is `main`. `Runner.RunAll`'s recorded test cases are what the last file written holds. The file is named by the current second, taken after every test case, so a run may write several files, one per second in which a test case completed; test cases finishing in the same second rewrite one file.
- A failing write of the results file (the `?` at lines 182, 187 and 189) ends the run after the test case was already added to the in-memory results. `Runner.RunAll` does not model this: writes cannot fail in the model.
- Clock readings, `start_time`, `end_time` and `duration` (lines 106-109, 141-145, 168-170) are not modelled. The `expect` at lines 108 and 143 panics only for a clock before 1970. If the clock goes backwards between the two readings, `end_time - start_time` at line 145 panics in a build with overflow checks (the debug profile), and a release build wraps it around as a `u64`.
- Runner.RunStep: the error order among failures is modelled, but a `MalformedCaptureSpec` ends the run as an error, where the source panics. Either way no later test case runs.
- Runner.RunAll: each test case's outcome is computed independently and the results are gathered up to the first error. The source stops evaluating at that error. Test cases share no state, so the two agree.
- Score.ExtractScore: the score is a `nat`, not an `f64`. A digit run too long for an exact `f64` is read exactly here, where the source rounds it.
- Score.TrailingMatch: `\d` and `\s` are ASCII only. The source's regex is Unicode-aware, and a non-ASCII digit at the end would make its `parse::<f64>().unwrap()` panic.
- Substitution.Substitute: the source visits the variables in `HashMap` order, which is unspecified. The model visits them in insertion order. Lemmas about a general store hold for every order, and `SubstitutionOrderMatters` shows that the result can depend on the order.
- Json.ToText: JSON numbers are integers, so floats are not modelled. serde_json keeps an integer as an integer only within the `i64` and `u64` ranges; a larger one in a response is parsed as an `f64` and written in float form (18446744073709551616 becomes `1.8446744073709552e19`), while the model writes every `JNum` in decimal. `Json.NumberText` and `Capture.NumberAtUse` are stated for the integer range only (`Json.IsIntegerNumber`). An object's text lists its fields in the model's field order. serde_json sorts keys unless its `preserve_order` feature is on, and the crate manifest is not part of this model.
- Json.Lookup: nothing restricts an object to distinct keys, as a serde_json `Map` always has them. Lookup takes the first field with the key, which differs from serde_json only on objects with a repeated key, and no such object reaches the runner.
- Json.EscapeRoundTrip: reading back refuses `\u` surrogate escapes. serde_json never writes them for the characters modelled here.
