# keda-opensearch-ext: the scaler core in Dafny

This project models the decision layer of `keda-opensearch-ext`. That is a KEDA
external scaler: it answers KEDA's questions ("is this workload active?", "what
is its metric?") by running an OpenSearch search template and reading one
number out of the reply. Everything modelled lives in `main.go`:

- `parseParams` decodes the `parameters` metadata string `k:v;k:v` into the
  template's parameter map. It is a loop filling a map, so it is modelled as the
  method `Params.ParseParams`, proved equal to the fold `Params.ParsedParams`.
- `getValueFromJSON` follows the dotted `valueLocation` through the decoded
  reply. It is modelled as the method `JsonTree.GetValueFromJson`, which moves a
  cursor, proved equal to `JsonTree.ValueAt`. The reply is the tree datatype
  `JsonTree.Json`. A key to follow from a value that is not a map makes Go's
  single-value type assertion panic. The model has a separate outcome for this,
  `Panicked(NotAnObject(key))`.
- `executeSearchTemplate` is `SearchTemplate.ExecuteSearchTemplate`. The HTTP
  exchange is a parameter, `server: Request -> Exchange`: the reply the cluster
  gives to the request the service would send. Parameter errors are decided
  before that reply is consulted.
- `IsActive`, `GetMetricSpec` and `GetMetrics` are functions of the metadata
  map in `ExternalScaler`.
- `StreamIsActive` is the method `Stream.StreamIsActive`. Its loop (`Stream.Poll`)
  runs over the sequence of events it observes (`Cancel` or `Tick(server)`) and
  is proved equal to the function `Stream.Session`.

Every Go call ends in one of three ways (`Grpc.Outcome`): a value, a gRPC
status error (`InvalidArgument`, `NotFound`, `Internal`, with the source's
message), or a runtime panic (`Grpc.Crash`).

Go's `strings.Split`, `strings.ToLower` (ASCII), `strconv.Atoi` and
`strconv.ParseInt(s, 10, 64)` are modelled in `Strings` and `Strconv`. `Split`
is checked against `Join`, and the parse against `Itoa`. `ToLower` is described
by `Strings.ToLowerMatches`.

Where a prose description of the service differs from the code, the model
follows the code:
- `GetMetricSpec` rejects a `targetValue` that is not an int64 with
  InvalidArgument. It does not fall back to 50. Only an empty or absent
  `targetValue` gives 50.
- `GetMetricSpec` does not validate the other metadata.
- An empty `valueLocation` is not rejected by `getValueFromJSON`. It looks up
  the key `""`.
- A reply whose status is not 200 does not give an Internal error. It
  dereferences a nil error and panics, in the one-shot operations and inside
  the streaming loop alike (see Findings).
- The stream loop's Go `select` picks at random when cancellation and the timer
  are both ready. The event sequence fixes one order, so each possible choice
  is some sequence.

## Model

| member | source | states |
|---|---|---|
| Strings.Split | main.go:45-47 | strings.Split on one character: one piece more than there are separators, and no piece contains the separator |
| Strings.JoinSplit | main.go:45-47 | joining the pieces of a split with the separator gives back the string |
| Strings.SplitJoin | main.go:45-47 | splitting a join of separator-free pieces gives back the pieces |
| Strings.SplitTrailingSeparator | main.go:45 | a string ending in the separator splits with an empty last piece |
| Strings.ToLowerMatches | main.go:152-153 | ASCII lower-casing yields a lower-case word exactly when the input spells that word with each letter in either case |
| Strconv.ParseItoa | main.go:163 | Atoi/ParseInt base 10 parse every int64 written by Itoa back to itself |
| Strconv.ParseRejectsOutOfRange | main.go:163-167 | a decimal spelling of a value outside the int64 range is a parse error |
| Strconv.ParseRejectsNonDigit | main.go:163-167 | a non-digit anywhere after the optional sign makes the parse fail |
| Params.ParseParams | main.go:40-54 | the loop that fills the map in place returns what the fold over the `;`-segments returns, with the "" case answered before splitting |
| Params.Collect | main.go:46-52 | decoding the parameters never panics |
| Params.WellFormedPairOneColon | main.go:47-48 | a segment is accepted exactly when it holds one ':', and its key and value joined by ':' give back the segment |
| Params.CollectFailsOnFirstMalformed | main.go:46-50 | the loop succeeds exactly when every segment is well formed, and otherwise fails with InvalidArgument naming the first malformed segment |
| Params.CollectKeys | main.go:46-52 | on success the keys are those of the map so far plus the first parts of all segments |
| Params.CollectLastWins | main.go:51 | a key carries the value of the last segment that names it (a later duplicate overwrites) |
| Params.CollectKeepsUnnamed | main.go:51 | a key no segment names keeps its value |
| Params.ParsedParamsAccepts | main.go:41-50 | parseParams succeeds exactly on "" (giving the empty map) or when every `;`-segment has exactly one ':' |
| Params.ParsedParamsFirstError | main.go:45-50 | the error is InvalidArgument "invalid parameter format: " followed by the first malformed segment |
| Params.TrailingSemicolonRejected | main.go:45-49 | a non-empty string ending in ';' is rejected with InvalidArgument |
| Params.ParsedParamsEntries | main.go:45-53 | on success the map's keys are exactly the segments' first parts, each with the second part of its last segment |
| JsonTree.Truncate | main.go:70 | int(float64) drops the fraction toward zero: the result lies within 1 of the input, on the zero side |
| JsonTree.GetValueFromJson | main.go:57-71 | the cursor loop returns what the path walk from the root object returns |
| JsonTree.WalkResolved | main.go:61-70 | a value comes back exactly when the path leads to a number, and it is that number truncated; a path leading to a non-number is Internal |
| JsonTree.WalkAfterPrefix | main.go:61-65 | after a followed prefix the walk continues from the subtree the prefix reached |
| JsonTree.FirstMissingKey | main.go:62-63 | the first key missing from a map on the path gives NotFound naming that key |
| JsonTree.NonObjectPanics | main.go:62 | a key to follow from a value that is not a map panics (type assertion) rather than giving NotFound |
| JsonTree.ValueAtPath | main.go:58 | the keys followed are the dot-separated parts of valueLocation, in order |
| JsonTree.EmptyLocation | main.go:58-63 | an empty valueLocation looks up the key "" |
| SearchTemplate.ParameterErrorsFirst | main.go:74-77 | malformed parameters give InvalidArgument whatever the server would answer, so no request is made |
| SearchTemplate.SearchValue | main.go:73-138 | the search yields a value exactly when the parameters parse, the reply is a 200 with an object body and the path leads to a number; the value is that number truncated |
| SearchTemplate.SearchReportsPathOutcome | main.go:127-137 | after a 200 reply with an object body, the search returns exactly the path lookup's outcome: the value, NotFound naming the first missing key, Internal for a non-number leaf, or the type-assertion panic |
| SearchTemplate.ExchangeFailuresAreInternal | main.go:110-131 | a failed request construction, transport, body read or JSON decode is Internal |
| SearchTemplate.RejectedStatusPanics | main.go:122-125 | as written, any status other than 200 panics with a nil dereference |
| SearchTemplate.Status500Panics | main.go:122-125 | parameters "q:1" and a 500 reply give the nil-dereference panic |
| SearchTemplate.IntendedRejectedStatusIsInternal | main.go:122-125 | with the status check corrected a rejected status is Internal, the nil dereference cannot happen, and every other outcome is as written |
| SearchTemplate.WalkNeverDereferencesNil | main.go:57-71 | the path walk panics only on a failed type assertion |
| ExternalScaler.UnsafeSslAccepts | main.go:148-156 | unsafeSSL is false when absent; otherwise it must spell "true" or "false" in any mix of cases, and is true exactly for "true" |
| ExternalScaler.EmptyUnsafeSslRejected | main.go:152-155 | an empty unsafeSSL entry is InvalidArgument |
| ExternalScaler.ActivationTargetDefaults | main.go:159-168 | activationTargetValue is 0 when absent or not an int, and the parsed int otherwise |
| ExternalScaler.IsActiveChecksUnsafeSslFirst | main.go:148-172 | a bad unsafeSSL is reported before missing entries, by IsActive and GetMetrics, without a search |
| ExternalScaler.MissingFieldRejected | main.go:170-172 | an absent or empty index, searchTemplateName, parameters or valueLocation is InvalidArgument from IsActive and GetMetrics, whatever the server would answer |
| ExternalScaler.IsActiveDecision | main.go:174-181 | with valid metadata IsActive is `value > activationTargetValue`, and search errors and panics pass through unchanged |
| ExternalScaler.ThresholdIsStrict | main.go:180 | for every int64 `n`, a search value `n` against an activationTargetValue written as `n` is not active: the comparison is strict |
| ExternalScaler.MetricSpecTarget | main.go:184-202 | exactly one spec named searchMatchDocCount; target 50 for an empty or absent targetValue, the int64 it spells otherwise, InvalidArgument when it does not parse |
| ExternalScaler.NonIntegerTargetRejected | main.go:187-192 | targetValue "abc" is InvalidArgument, not 50 |
| ExternalScaler.MetricsValue | main.go:222-231 | GetMetrics succeeds exactly when the search does, with one value named searchMatchDocCount equal to the search value; errors and panics pass through |
| Stream.StreamIsActive | main.go:234-279 | validation as in IsActive, then the loop; the end state and the notifications sent are those of the stream's specification |
| Stream.Poll | main.go:263-278 | the loop's end state and notifications are those of the session function over the events |
| Stream.SessionAppend | main.go:263-278 | running the loop over two event runs is running it over the first, then over the second if the first left it polling |
| Stream.OnlyActiveSent | main.go:272-275 | only `Result: true` is ever sent |
| Stream.TickSendsWhenAbove | main.go:268-276 | a tick that does not panic keeps polling and sends one notification exactly when its value is above the threshold; errors and values at or below it send nothing |
| Stream.CancelEndsSession | main.go:265-267 | the first Cancel returns nil and nothing after it is sent |
| Stream.QuietTicks | main.go:269-276 | ticks that neither emit nor panic leave the session polling and silent |
| Stream.RejectedStatusTickCrashes | main.go:269-271 | as written, a tick whose reply is not 200 crashes the handler instead of being logged and skipped |
| Stream.StreamEmitsWhenIsActive | main.go:263-278 | with valid metadata a tick sends a notification exactly when IsActive would answer `Result: true` for the same reply |
| Stream.StreamRejectsAsIsActive | main.go:239-262 | invalid metadata ends the stream with the same error IsActive returns |
| Stream.StreamValidatesFirst | main.go:239-262 | invalid metadata is InvalidArgument before the loop, with nothing sent |

## Left out

- The HTTP exchange (main.go:85-121) is not modelled: request construction, headers, basic auth from `ES_URL`, `ES_USERNAME` and `ES_PASSWORD`, the TLS transport, the 30-second timeout and reading the body. The model takes its result as the `Exchange` the `server` function returns for the request.
- `json.Marshal` of the request body (main.go:85-88) is left out. It cannot fail on a map of strings.
- `json.Unmarshal` (main.go:128-131) is left out. Its result is given directly as a `Body`: an object, or a decode error.
- Float64 behaviour is left out. Number leaves are reals, so float64 rounding at decode time is not modelled, and neither is Go's implementation-defined `int(x)` for values outside the int range.
- Go's 64-bit `int` is not modelled for search values. They are unbounded integers, and `int64(value)` (main.go:229) is the identity.
- Real time and concurrency are left out: `time.Tick` (re-created on every iteration), the `select`, and the stream's `Context().Done()`. The events the loop observes stand for them.
- The error returned by `epsServer.Send` (main.go:273) is ignored by the source. The model treats every send as delivered.
- Logging of a failed tick is left out. The source only has a comment there.
- A nil `ScaledObjectRef` in a `GetMetricsRequest` would panic. It is not modelled: the metadata map is always given.
- `readinessHandler`, `livenessHandler`, `main`, the gRPC and HTTP server setup and the environment variables (main.go:27-31, 281-336) are left out. They are process bootstrap and health endpoints.
- `strings.ToLower` is modelled on ASCII only. No non-ASCII character lower-cases to a letter of "true" or "false", so the unsafeSSL check is unaffected.
- ExternalScaler.ActivationTargetDefaults: states the parsed value only for the canonical spelling `Itoa(n)`. Other spellings that `Atoi` accepts, such as "+07", are handled by `Strconv.ParseInt64` but not restated in the lemma.
- ExternalScaler.MetricSpecTarget: states the target only for the canonical spelling `Itoa(n)`, for the same reason.

## Findings

| source | as written | input that shows it | evidently intended | confidence | as-written member | corrected member |
|---|---|---|---|---|---|---|
| main.go:122-125 | on a status other than 200 the code returns `status.Error(codes.Internal, err.Error())`, but `err` is the nil error left by the successful `ReadAll`, so the call dereferences nil and panics | parameters `q:1` and a reply with status 500 and any body | return an Internal status error, as for the other exchange failures | high; not executed | SearchTemplate.RejectedStatusPanics | SearchTemplate.IntendedRejectedStatusIsInternal |

The operations in `ExternalScaler` and `Stream` are built on the as-written
`ExecuteSearchTemplate`, because that is how the deployed service behaves.
`SearchTemplate.IntendedRejectedStatusIsInternal` proves that the corrected
`ExecuteSearchTemplateIntended` gives the same result on every input where the
as-written one does not hit the nil dereference. So every property proved above
for non-panicking searches also holds for the corrected service.
