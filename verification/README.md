# Product feed pipeline: verified model

The pipeline turns raw source records into product feeds and publishes them.
This project models the parts of it that carry state or a small language, and
proves what they are for:

- **Flood control** (`FloodCache`, `RateLimiter`, `Deduplicator`,
  `SummaryEmitter`, `FloodControl`): bounded dictionaries that stand in for an
  unbounded history of log records. The classes update their dictionaries in
  place; the lemmas relate every run to the full history.
- **Publishing** (`Transport`, `RemoteServices`, `S3Archiver`, `HttpClient`,
  `Publisher`, `StreamingClient`): a payload streamed to a multipart upload and
  to a delivery client, against a remote side that may fail any call and may
  lose the answer to a call it carried out. The streaming client is a state
  machine over the interleaved steps of its two threads.
- **Schema compiler and executors** (`FieldCompiler`, `MappingCompiler`,
  `MappingExecutor`, `SchemaMeaning`, `SchemaDiagnostics`, `MappingSoundness`,
  `Builtins`, `BuiltinMeaning`, `TaxCode`, `ValidationCompiler`,
  `ValidationExecutor`, `RuleOrder`): a typed transform language and a rule list,
  their compilers and interpreters. `SchemaMeaning` reads a schema section as it
  stands and shows that compiling and running it does what it says; beside that
  stand type soundness, link soundness, exact causes of all diagnostics, and order
  independence.
- **Record stream** (`Values`, `RecordBuilder`, `ConnectorMapper`,
  `ArtifactProducer`, `BytesReader`): dot-path records built and read back, the
  lazy record loop with its counters, and the re-chunking byte reader.

`Options`, `Bytes`, `Ordering`, `Permutations` and `PyDict` hold the shared vocabulary:
a stable sort, lexicographic order of text tuples, filtering of permuted lists,
and dictionaries that remember insertion order.

Each operation that updates state is a method, proved against a function that
gives its result and new state; the laws are proved about those functions, over
every input, run or interleaving.

## Findings

Where the code does less than its documentation or a reader would expect, the
code is kept and the exact condition is proved.

- `unflatten` files a value under the empty path in the empty segment, but the
  reader answers MISSING for the empty path: `UnflattenRoundTrip` holds exactly
  for the other paths, and `EmptyPathIsLost` is the counterexample.
- Compiling a field can raise: exactly on `transforms: null`, and when the
  `prepare` of an operation raises (`CompileRaisesIff`); `NullTransformsRaise` and
  `MissingTaxTableRaises` are instances.
- Running a mapping can raise too: the presence step calls `str` outside any
  `try`. It does so exactly when a field to be emitted ends with a value that has
  no text (`RunRaisesIff`), such as an integer beyond Python's conversion limit
  (`LongIntegerRaises`).
- A server that answers before it has drained the body lets the streaming client
  finalize successfully with chunks unsent (`EarlyAnswerLosesChunks`). Every
  finalize that returns means delivery exactly when the server does not
  (`EveryFinalizeDeliversIff`), and a single run has delivered exactly when it
  pulled as often as it sent (`DeliveredIffPulled`). Whether a server and the HTTP
  library answer early is outside the code.
- A commit whose answer is lost leaves an object although the archiver reports
  failure. A failed archive leaves the whole payload exactly in that case and
  nothing otherwise (`S3Archiver.Finalize`, `Publish`); `LostCommit` is an
  instance.
- Validation items of severity FAIL and DROP enter the report as INFO, since the
  severity normalizer does not know those tokens (`OnlyWarnIsKnown`,
  `ValidationEntriesAreNeverErrors`; `FailEntersAsInfo` is an instance).
- The order of result items can follow the order of the rules
  (`RuleOrderCanShow`). It never does exactly when items that tie on the sort key
  are reported alike (`OrderFreeIff`); distinct ids are enough, and so is a
  condition on rules that share module and id (`ResultIgnoresRuleOrder`). The
  decision never depends on it.
- The clock of the flood-control classes is read before the lock is taken, so it
  need not be monotonic in lock order. `NewestIsEvictedIff` says exactly when an
  eviction then hits the key just seen. The deduplicator is stricter than the rate
  limiter on a key exactly when the key's deque has room one window after its
  last record (`StricterIff`). Only the times of the key's own records matter for
  that: it holds when they do not fall back (`DeduplicatorIsStricter`), whatever
  other keys do, and can fail when they do (`StricterNeedsMonotonicClock`). Other
  results that need a monotonic clock say so (`NonDecreasing`).
- The input counter counts a sequence at once, so after a stopped build it can
  exceed the number of items pulled: exactly when an item before the last ends the
  loop (`EagerCountAgreesIff`; `EagerCountOvershoots` is an instance).

## Model

| member | source | states |
|---|---|---|
| FloodCache.OverflowByOne | src/pfp_utils/logging/filters/flood_control_filter/flood_control_filter_strategies.py:231-243 | One key over the limit: exactly one key is popped, and it is the earliest inserted among those with the minimal last-seen time |
| FloodCache.TouchKeepsLimit | src/pfp_utils/logging/filters/flood_control_filter/flood_control_filter_strategies.py:231-243 | After a call the cache is within its limit, at most one key went and only if the cache was full and the key new, the victim has the oldest time, and every other entry is unchanged |
| FloodCache.NewestIsEvictedIff | src/pfp_utils/logging/filters/flood_control_filter/flood_control_filter_strategies.py:412-425 | The key just seen is evicted exactly when the cache was full, the key is new and its clock value is strictly below every cached one |
| FloodCache.RunKeepsLimit | src/pfp_utils/logging/filters/flood_control_filter/flood_control_filter_strategies.py:231-243 | Size never exceeds `max_cache_size` in any reachable state |
| FloodCache.CachedTimesAreLatest | src/pfp_utils/logging/filters/flood_control_filter/flood_control_filter_strategies.py:314-326 | Every cached time is the clock value of the latest event of its key, over any run |
| FloodCache.CachedIff | src/pfp_utils/logging/filters/flood_control_filter/flood_control_filter_strategies.py:314-326 | A key is cached exactly when no call has evicted it since its latest event |
| FloodCache.RunNeverEvictsNewest | src/pfp_utils/logging/filters/flood_control_filter/flood_control_filter_strategies.py:314-326 | With a clock monotonic in lock order no call evicts its own key, timestamp ties included |
| RateLimiter.RateLimitStrategy.ShouldSuppress | src/pfp_utils/logging/filters/flood_control_filter/flood_control_filter_strategies.py:202-229 | The in-place method (popleft loop, append, eviction) computes the verdict and the whole new state of the specification the lemmas below are about |
| RateLimiter.RateLimitStrategy.EnforceCacheLimit | src/pfp_utils/logging/filters/flood_control_filter/flood_control_filter_strategies.py:231-243 | The eviction loop removes exactly the oldest keys from both dictionaries |
| RateLimiter.RunKeepsDictsParallel | src/pfp_utils/logging/filters/flood_control_filter/flood_control_filter_strategies.py:202-243 | In every reachable state the two dictionaries have the same keys, within the limit |
| RateLimiter.RunRefinesHistory | src/pfp_utils/logging/filters/flood_control_filter/flood_control_filter_strategies.py:216-229 | The deque of a key is the full history of its allowed records since its last eviction, minus a prefix that has expired |
| RateLimiter.SuppressesIffHistoryIsFull | src/pfp_utils/logging/filters/flood_control_filter/flood_control_filter_strategies.py:216-229 | A record is allowed iff fewer than `max_events` records of its key were allowed in the last window since the key was last evicted |
| RateLimiter.AllowedRecordsAreSpaced | src/pfp_utils/logging/filters/flood_control_filter/flood_control_filter_strategies.py:216-229 | Any `max_events` + 1 consecutive allowed records of one key, with no eviction between, span at least the window |
| Deduplicator.DeduplicateStrategy.ShouldSuppress | src/pfp_utils/logging/filters/flood_control_filter/flood_control_filter_strategies.py:290-312 | The in-place method computes the verdict and whole new state of the specification |
| Deduplicator.DeduplicateStrategy.EnforceCacheLimit | src/pfp_utils/logging/filters/flood_control_filter/flood_control_filter_strategies.py:314-326 | The eviction loop removes exactly the oldest keys from both dictionaries |
| Deduplicator.RunKeepsDictsEqual | src/pfp_utils/logging/filters/flood_control_filter/flood_control_filter_strategies.py:290-326 | In every reachable state the two dictionaries are the same mapping, within the limit |
| Deduplicator.SuppressedIff | src/pfp_utils/logging/filters/flood_control_filter/flood_control_filter_strategies.py:303-326 | A record is suppressed exactly when the latest record of its key is less than the window ago and no call has evicted the key since |
| Deduplicator.AllowedDuplicateWasEvicted | src/pfp_utils/logging/filters/flood_control_filter/flood_control_filter_strategies.py:303-326 | A record with such a predecessor passes only when a call from then on evicted its key, and that call is given |
| Deduplicator.StricterIff | src/pfp_utils/logging/filters/flood_control_filter/flood_control_filter_strategies.py:202-326 | With no hypothesis on the clock: after a run, the deduplicator is the stricter of the two on a key at all times exactly when the key is not cached or its deque, expired one window after its last record, has room for another event |
| Deduplicator.DeduplicatorIsStricter | src/pfp_utils/logging/filters/flood_control_filter/flood_control_filter_strategies.py:202-326 | Simulation over whole runs: with the same window and cache size, whatever the deduplicator allows the rate limiter allows too, for every `max_events` and across evictions, as long as the times of that key's own records do not fall back |
| Deduplicator.RateLimiterIsNotStricter | src/pfp_utils/logging/filters/flood_control_filter/flood_control_filter_strategies.py:202-312 | The converse fails, on a concrete three-record run |
| Deduplicator.StricterNeedsMonotonicClock | src/pfp_utils/logging/filters/flood_control_filter/flood_control_filter_strategies.py:202-312 | That hypothesis is needed: the simulation fails on a concrete four-record run of one key whose time falls back |
| SummaryEmitter.SummaryEmitter.RecordSuppression | src/pfp_utils/logging/filters/flood_control_filter/flood_control_filter_strategies.py:354-386 | The in-place method returns the count to report and reaches the whole new state of the specification |
| SummaryEmitter.SummaryEmitter.EnforceCacheLimit | src/pfp_utils/logging/filters/flood_control_filter/flood_control_filter_strategies.py:412-425 | The eviction loop removes exactly the oldest keys from all three dictionaries |
| SummaryEmitter.RunKeepsDictsParallel | src/pfp_utils/logging/filters/flood_control_filter/flood_control_filter_strategies.py:354-425 | In every reachable state the three dictionaries have the same keys, within the limit |
| SummaryEmitter.SuppressionsAreConserved | src/pfp_utils/logging/filters/flood_control_filter/flood_control_filter_strategies.py:369-386 | Per key and over any run: recorded = reported in summaries + pending + lost to evictions |
| SummaryEmitter.OwnSuppressionIsNeverLost | src/pfp_utils/logging/filters/flood_control_filter/flood_control_filter_strategies.py:369-425 | With a monotonic clock a key's own call never loses a suppression to eviction |
| SummaryEmitter.SummariesAreSpaced | src/pfp_utils/logging/filters/flood_control_filter/flood_control_filter_strategies.py:369-386 | Consecutive summaries of an unevicted key are at least the interval apart, and the emission clock stands at the last of them |
| SummaryEmitter.SummaryIsEmittedIff | src/pfp_utils/logging/filters/flood_control_filter/flood_control_filter_strategies.py:369-386 | A summary is due iff the interval has passed since the latest summary of the key, or its first suppression, since eviction; its count is then everything pending |
| FloodControl.FloodControlFilter.Filter | src/pfp_utils/logging/filters/flood_control_filter/flood_control_filter_strategies.py:141-200 | In every mode: forced and unsuppressible records pass without touching any state; the others get the verdict of the mode's strategy, and exactly the suppressed ones reach the summary, if there is one |
| FloodControl.FloodControlFilter.FilterAll | src/pfp_utils/logging/filters/flood_control_filter/flood_control_filter.py:110-121 | A stream of calls to the filter from a fresh emitter: verdicts, summaries, strategy and emitter state as specified, and of every key the records refused are those the summaries returned have reported + those the emitter still holds + those lost to evictions |
| FloodControl.HeldBackIsRecorded | src/pfp_utils/logging/filters/flood_control_filter/flood_control_filter_strategies.py:97-135 | The refusals the filter returns over a stream are the suppressions the emitter is given, per key |
| FloodControl.ReportsAreSummaries | src/pfp_utils/logging/filters/flood_control_filter/flood_control_filter_strategies.py:354-386 | The counts it returns are what the emitter has reported, per key |
| FloodControl.HeldBackRecordsAreConserved | src/pfp_utils/logging/filters/flood_control_filter/flood_control_filter.py:110-121 | Of every key and over any log stream: refused = reported by the summaries returned + pending + lost to evictions |
| FloodControl.PlainModesDecide | src/pfp_utils/logging/filters/flood_control_filter/flood_control_filter_strategies.py:97-135 | Without memory: allow_all refuses no record, suppress_context exactly the records that are neither forced nor unsuppressible |
| FloodControl.RateLimitKeepsMore | src/pfp_utils/logging/filters/flood_control_filter/flood_control_filter.py:110-121 | Whatever rate limiting holds back after a log stream, deduplicating with the same window and cache size holds back too, as long as the key's own times do not fall back |
| Transport.ExecuteWithRetry | src/pfp_runtime/publishing/support/transport_policy.py:133-165 | At most `max_retries` + 1 calls; all but the last failed retryably; the last is the first success, the first non-retryable error passed on unchanged, or the failure that used up the budget; one sleep before each retry when a backoff is set |
| Transport.RetryIsDetermined | src/pfp_runtime/publishing/support/transport_policy.py:153-165 | That contract has one solution: the call outcomes determine result, call count and final state |
| Transport.ExhaustedIff | src/pfp_runtime/publishing/support/transport_policy.py:153-183 | Exhaustion happens exactly when the first `max_retries` + 1 calls all fail retryably |
| Transport.SettledIff | src/pfp_runtime/publishing/support/transport_policy.py:153-183 | The whole outcome from what each call comes to: the first call that is not a failure of one of the five retryable categories is the last, and its value or error is passed on; without one within the budget the budget is used up |
| RemoteServices.CreateRetried | src/pfp_runtime/publishing/archivers/s3_archiver.py:113-133 | A retried upload creation publishes nothing, and on success yields an empty upload under the key |
| RemoteServices.PartRetried | src/pfp_runtime/publishing/archivers/s3_archiver.py:260-279 | A part re-sent under its number, even after lost answers, has the effect of one upload |
| RemoteServices.CommitRetried | src/pfp_runtime/publishing/archivers/s3_archiver.py:201-250 | A completion or put that returns has committed exactly its object and was answered; one that fails has committed it exactly when the answer to one of the calls was lost, and otherwise nothing |
| RemoteServices.UnacceptableIsRefused | src/pfp_runtime/publishing/support/transport_policy.py:153-165 | A request the service cannot accept is refused every time and changes nothing, whatever is lost |
| RemoteServices.PostRetried | src/pfp_runtime/publishing/clients/http_client.py:191-220 | Every attempt of a retried POST sends the same body, and nothing else changes; it succeeds exactly when the last reply is neither lost nor 4xx nor 5xx, and hands its status on |
| RemoteServices.PostStops | src/pfp_runtime/publishing/clients/http_client.py:194-220 | A POST is sent again exactly after a 5xx or a fault of a retryable category; a 4xx ends it at once and is reported as remote_4xx |
| RemoteServices.GoodReplyIsDone | src/pfp_runtime/publishing/support/transport_policy.py:153-165 | An acceptable request whose first reply is good is done in one call |
| RemoteHandle.Remote.Send | src/pfp_runtime/publishing/support/transport_policy.py:133-165 | One request against the shared remote state, retried under the caller's own transport policy |
| S3Archiver.S3Archiver.Open | src/pfp_runtime/publishing/archivers/s3_archiver.py:107-133 | A successful open starts an empty upload with an empty buffer under the key; a failed one publishes nothing. Sent is exactly the abort of an upload left open, then the creation with its retries |
| S3Archiver.S3Archiver.WriteChunk | src/pfp_runtime/publishing/archivers/s3_archiver.py:135-164 | Parts in order followed by the buffer remain all bytes written since open, every part is at least 5 MiB, the buffer is below 5 MiB after the call; below that size nothing is sent, from there on exactly the next part with its retries, and the abort when it fails; call-order errors and failures publish nothing |
| S3Archiver.S3Archiver.Finalize | src/pfp_runtime/publishing/archivers/s3_archiver.py:166-254 | On return the committed object is the whole payload, part numbers are 1..n and n <= total / 5 MiB + 1; on failure that object is there exactly when the answer to a commit was lost, so nothing is published when no answer is lost; against a reliable service it never fails |
| S3Archiver.S3Archiver.Flush | src/pfp_runtime/publishing/archivers/s3_archiver.py:186-200 | The rest of the buffer becomes the last part, if there is any rest; then the parts make up everything written; nothing else is sent but the abort when it fails |
| S3Archiver.S3Archiver.Commit | src/pfp_runtime/publishing/archivers/s3_archiver.py:201-250 | Both endings, completion and empty-object fallback, commit exactly what was written; a failure leaves it committed exactly when an answer was lost; sent is abort then put, or the completion and its abort when it fails |
| S3Archiver.S3Archiver.SendCommit | src/pfp_runtime/publishing/archivers/s3_archiver.py:207-240 | The committing call with its retries |
| S3Archiver.S3Archiver.UploadPart | src/pfp_runtime/publishing/archivers/s3_archiver.py:260-279 | Success adds part n + 1 with the given bytes after the existing ones |
| S3Archiver.S3Archiver.UploadOrAbort | src/pfp_runtime/publishing/archivers/s3_archiver.py:146-164 | The same, and after a failure the last request is the abort of the upload, and nothing is published |
| S3Archiver.S3Archiver.AbortUpload | src/pfp_runtime/publishing/archivers/s3_archiver.py:281-294 | One abort request for the current upload, which is gone when the request is answered; nothing is committed or posted, and nothing sent without an upload |
| S3Archiver.LostCommit | src/pfp_runtime/publishing/archivers/s3_archiver.py:201-228 | A lost answer does happen: under every retry budget, a run in which each commit call times out, the archiver refuses and the object is there |
| S3Archiver.PartAppended | src/pfp_runtime/publishing/archivers/s3_archiver.py:260-279 | Storing one more part extends the assembled object by its bytes and keeps the numbering |
| S3Archiver.FlushConserves | src/pfp_runtime/publishing/archivers/s3_archiver.py:146-164 | Flushing a full buffer keeps parts + buffer = written |
| S3Archiver.FullPartsBound | src/pfp_runtime/publishing/archivers/s3_archiver.py:146-164 | n full parts hold at least n times 5 MiB |
| S3Archiver.PartCountBound | src/pfp_runtime/publishing/archivers/s3_archiver.py:166-200 | The number of parts is at most total / 5 MiB + 1, a small last part included |
| S3Archiver.ManifestIsAcceptable | src/pfp_runtime/publishing/archivers/s3_archiver.py:229-250 | The part list sent for completion satisfies every rule of the object store |
| HttpClient.HttpDeliveryClient.Open | src/pfp_runtime/publishing/clients/http_client.py:128-147 | A fresh cycle: empty buffer, not finalized |
| HttpClient.HttpDeliveryClient.SendChunk | src/pfp_runtime/publishing/clients/http_client.py:149-169 | The exact error or none, by case; the buffer grows only when the chunk is accepted and never exceeds `max_body_bytes` |
| HttpClient.HttpDeliveryClient.Finalize | src/pfp_runtime/publishing/clients/http_client.py:171-234 | 1 to `max_retries` + 1 POSTs, each with the buffered body, another one only after a 5xx or a retryable fault, and no other effect on the remote side; returns exactly when the last of them is answered with neither 4xx nor 5xx, reports that status, and otherwise names the failure; the body is given up, and the client finalized only on return |
| Publisher.Publisher.Publish | src/pfp_runtime/publishing/contracts/publisher_contract.py:77-114 | For every payload and outcome sequence: a publish that returns archived, posted and handed back the same bytes, within the limit; nothing is posted that was not archived first; once archived, the last POST's reply decides; a failure before that leaves no delivery, and the object exactly when the answer to a commit was lost, hence nothing when no answer is lost; against a reliable remote it succeeds iff the payload is complete and fits |
| Publisher.Publisher.Archive | src/pfp_runtime/publishing/contracts/publisher_contract.py:77-85 | The same for the part up to the return of `archiver.finalize()`, with the client left holding the archived bytes |
| Publisher.Publisher.Stream | src/pfp_runtime/publishing/contracts/publisher_contract.py:81-84 | The chunk loop keeps archiver and client holding the same bytes, publishes nothing and requests no commit |
| Publisher.Publisher.Pass | src/pfp_runtime/publishing/contracts/publisher_contract.py:81-84 | The same for one chunk |
| StreamingClient.StepKeepsInv | src/pfp_runtime/publishing/clients/streaming_http_client.py:97-220 | Each step of caller or worker keeps the protocol invariant |
| StreamingClient.RunKeepsInv | src/pfp_runtime/publishing/clients/streaming_http_client.py:97-220 | The invariant holds after every interleaving |
| StreamingClient.NothingIsLostInTransit | src/pfp_runtime/publishing/clients/streaming_http_client.py:129-220 | Chunks yielded into the request, then those queued ahead of the sentinel, are the chunks sent, in order |
| StreamingClient.WorkerBlocksOnlyBeforeSentinel | src/pfp_runtime/publishing/clients/streaming_http_client.py:201-220 | The worker can wait on an empty queue only while the sentinel has not been queued |
| StreamingClient.WorkerDrainsUnaided | src/pfp_runtime/publishing/clients/streaming_http_client.py:144-220 | Once the sentinel is queued the worker drains the whole body by its own steps, one per queued item |
| StreamingClient.DeliveredIffPulled | src/pfp_runtime/publishing/clients/streaming_http_client.py:129-220 | The server has the whole payload exactly when the schedule has at least as many pulls as sends |
| StreamingClient.PostEndsOnce | src/pfp_runtime/publishing/clients/streaming_http_client.py:201-220 | After every interleaving `_response` holds a status exactly when the post returned it, and `_exc` an error exactly when it raised it; never both |
| StreamingClient.ErrorRaisesIff | src/pfp_runtime/publishing/clients/streaming_http_client.py:175-183 | finalize raises at its first test exactly when the post has raised by then |
| StreamingClient.FinalizeReturnsIff | src/pfp_runtime/publishing/clients/streaming_http_client.py:185-199 | Past that test finalize returns a status exactly when the post has returned it and it is below 400; it raises for any other status and for want of an answer |
| StreamingClient.FinalizedMeansDelivered | src/pfp_runtime/publishing/clients/streaming_http_client.py:144-198 | A finalize that returns hands on the answer's status; and if the server answers only a drained body, it has every chunk, join timeout or not |
| StreamingClient.EveryFinalizeDeliversIff | src/pfp_runtime/publishing/clients/streaming_http_client.py:144-220 | Every finalize that returns means delivery exactly when the server is one that answers only a drained body |
| StreamingClient.EarlyAnswerLosesChunks | src/pfp_runtime/publishing/clients/streaming_http_client.py:144-220 | A schedule in which an early 200 makes finalize return while a chunk was never sent |
| Values.ExtractBySourcePath | src/pfp_core/engine/mapping/runtime_values.py:14-45 | The path loop reads fields by name and list items by index, and MISSING as soon as a segment does not resolve |
| Values.LookupIff | src/pfp_core/engine/mapping/runtime_values.py:28-45 | What is read is where the segments lead to one after the other: to the field of that name, or to the item at that index; where they lead nowhere, only MISSING is read |
| Values.SplitIff | src/pfp_core/engine/mapping/runtime_values.py:26-29 | The segments of a path are the one list of dot-free texts that a dot joins to it |
| Values.DecimalIsRead | src/pfp_core/engine/mapping/field_compiler.py:104-105 | The text of an index in a path is its number in decimal digits without leading zeros |
| Values.GetPath | src/pfp_core/ext/mapping/module_mapping_get_path.py:19-52 | Raises iff the path argument is no non-empty string; otherwise reads as the recursive lookup |
| Values.SplitJoined | src/pfp_core/engine/mapping/runtime_values.py:26-45 | Splitting a dotted concatenation gives the segments of both halves |
| Values.LookupAppend | src/pfp_core/ext/mapping/module_mapping_get_path.py:37-52 | Reading p + q is reading q on what p reads |
| Values.ExtractDeeper | src/pfp_core/engine/mapping/runtime_values.py:26-45 | Reading path + "." + rest from the record equals `get_path` of rest on the value at path |
| RecordBuilder.Unflatten | src/pfp_runtime/connectors/producers/product_producer.py:50-67 | The loop over the flat record builds the tree the lemmas below are about |
| RecordBuilder.BuiltHoldsEntries | src/pfp_runtime/connectors/producers/product_producer.py:50-67 | In a prefix-free flat record each value is found again at its segments |
| RecordBuilder.UnflattenRoundTrip | src/pfp_runtime/connectors/producers/product_producer.py:50-67 | Reading a path back gives its value iff the path is non-empty or the value is MISSING |
| RecordBuilder.EmptyPathIsLost | src/pfp_core/engine/mapping/runtime_values.py:26-28 | A value filed under the empty path is in the tree and is not found by the reader |
| RecordBuilder.UnflattenIgnoresKeyOrder | src/pfp_runtime/connectors/producers/product_producer.py:50-67 | Every permutation of a prefix-free flat record builds the same tree |
| RecordBuilder.BuildRecordTouchesOnlyItemId | src/pfp_runtime/connectors/producers/product_producer.py:70-92 | Building replaces `product.item_id` by its stripped text and changes no path apart from it |
| RecordBuilder.IdentifiedIff | src/pfp_runtime/connectors/producers/product_producer.py:70-92 | A nested record is kept exactly when `product.item_id` is there with a non-blank text, and building raises exactly when it has none |
| ConnectorMapper.RouteRecord | src/pfp_runtime/connectors/connector_mapping/connector_mapper.py:77-104 | A record without the source of some required mapping is skipped or stops the stream; any other yields its present sources under their targets |
| ConnectorMapper.RoutesAreMappings | src/pfp_runtime/connectors/connector_mapping/connector_mapper.py:47-49 | The compiled routes are exactly the configured mappings, each source with the target of the last mapping that names it |
| ConnectorMapper.LacksRouteIff | src/pfp_runtime/connectors/connector_mapping/connector_mapper.py:50-52 | Looking at the routes alone finds a required source that a record lacks iff there is one |
| ConnectorMapper.ApplyStream | src/pfp_runtime/connectors/connector_mapping/connector_mapper.py:56-104 | The stream yields exactly the routable records in order, and raises iff one lacks the source of a required mapping and errors are not skipped |
| ConnectorMapper.StreamIsComprehension | src/pfp_runtime/connectors/connector_mapping/connector_mapper.py:77-104 | The stream is the comprehension over the routable records: over all of them when errors are skipped, else over those before the first that lacks a required source |
| ConnectorMapper.ProduceStream | src/pfp_runtime/connectors/producers/product_producer.py:20-47 | The producer keeps, in order, the records with a usable item id, up to the first that raises; raises iff one does |
| ConnectorMapper.KeptIsComprehension | src/pfp_runtime/connectors/producers/product_producer.py:20-47 | The kept records are the comprehension over the identified ones before the first that raises |
| ConnectorMapper.PresentComesFromRoutes | src/pfp_runtime/connectors/connector_mapping/connector_mapper.py:77-104 | Every routed entry is a route whose source was present, and the routed record is prefix-free when the targets are |
| ConnectorMapper.PresentHasRoute | src/pfp_runtime/connectors/connector_mapping/connector_mapper.py:77-104 | Every route with a present source is in the routed record |
| ConnectorMapper.MappedTargetReadsSource | src/pfp_runtime/connectors/connector_mapping/connector_mapper.py:77-104 | End to end, for a configured mapping with its own source and a target apart from the others: reading the target from the built record gives the raw value under the source, stripped for `product.item_id` |
| FieldCompiler.CompileFieldMapping | src/pfp_core/engine/mapping/field_compiler.py:27-249 | The imperative compile loop computes the compiled field, its diagnostics or the raise, as specified |
| FieldCompiler.PlanFollowsItsBlocks | src/pfp_core/engine/mapping/field_compiler.py:52-89 | Whatever its diagnostics, a compiled field reads the path its source block names (none without one), is required when that block says true, and has the presence mode its presence block names, else that of the section |
| FieldCompiler.ChainRaisesIff | src/pfp_core/engine/mapping/field_compiler.py:225-230 | The transform loop raises iff the `prepare` of some linked operation does |
| FieldCompiler.CompileRaisesIff | src/pfp_core/engine/mapping/field_compiler.py:95-230 | Compiling a field raises iff `transforms` is null or some `prepare` raises |
| FieldCompiler.NullTransformsRaise | src/pfp_core/engine/mapping/field_compiler.py:95-104 | `transforms: null` raises where leaving the key out compiles |
| FieldCompiler.CompiledChainIsLinked | src/pfp_core/engine/mapping/field_compiler.py:104-240 | Every compiled call is in the catalog under its declared types and the inferred type is the last output type; without diagnostics neighbours agree and no transform is dropped |
| FieldCompiler.CompiledFieldIsWellTyped | src/pfp_core/engine/mapping/field_compiler.py:104-249 | The same for the plan of a field: linked, `final_type` right, and well typed when there are no diagnostics |
| FieldCompiler.ChainCompilesCleanlyIff | src/pfp_core/engine/mapping/field_compiler.py:104-240 | A chain has no diagnostics iff every raw transform is valid on its own and each output type can feed the next input type |
| FieldCompiler.FieldCompilesCleanlyIff | src/pfp_core/engine/mapping/field_compiler.py:27-249 | A field has no diagnostics iff source and presence blocks are valid and its transforms are such a chain |
| FieldCompiler.SourceIsCleanIff | src/pfp_core/engine/mapping/field_compiler.py:52-82 | The source block has no diagnostics iff it names a string path and `required`, if given, is a boolean |
| FieldCompiler.PresenceIsCleanIff | src/pfp_core/engine/mapping/compile_presence.py:22-66 | The presence block has no diagnostics iff its default is absent or one of the three modes |
| FieldCompiler.CleanChainIsTranscribed | src/pfp_core/engine/mapping/field_compiler.py:104-240 | The n-th compiled call of a clean chain carries the operation, `on_missing` and prepared arguments of the n-th raw transform |
| FieldCompiler.TransformComplains | src/pfp_core/engine/mapping/field_compiler.py:107-222 | The diagnostics of a transform are exactly those it gives cause for: each code at its place below the transform, with the fault that causes it |
| FieldCompiler.ChainComplains | src/pfp_core/engine/mapping/field_compiler.py:104-222 | The diagnostics of a chain are those of its transforms, each met with the static type that the calls before it leave |
| FieldCompiler.FieldComplains | src/pfp_core/engine/mapping/field_compiler.py:52-222 | The diagnostics of a field are those its source, presence and transforms blocks give cause for, and those of its transforms |
| MappingCompiler.CompileOutputOrder | src/pfp_core/engine/mapping/output.py:12-85 | The two loops compute the order and its diagnostics, in order |
| MappingCompiler.ScanOrder | src/pfp_core/engine/mapping/output.py:46-72 | Unknown and repeated ids are reported where they stand; `seen` maps each id to its first index |
| MappingCompiler.ScanMissing | src/pfp_core/engine/mapping/output.py:73-85 | Exactly the known fields the order does not list are reported |
| MappingCompiler.OutputOrderIsCleanIff | src/pfp_core/engine/mapping/output.py:46-85 | For csv_row there are no diagnostics iff the order is a list of strings that is a permutation of the compiled fields |
| MappingCompiler.TombstoneIsReadIff | src/pfp_core/engine/mapping/output.py:88-152 | The tombstone block is read without diagnostics iff it is valid; then names given are used and names left out keep their defaults; only an explicit true enables tombstones |
| MappingCompiler.CompileMapping | src/pfp_core/engine/mapping_compiler.py:26-160 | The section is compiled field by field in sorted order, with order and tombstone settings, as specified; one that is no object gives the empty plan and one diagnostic |
| MappingCompiler.CompileAllFields | src/pfp_core/engine/mapping_compiler.py:26-160 | The loop over the sorted fields |
| MappingCompiler.CleanCompilationIsLinked | src/pfp_core/engine/mapping_compiler.py:26-160 | A section without diagnostics compiles to a linked, well-typed plan with one field per key, ordered by a permutation of them for csv_row |
| MappingCompiler.CompilationIgnoresKeyOrder | src/pfp_core/engine/mapping_compiler.py:26-160 | The plan and diagnostics do not depend on the key order of `mapping.fields` |
| SchemaMeaning.SchemaCompilesCleanlyIff | src/pfp_core/engine/mapping_compiler.py:26-160 | A mapping section compiles, and without diagnostics, exactly when every block of it is in order, read off the raw section |
| SchemaMeaning.CompiledSectionFollows | src/pfp_core/engine/mapping_compiler.py:26-160 | Also with diagnostics, a section that compiles has its kind, order, field plans and tombstone settings from its blocks |
| SchemaDiagnostics.SectionComplains | src/pfp_core/engine/mapping_compiler.py:26-160 | The diagnostics of a section that compiles are exactly those it gives cause for, as a whole or in one of its fields |
| SchemaDiagnostics.OrderHasCauseIff | src/pfp_core/engine/mapping/output.py:46-85 | Each unknown, repeated or missing id of a csv_row order is reported at its place, and nothing else |
| MappingExecutor.ExecuteField | src/pfp_core/engine/mapping_executor.py:198-234 | The transform loop with its early stop computes emission and issues as the recursive chain does |
| MappingExecutor.RunOne | src/pfp_core/engine/mapping_executor.py:82-171 | One record through either output kind |
| MappingExecutor.RunRow | src/pfp_core/engine/mapping_executor.py:102-156 | csv_row: cells in column order, tombstone projection, sorted issues |
| MappingExecutor.RunCells | src/pfp_core/engine/mapping_executor.py:113-150 | The cell loop, including the missing-field branch |
| MappingExecutor.RunObject | src/pfp_core/engine/mapping_executor.py:158-171 | json_object: the non-omitted fields, sorted issues |
| MappingExecutor.RunFields | src/pfp_core/engine/mapping_executor.py:158-171 | The field loop of that branch |
| MappingExecutor.ChainReportsAtMostOnce | src/pfp_core/engine/mapping/runtime_values.py:81-130 | A chain reports at most one issue, and then it has stopped with MISSING |
| MappingExecutor.FailedFieldEmitsNoValue | src/pfp_core/engine/mapping/runtime_presence.py:13-53 | A field that reports an issue emits what its presence rule gives to MISSING, never a value |
| MappingExecutor.EmissionFollowsPresence | src/pfp_core/engine/mapping/runtime_presence.py:32-53 | A field that ends with MISSING emits OMIT under omit_missing, NULL under emit_null_if_missing, and OMIT with one EXEC_MAPPING_PRESENCE_ERROR under error_if_missing; null gives NULL, an emission passes, any other value gives its text or raises |
| FieldMeaning.FieldMeansItsText | src/pfp_core/engine/mapping_executor.py:198-234 | Compiling a field and running its plan gives on every record what its raw blocks say: source path, transforms with their on_missing in order, presence; same emission, same issues, same raise |
| SchemaMeaning.CsvSchemaMeansItsText | src/pfp_core/engine/mapping_executor.py:82-156 | From the raw section to the row: a csv_row section in order gives on every record its declared columns, each holding what its field says, OMIT outside the id of a tombstone, and exactly the issues of its cells and of an unsupported deletion, sorted by code and path; or raises for a cell without text |
| SchemaMeaning.ObjectSchemaMeansItsText | src/pfp_core/engine/mapping_executor.py:158-171 | The same for json_object: exactly the fields that say anything but OMIT |
| SchemaMeaning.MissingOrderIsReported | src/pfp_core/engine/mapping_executor.py:173-196 | A csv plan without an order reports so and gives its fields in sorted order |
| SchemaMeaning.UnknownColumnIsReported | src/pfp_core/engine/mapping_executor.py:124-139 | A column without a field is omitted and reported |
| SchemaMeaning.UnknownOpIsReported | src/pfp_core/engine/mapping/runtime_values.py:107-117 | A call whose operation is not in the catalog ends the chain with MISSING and is reported, unless on_missing settles it before |
| MappingExecutor.RunRaisesIff | src/pfp_core/engine/mapping/runtime_presence.py:50-53 | A run raises exactly when some field that is executed for the record ends with a value that `str` cannot turn into text |
| MappingExecutor.LongIntegerRaises | src/pfp_core/engine/mapping/runtime_presence.py:50-53 | An instance: a one-field plan on an integer that has no text |
| MappingExecutor.IssuesAreOrdered | src/pfp_core/engine/mapping_executor.py:237-246 | Issues come out sorted by code and path, none lost or added |
| TypeSoundness.ValuesFollowTypes | src/pfp_core/engine/mapping/runtime_values.py:81-130 | After each transform the value is MISSING, null or of that operation's declared output type |
| TypeSoundness.TypedOpNeverFails | src/pfp_core/engine/mapping/field_compiler.py:201-223 | An operation with a declared input type never fails behind one with a declared output type |
| TypeSoundness.SoundPlanRunsSoundly | src/pfp_core/engine/mapping_executor.py:206-234 | For any source value: the value reaching the presence step inhabits `final_type`, and a failure comes only from the first call or an untyped neighbour |
| TypeSoundness.CompiledFieldIsSound | src/pfp_core/engine/mapping/field_compiler.py:104-240 | The same for every field that compiles without diagnostics, on every record |
| LinkSoundness.LinkedCsvPlanRuns | src/pfp_core/engine/mapping_executor.py:102-156 | A linked csv plan gives one emission per column, each the field's own, or OMIT for the non-id cells of a tombstone, and no link issue; or it raises for a value without text |
| LinkSoundness.CleanCsvPlanRunsLinked | src/pfp_core/engine/mapping_executor.py:102-156 | A csv_row schema without diagnostics: order a permutation of its fields, and on every record that does not raise for a value without text, rows of that width and never ORDER_MISSING, FIELD_NOT_FOUND or OP_NOT_FOUND |
| LinkSoundness.LinkedObjectPlanRuns | src/pfp_core/engine/mapping_executor.py:158-171 | A linked json plan holds exactly the fields that are not omitted, each with its own emission, and no link issue |
| LinkSoundness.CleanObjectPlanRunsLinked | src/pfp_core/engine/mapping_executor.py:158-171 | The same for a json_object schema without diagnostics |
| TaxCode.ScanFindsLongestPrefix | src/pfp_core/ext/mapping/module_mapping_map_tax_code.py:87-96 | The scan over length-sorted keys finds the unique longest key that prefixes the category, or none iff no key does |
| TaxCode.ResultIgnoresTableOrder | src/pfp_core/ext/mapping/module_mapping_map_tax_code.py:43-104 | The result depends on the table as a mapping, not on the order of its entries |
| TaxCode.OverrideIsTaken | src/pfp_core/ext/mapping/module_mapping_map_tax_code.py:82-85 | An override that gives a text is the result, stripped |
| TaxCode.OverrideDecidesIff | src/pfp_core/ext/mapping/module_mapping_map_tax_code.py:82-85 | The override settles the code, whatever table, category and flag say, exactly when it gives a text that is not blank |
| TaxCode.LongestPrefixDecides | src/pfp_core/ext/mapping/module_mapping_map_tax_code.py:87-96 | Without an override the code of the longest prefix is the result |
| TaxCode.FallbackIff | src/pfp_core/ext/mapping/module_mapping_map_tax_code.py:87-104 | The taxable fallback is reached iff no key is a prefix, and then gives the exempt code to a flag that is false, zero or one of three texts, and the taxable code otherwise |
| Builtins.StringOpsAreHonest | src/pfp_core/ext/mapping/module_mapping_trim.py:10-39 | trim, lower, upper, normalize_whitespace and strip_html return strings and raise on no string |
| Builtins.ConversionsAreHonest | src/pfp_core/ext/mapping/module_mapping_to_bool.py:13-53 | to_str, to_int, to_bool, truncate, default_value and get_path return what they declare |
| Builtins.PresenceOpsAreHonest | src/pfp_core/ext/mapping/module_mapping_emit_if_present.py:10-37 | The emit operations return what they declare |
| Builtins.LookupsAreHonest | src/pfp_core/ext/mapping/module_mapping_map_tax_code.py:47-116 | The availability operations and map_tax_code return what they declare |
| Builtins.RegistryIsHonest | src/pfp_core/ext/mapping/mapping_contract.py:65-96 | Every operation of the registry keeps its declared signature, whatever the libraries behind it do |
| Builtins.DefaultsFitFromRaw | src/pfp_core/engine/mapping/field_compiler.py:225-240 | Defaults that fit in the raw transforms of a clean chain fit in the compiled calls, when no `prepare` touches them |
| Builtins.RegistryKeepsDefaults | src/pfp_core/ext/mapping/module_mapping_map_tax_code.py:19-44 | No operation of the registry touches its default when it prepares its arguments |
| Builtins.RegistryFieldIsSound | src/pfp_core/engine/mapping/field_compiler.py:104-240 | Type soundness without hypotheses on the catalog: every field of a schema that compiles cleanly against the registry, and whose raw defaults fit, runs soundly on every record |
| Builtins.MissingTaxTableRaises | src/pfp_core/ext/mapping/module_mapping_map_tax_code.py:19-44 | Compiling a field with map_tax_code raises when no tax table is loaded |
| BuiltinMeaning.StringOpMeans | src/pfp_core/ext/mapping/module_mapping_trim.py:10-39 | trim and its kin map a text, pass absent values, raise on everything else |
| BuiltinMeaning.ToStrMeans | src/pfp_core/ext/mapping/module_mapping_to_str.py:10-25 | to_str gives the text of a value and raises exactly when it has none |
| BuiltinMeaning.ToIntMeans | src/pfp_core/ext/mapping/module_mapping_to_int.py:10-35 | to_int gives exactly the number a value is or its stripped text reads as, and raises exactly when there is none |
| BuiltinMeaning.ToBoolMeans | src/pfp_core/ext/mapping/module_mapping_to_bool.py:9-42 | to_bool is true or false exactly for the boolean, 1 or 0, and the words listed, and raises otherwise |
| BuiltinMeaning.TruncateMeans | src/pfp_core/ext/mapping/module_mapping_truncate.py:16-43 | truncate gives the longest prefix of the text within the limit |
| BuiltinMeaning.TruncateNeedsLimit | src/pfp_core/ext/mapping/module_mapping_truncate.py:16-35 | Without a positive integer limit it raises on every value |
| BuiltinMeaning.DefaultValueMeans | src/pfp_core/ext/mapping/module_mapping_default_value.py:16-35 | default_value replaces absent values only and raises without its argument |
| BuiltinMeaning.GetPathMeans | src/pfp_core/ext/mapping/module_mapping_get_path.py:19-52 | get_path reads below the value and raises without a path |
| BuiltinMeaning.EmitOpsMean | src/pfp_core/ext/mapping/module_mapping_emit_if_present.py:10-26 | The emit operations: by presence, always NULL, always OMIT |
| BuiltinMeaning.BoolToAvailabilityMeans | src/pfp_core/ext/mapping/module_mapping_bool_to_availability.py:9-53 | in_stock and out_of_stock exactly for yes and no, raises otherwise |
| BuiltinMeaning.IntToAvailabilityMeans | src/pfp_core/ext/mapping/module_mapping_int_to_availability.py:10-39 | in_stock exactly for a positive count; null counts as none |
| BuiltinMeaning.TaxOpMeans | src/pfp_core/ext/mapping/module_mapping_map_tax_code.py:47-104 | map_tax_code resolves the values under the three keys, named by arguments or default |
| BuiltinMeaning.TaxOpIsPrepared | src/pfp_core/ext/mapping/module_mapping_map_tax_code.py:19-44 | Preparing its arguments keeps what the schema gives, and raises exactly without a tax table |
| BuiltinMeaning.TextOpFollows | src/pfp_core/ext/mapping/module_mapping_format_date.py:19-51 | An operation over a library fails, passes on and gives as the library does; dates and decimals likewise |
| BuiltinMeaning.DateOpFollows | src/pfp_core/ext/mapping/module_mapping_parse_date.py:17-46 | The same for dates |
| BuiltinMeaning.DecimalOpFollows | src/pfp_core/ext/mapping/module_mapping_to_decimal.py:11-34 | The same for decimals |
| BuiltinMeaning.RegistryNames | src/pfp_core/ext/mapping/mapping_contract.py:65-96 | The registry has the 27 operation names and no other |
| BuiltinMeaning.TextNames | src/pfp_core/ext/mapping/mapping_contract.py:65-96 | Each text operation is registered under its own name; as are, in the next five, the other operations |
| BuiltinMeaning.ConversionNames | src/pfp_core/ext/mapping/mapping_contract.py:65-96 | The conversions under their names |
| BuiltinMeaning.EmitNames | src/pfp_core/ext/mapping/mapping_contract.py:65-96 | The emit operations under their names |
| BuiltinMeaning.LookupNames | src/pfp_core/ext/mapping/mapping_contract.py:65-96 | The availability and tax operations under their names |
| BuiltinMeaning.FormatNames | src/pfp_core/ext/mapping/mapping_contract.py:65-96 | The formatting operations under their names |
| BuiltinMeaning.LibraryNames | src/pfp_core/ext/mapping/mapping_contract.py:65-96 | The other operations over libraries under their names |
| MappingPlan.TypeIsReadIff | src/pfp_core/engine/compile_support/types.py:9-33 | A type id reads as a type exactly when it is the name of that type |
| ValidationCompiler.OrderedRules | src/pfp_core/engine/validation/rule_order.py:10-41 | The built list is sorted by key and original index |
| ValidationCompiler.OrderedIsSortedPermutation | src/pfp_core/engine/validation/rule_order.py:20-41 | The ordered rules are a permutation of the rules, sorted by key |
| Lexicographic.StrLeIff | src/pfp_core/engine/validation/rule_order.py:40-41 | Texts compare as Python compares them: a prefix first, otherwise the smaller character at the first difference |
| ValidationCompiler.RuleOrderIsCanonical | src/pfp_core/engine/validation/rule_order.py:20-41 | With distinct non-empty ids the order is the same for every permutation of the rules |
| ValidationCompiler.RulesAreOrdered | src/pfp_core/engine/validation/rule_order.py:20-41 | Rules with an id come first, by id; then the other objects, by module and field; then what is no object; rules with the same key keep their order |
| ValidationCompiler.CompileValidation | src/pfp_core/engine/validation_compiler.py:23-211 | Plan, required-by-profile table and diagnostics of the section, with the cases of a malformed one |
| ValidationCompiler.CompileAll | src/pfp_core/engine/validation_compiler.py:71-169 | The rule loop |
| ValidationCompiler.PlanFollowsRule | src/pfp_core/engine/validation_compiler.py:80-165 | Whatever its diagnostics, a compiled rule carries module, id, field, config, code, message and severity hint as its blocks say |
| ValidationCompiler.RuleComplains | src/pfp_core/engine/validation_compiler.py:71-135 | The diagnostics of a rule are exactly those it gives cause for: each code at its place below the rule, with its fault |
| ValidationCompiler.RequiredIff | src/pfp_core/engine/validation/semantics.py:80-107 | A field is listed as required for a profile exactly when some compiled rule of `required_if_profile` applies to the field and names the profile |
| ValidationCompiler.RequiresIff | src/pfp_core/engine/validation_compiler.py:183-211 | A rule of required_if_profile is about the non-blank profiles it lists, else the one it names, else the three canonical ones |
| ValidationCompiler.RequiredNamesLast | src/pfp_core/engine/validation/semantics.py:100-107 | What is listed is the place of the last rule that requires the field for the profile |
| ValidationCompiler.RequiredIgnoresRuleOrder | src/pfp_core/engine/validation/semantics.py:80-107 | What a profile requires does not depend on the rule order, with or without ids |
| ValidationCompiler.CompilationIgnoresRuleOrder | src/pfp_core/engine/validation_compiler.py:71-169 | With distinct non-empty ids every permutation of `validation.rules` compiles to the identical rule plan |
| ValidationCompiler.CompilationPermutes | src/pfp_core/engine/validation_compiler.py:71-169 | With any ids, permuting `validation.rules` permutes the rule plan |
| ValidationCompiler.ValidationCompilesCleanlyIff | src/pfp_core/engine/validation_compiler.py:71-169 | The rules compile without diagnostics iff each is valid (module allowed, linked, of a supported type, its field known and fitting), and then none is dropped |
| Strictness.DowngradeErrors | src/pfp_core/policies/domain/strictness.py:73-80 | Every diagnostic is kept with errors turned to warnings, and no error is left |
| Strictness.ApplyPolicy | src/pfp_core/policies/domain/strictness.py:83-131 | A verdict never both fails and drops, errors remain exactly when it does one of them, and diagnostics change only for warn_only |
| ValidationExecutor.RunOne | src/pfp_core/engine/validation_executor.py:120-297 | The rule loop, the sort and the policy step compute the result as specified |
| ValidationExecutor.DecisionIgnoresRuleOrder | src/pfp_core/engine/validation_executor.py:234-297 | The decision never depends on the rule order, with or without ids, under any strictness mode or none |
| ValidationExecutor.PassIffAllRulesPass | src/pfp_core/engine/validation_executor.py:131-297 | The decision is PASS iff the module of every rule is found, returns normally and answers ok on the value of its field, MISSING without one, or on the record for a rule without field |
| ValidationExecutor.RuleReports | src/pfp_core/engine/validation_executor.py:131-212 | The item of a rule that does not pass: what failed and where, or the first non-empty of the rule, the module and the default for code, message and path; severity WARN or DROP by the hint, else FAIL |
| ValidationExecutor.ValidateReports | src/pfp_core/engine/validation_executor.py:214-297 | The result holds the items of the rules that do not pass, sorted by module, rule, path, code and message, each with the severity the mode leaves it; the decision is the gravest of these |
| ValidationExecutor.ForeignPolicyDecides | src/pfp_core/engine/validation_executor.py:234-297 | Any policy: asked about one diagnostic per item; one that answers with another number is not heeded, one more item reports it and the record fails; otherwise each item takes the severity of its answer and the record fails or drops as the policy says |
| ValidationExecutor.StrictnessIsCoherent | src/pfp_core/engine/validation_executor.py:234-297 | Under every mode items keep number, order and content but severity, the length-mismatch item never appears, and the decision is the policy-free decision of the effective items |
| ValidationExecutor.LevelsOfEffective | src/pfp_core/engine/validation/runtime_results.py:104-129 | Warnings stay; every other item becomes FAIL, DROP or WARN by the mode alone |
| ValidationExecutor.ModesAreOrdered | src/pfp_core/engine/validation/decision.py:10-35 | Decisions are ordered warn_only <= drop_invalid <= fail_on_error, and PASS only for no items |
| RuleOrder.OrderFreeIff | src/pfp_core/engine/validation_executor.py:131-297 | No reordering of the plan changes the result exactly when the items produced that tie on the sort key are reported alike, under every strictness mode and none |
| RuleOrder.TieShows | src/pfp_core/engine/validation_executor.py:214-232 | Given a tie that is not reported alike, a reordering of the plan with a different result |
| RuleOrder.ResultIgnoresRuleOrder | src/pfp_core/engine/validation_executor.py:131-297 | Under any policy and on every record the plan order is irrelevant when rules of the same module and id agree in id and severity hint and cannot confuse their codes, which can be read off the rules |
| RuleOrder.DistinctIdsDistinguish | src/pfp_core/engine/validation/rule_order.py:20-41 | Distinct non-empty ids are such a case |
| RuleOrder.SchemaRuleOrderIsIrrelevant | src/pfp_core/engine/validation_executor.py:120-297 | From the schema on: permuting `validation.rules` changes no result, under either condition |
| RuleOrder.SchemaDecisionIgnoresRuleOrder | src/pfp_core/engine/validation_executor.py:234-297 | From the schema on and without any condition, the decision does not depend on the rule order |
| RuleOrder.SchemaPassesIff | src/pfp_core/engine/validation_executor.py:131-297 | From the raw rules on: a record passes valid rules exactly when the module each rule names answers ok on what the rule applies to, with the config of the rule |
| RuleOrder.PlanOrderCanShow | src/pfp_core/engine/validation_executor.py:214-232 | A two-rule plan whose two orders give different results on every record |
| RuleOrder.RuleOrderCanShow | src/pfp_core/engine/validation_executor.py:214-232 | The same from `validation.rules`: two rules without ids on one module, one of them asking for a warning |
| ArtifactProducer.Records | src/pfp_core/artifact_production/artifact_producer.py:204-281 | The loop pulls a prefix of the items, counts it when the iterable counts lazily, yields its rows and report entries in order, and raises iff the last item pulled raised under a re-raising policy |
| ArtifactProducer.ProduceCounted | src/pfp_utils/diagnostics/feed_usage.py:81-107 | Counter attached and generator drained: the counter ends at the number of items for a sequence, and at the number pulled for any other iterable |
| ArtifactProducer.FeedUsageCollector.IncInput | src/pfp_utils/diagnostics/feed_usage.py:70-79 | The input counter grows by the count |
| ArtifactProducer.FeedUsageCollector.AttachInputCounter | src/pfp_utils/diagnostics/feed_usage.py:81-94 | A sequence is counted at once, any other iterable as it is consumed |
| ArtifactProducer.PulledEndsAtFirstEnd | src/pfp_core/artifact_production/artifact_producer.py:204-281 | Nothing is pulled after the first item that ends the loop, and everything is when none does |
| ArtifactProducer.RaiseEndsIff | src/pfp_core/artifact_production/artifact_producer.py:268-281 | The first item that raises ends the loop without a policy and under fail_fast, and does not under the two skipping strategies |
| ArtifactProducer.SkippingStopsAtFirstFail | src/pfp_core/artifact_production/artifact_producer.py:204-281 | Under skip-style isolation the loop pulls up to and including the first FAIL and the rows are those before it |
| ArtifactProducer.EveryItemIsAccountedFor | src/pfp_utils/diagnostics/feed_usage.py:96-107 | Every item pulled is a row, a type reject, a drop, a raise or the stop |
| ArtifactProducer.ItemIsReported | src/pfp_core/artifact_production/artifact_producer.py:204-264 | What an item adds to the report: one entry per validation item with its code and reference, then the stop, or one error per mapping issue |
| ArtifactProducer.RowsShowTheirItems | src/pfp_core/artifact_production/artifact_producer.py:204-267 | The rows are those of the items that validation lets through and mapping does not raise on, one for one and in order; OMIT shows as missing, NULL as null, a value as its text |
| ArtifactProducer.OutcomeIff | src/pfp_core/artifact_production/artifact_producer.py:204-281 | When an item is rejected, dropped, stops the build or raises |
| ArtifactProducer.InputCounterAddsUp | src/pfp_utils/diagnostics/feed_usage.py:96-107 | Input counter = rows + type rejects + drops + skipped errors + 1 if stopped |
| ArtifactProducer.EagerCountAgreesIff | src/pfp_utils/diagnostics/feed_usage.py:81-94 | Counting a sequence at once agrees with counting lazily exactly when nothing before its last item ends the loop |
| ArtifactProducer.EagerCountOvershoots | src/pfp_utils/diagnostics/feed_usage.py:81-94 | An instance of disagreement: two items of which the first is decided FAIL |
| ArtifactProducer.FailStopIsLast | src/pfp_core/artifact_production/artifact_producer.py:244-255 | BUILD.FAIL_STOP is there iff the last item pulled was decided FAIL, once, as the last entry |
| ArtifactProducer.OnlyWarnIsKnown | src/pfp_core/artifact_production/artifact_producer.py:431-445 | Of the three severity tokens of validation items the normalizer recognizes WARN only |
| ArtifactProducer.SeverityIsReadIff | src/pfp_core/artifact_production/artifact_producer.py:431-445 | The normalizer knows six tokens, in any case, and takes everything else for an INFO |
| ArtifactProducer.ValidationEntriesAreNeverErrors | src/pfp_core/artifact_production/artifact_producer.py:431-445 | A report entry is an ERROR iff it does not stem from a validation item |
| ArtifactProducer.FailEntersAsInfo | src/pfp_core/artifact_production/artifact_producer.py:225-255 | An instance: the item that fails a build enters the report as INFO |
| PipelineSoundness.RowsHaveTheColumns | src/pfp_core/artifact_production/artifact_producer.py:204-281 | A csv_row schema without diagnostics writes only tuples with one cell per declared column, whatever the items |
| PipelineSoundness.FeedMeansItsSchema | src/pfp_core/artifact_production/artifact_producer.py:204-281 | From the raw schema to the feed: for any items, one row per written item, in order, and every cell shows what its field says of that item |
| PipelineSoundness.ItemRaisesIff | src/pfp_core/artifact_production/artifact_producer.py:204-281 | An item raises exactly when its reference does, or validation lets it through and some field mapped for it ends with a value without text |
| PipelineSoundness.ExtractItemRef | src/pfp_core/artifact_production/artifact_producer.py:448-463 | The key loop gives the first non-blank text among the five keys, or "unknown" |
| PipelineSoundness.RefRaisesIff | src/pfp_core/artifact_production/artifact_producer.py:448-463 | Reading the reference raises exactly when a value without text comes before any key that settles it |
| PipelineSoundness.RefIff | src/pfp_core/artifact_production/artifact_producer.py:448-463 | The reference is the stripped text of the first key that has one, or unknown when none has |
| BytesReader.IterableBytesReader.Read | src/pfp_runtime/connectors/adapters/streaming_json_adapter.py:28-49 | Returns n bytes of the flat input as far as they last, or all for a negative n, and leaves exactly what follows them; raises iff it runs into a chunk that is not bytes |
| BytesReader.IterableBytesReader.ReadAll | src/pfp_runtime/connectors/adapters/streaming_json_adapter.py:28-38 | The unbounded read returns everything left |
| BytesReader.IterableBytesReader.ReadSizes | src/pfp_runtime/connectors/adapters/streaming_json_adapter.py:24-49 | Any sequence of reads agrees with a flat cursor, whatever the chunking |
| BytesReader.NothingIsLost | src/pfp_runtime/connectors/adapters/streaming_json_adapter.py:28-49 | Results so far followed by what is left are the whole input |
| BytesReader.CleanIsJoined | src/pfp_runtime/connectors/adapters/streaming_json_adapter.py:28-38 | The flat input of clean chunks is their bytes, joined |
| BytesReader.BadChunkCuts | src/pfp_runtime/connectors/adapters/streaming_json_adapter.py:28-49 | A chunk that is not bytes hides what follows until it is skipped |
| BytesReader.EmptyReadMeansEnd | src/pfp_runtime/connectors/adapters/streaming_json_adapter.py:39-49 | An empty result of a positive read means the input is used up, for all later reads too |

## Left out

- Clock values are reals, so the rounding of float timestamps is not modelled.
- Record keys are given as frozen tuples: how the filter builds them from a log record, and how it decides whether a level is suppressible in the active context, is a parameter of `FloodControl`; the log record a summary is emitted as is only its count.
- Locks are not modelled: each locked section is one atomic step.
- RemoteServices.PostRetried: a POST body counts as sent whatever comes back; what the receiving system does with it is not modelled.
- Transport errors carry their category; how an exception's text is classified into one, and how messages are formatted and redacted, is not modelled.
- Object keys (prefix, base name, UTC timestamp) and the sequence of remote replies are parameters; the 10,000-part limit of the object store is not in the code and not in the model.
- Calling an archiver again after it raised, and reopening a streaming client while its old thread is alive, are not modelled; the publisher never does either.
- The S3-compatible archiver follows the same protocol as `S3Archiver` and has no model of its own; SFTP and local-file archivers and clients are left out.
- StreamingClient.StepKeepsInv: the client is a state machine of caller and worker steps, not a class with threads; the queue is unbounded as in the code, and thread start-up is the initial state.
- RecordBuilder.Unflatten: builds nested dictionaries as values, so updating a shared nested dictionary in place and the insertion order of the result are not captured.
- `str`, `strip`, `lower`, `upper` and `int(text)` are abstract functions of the host, of which `str` and `int` may raise; HTML, regular expressions, decimal arithmetic and date libraries are abstract too, so the operations format_date, format_datetime_utc, format_money, format_price, format_shipping, parse_date, regex_extract, round_decimal, strip_suffix and to_decimal follow an abstract library function of the right result type.
- Catalogs extended by operations outside the registry: type soundness then holds for those that keep their declared signature.
- Issues and compile diagnostics keep code and path; the message is left out where code and path determine it.
- The final cross-check that a field required by a profile must not have `omit_missing` presence: it reads the table `RequiredIff` is about.
- Writer compilation, rendering, configuration loaders, registries, factories, manifests, telemetry and secret resolution are left out: wiring around the modelled core.
- The severity normalizer upper-cases ASCII text only; item severities are ASCII tokens.
- ArtifactProducer.Records: the report is the list of entries added, with origin, severity, code and item reference; of the usage counters only the input counter is modelled.
- BytesReader.IterableBytesReader.Read: the source iterable is a finite sequence; an iterable that itself raises is not modelled.
