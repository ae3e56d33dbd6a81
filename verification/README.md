# cwproxy: verified model of its core logic

cwproxy is a reverse proxy that logs every exchange to CloudWatch or standard output, attaches metrics to log events in
the Embedded Metric Format (EMF), and retries upstream requests. This project models the parts of it that are more than
plumbing and proves what they are for. `dafny verify dfyconfig.toml` checks everything.

| file | what it is about |
|---|---|
| `Partition`, `Sorting`, `Text`, `Json` | greedy splitting into admitted pieces (shared by EMF batches and sink batches), byte-wise sorted lists, white space, the lexical layer of JSON |
| `EmfBatch`, `EmfRules`, `EmfParts`, `EmfBuild`, `EmfEvents`, `EmfLimits`, `TrafficMetrics` | the EMF encoder: greedy batches, what a batch may hold, its compiled form, reading it back, the events of a log entry, where it loses meaning, the metrics of one request |
| `Newline`, `EventText`, `EventBytes` | the bytes of an event: the scanner that places a line break after the summary, appended members, the same event in both sinks, the texts written out |
| `SinkProtocol`, `SinkSafety`, `SinkTick`, `SinkDrain`, `SinkWorker` | the asynchronous CloudWatch sink as interleaved steps, its invariants over all runs, its ticks, its drain, and the consumer's code as a refinement of the steps |
| `Publisher` | the smaller asynchronous metrics publisher, in the same way |
| `Shapes`, `Signature`, `SignaturePaths`, `SignatureMeaning`, `SignatureInvariance`, `SignatureTexts`, `SignatureWalk`, `SignatureLimits` | the structural signature of possibly cyclic values: unambiguity, paths and cycles, exactly when a value shows its own shape, what makes no difference, the characters, the in-place walk, limits |
| `RetryPolicy`, `RetryLoop`, `RetryRules`, `RetryBody`, `RetryRound`, `Capture` | the retry transport: normalised policy and backoff, the attempt loop, which answers are retried, body buffering and replay, both together, and the capturing tee |
| `StatusCodes`, `StatusRules` | the text of a status-code list, the set it denotes, and which texts are accepted |
| `Xml`, `XmlMeaning` | the recursive XML token decoder against a meaning defined on trees |
| `ProcessTree` | the capped breadth-first walk over child processes |

Loops and objects that the program updates in place are methods and classes here (`BatchState`, `Worker`,
`AsyncPublisher`, `SignatureState`, `Request`, `CaptureBuffer`, `TokenStream`), each proved against a specification
function; the laws are lemmas about those functions. The two goroutines with endless `select` loops are state machines
whose steps may interleave in any order; the classes beside them show that the straight-line code of one call is a run
of those steps.

## What the proofs found

- **The signature text is ambiguous for some keys.** It is unambiguous when no key contains a colon or starts with a
  closing brace (`Shapes.SafeKey`), which is weaker than excluding all of `:;{}[],`; both exclusions are needed
  (`SignatureLimits.AlphabetExact`).
- **A value that ends can be reported as cyclic.** A value shows its own shape exactly when it nests at most 32
  containers deep and no path down from it meets two containers of the same kind, type and data pointer
  (`SignatureMeaning.MarksExactly`). A slice that holds an empty prefix of itself does
  (`SignatureLimits.AliasingReportsCycle`); slices that share an array side by side do not.
- **An EMF batch keeps its meaning exactly when** no datum is named like one of its own dimension keys and no two key
  sets in it share the same NUL-joined text (`EmfParts.FaithfulIff`). The admission test checks neither;
  `EmfLimits` has a batch for each.
- **A metric can repeat the root name `global_hash`.** It is the one root name of a log entry that the admission test
  does not reserve; an event's metric fields repeat a root name exactly if some datum uses it
  (`EmfRules.OnlyGlobalHashRepeats`).
- **Closing the sink or the publisher can strand events.** In every run that ends, the drain finds the queue empty
  exactly once. What was accepted before that look is sent before `Close` returns nil, which includes everything
  accepted before `stop` closed; what is accepted after it never is (`SinkDrain.SentExactlyBeforeLastLook`,
  `Publisher.PutExactlyBeforeLastLook`). In `Log` the check of `closed` and the enqueueing are two steps, so it can be
  late as well.
- **An empty write to a full capture buffer sets the truncation flag** (`Capture.TruncatedExactly`). The tee never
  writes empty chunks, so for it the flag is exact.
- **With `GetBody`, retries capture body bytes again.** A body without `GetBody` passes the tee once. With it, nothing is
  captured twice exactly if at most one attempt consumes any byte (`RetryBody.CapturedOnceWithGetBodyIff`), so it is
  certain beforehand only for an empty body or a single attempt (`RetryBody.NeverCapturedTwiceIff`).

## Model

| member | source | states |
|---|---|---|
| Partition.GreedyConcat | internal/aws/cwlogs/emf.go:148-174 | the greedy pieces put back together are the input, in order |
| Partition.GreedyStaysAhead | internal/aws/cwlogs/emf.go:148-174 | against any in-order split into admitted pieces, the greedy split of every prefix has fewer pieces, or as many with a last piece that is no longer |
| Partition.GreedyOptimal | internal/aws/cwlogs/emf.go:148-174 | no in-order split into admitted pieces is shorter, whenever contiguous pieces of admitted lists are admitted |
| Partition.GreedyWhole | internal/aws/cwlogs/emf.go:128-136 | a list that is admitted as a whole is left in one piece |
| EmfBatch.AcceptsAntitone | internal/aws/cwlogs/emf.go:184-222 | a datum accepted after more has been fixed, or with more names reserved, is accepted after less and with fewer |
| EmfBatch.AdmissibleSuffix | internal/aws/cwlogs/emf.go:184-233 | dropping a batch's front and reserving fewer names keeps it admissible |
| EmfBatch.AdmitsHereditary | internal/aws/cwlogs/emf.go:184-233 | every contiguous piece of an admissible batch is admissible, so the greedy split is optimal |
| EmfBatch.BatchState.CanAdd | internal/aws/cwlogs/emf.go:184-222 | the tests and the loop over keys, in any key order, decide exactly the admission relation that `EmfRules.AdmissibleIff` spells out, and change nothing |
| EmfBatch.BatchState.Add | internal/aws/cwlogs/emf.go:224-233 | the state's maps stay what the collected datums fix |
| EmfBatch.PartitionDatums | internal/aws/cwlogs/emf.go:148-174 | succeeds if and only if every datum is admissible alone; then the result is the greedy split into batches as `EmfRules.AdmissibleIff` describes them, else the error names the first datum that is not |
| EmfRules.AdmissibleIff | internal/aws/cwlogs/emf.go:184-233 | a batch passes the test datum by datum if and only if: every datum comes while there are fewer than 100 metric names, has a usable name and at most 30 usable keys, and any two agree in value and unit where they share a name, agree where they share a key, and neither is named like a key of the other |
| EmfRules.OnlyGlobalHashRepeats | internal/aws/cwlogs/emf.go:16-32 | in every admissible batch a metric field repeats a root name of its log entry if and only if that name is `global_hash` and some datum uses it |
| EmfRules.UsableNames | internal/aws/cwlogs/emf.go:16-32 | which names a datum without dimensions may have in a log event and in a metric event |
| EmfRules.PartsAreSorted | internal/aws/cwlogs/emf.go:276-297 | texts come in key order before numbers in name order; directives come in the order of their joined keys, and their keys and metrics are sorted, whatever order maps yield their keys in |
| EmfParts.FaithfulIff | internal/aws/cwlogs/emf.go:235-300 | the fields have distinct names, and decoding fields and directives gives exactly the batch's datums under the given namespace and nothing under any other, if and only if no datum is named like its own key and no two key sets share a joined text |
| EmfParts.DecodesIff | internal/aws/cwlogs/emf.go:235-300 | what the compiled batch says of a datum under a namespace is what the directive of some group with that namespace and the root fields tell |
| EmfParts.JoinInjective | internal/aws/cwlogs/emf.go:256-257 | NUL-joined lists of non-empty NUL-free keys are equal only if the lists are |
| EmfParts.CleanKeysTold | internal/aws/cwlogs/emf.go:256-257 | with NUL-free keys, datums in the same group have the same keys |
| EmfParts.SharedNameIsOwn | internal/aws/cwlogs/emf.go:184-222 | in an admissible batch a name that is both metric and dimension key comes from one datum using its own name |
| EmfBuild.AddToGroup | internal/aws/cwlogs/emf.go:256-273 | one more datum keeps every group's directive equal to what the datums so far require, each metric listed once |
| EmfBuild.RootFields | internal/aws/cwlogs/emf.go:276-282 | dimension fields, then metric fields, each in ascending order |
| EmfBuild.SortedDirectives | internal/aws/cwlogs/emf.go:284-297 | one directive per group in ascending order of group key, its metrics sorted by name |
| EmfBuild.BuildEMFParts | internal/aws/cwlogs/emf.go:235-300 | fails if and only if two datums of one name differ in value or unit, and otherwise returns the parts that `FaithfulIff` speaks about |
| EmfEvents.SplitIsComplete | internal/aws/cwlogs/emf.go:148-174 | a successful split loses and reorders nothing, its batches are non-empty and admissible, and no admissible split has fewer |
| EmfEvents.SplitIsStable | internal/aws/cwlogs/emf.go:128-136 | a batch split again under the same or fewer reserved names is one batch equal to itself |
| EmfEvents.BuildEMF | internal/aws/cwlogs/emf.go:128-146 | succeeds if and only if the data are encodable in one batch; never reports conflicting values |
| EmfEvents.BatchEncodes | internal/aws/cwlogs/sink.go:160-190 | every batch of a split meets the condition under which `BuildEMF` succeeds, also with the reserved names of metric events |
| EmfEvents.LogWithMetrics | internal/aws/cwlogs/stdout.go:61-90 | one event per batch, each the encoding of its batch, the first with the time read for it and the others with theirs; the only error is that of the split, naming the first datum no batch can carry; neither "expected one EMF batch" nor "conflicting values" is ever returned |
| EmfEvents.Publish | internal/aws/cwlogs/sink.go:134-158 | without a log entry: one event per batch, each the encoding of its batch; an error if and only if there are metrics and either no namespace or a datum that no batch can carry, which is then named |
| EmfEvents.EventsTellTheData | internal/aws/cwlogs/sink.go:160-190 | with NUL-free keys and no own names, the events of a log entry decode to a datum under a namespace if and only if the datum was given and the namespace is the given one |
| EmfLimits.OwnNameNotFaithful | internal/aws/cwlogs/emf.go:184-222 | an admitted datum that uses its own name as a key is not read back |
| EmfLimits.NulKeyNotFaithful | internal/aws/cwlogs/emf.go:256-257 | two admitted datums whose key sets share a joined text are not read back |
| TrafficMetrics.TrafficSharesOneEvent | internal/proxy/handler.go:245-319 | whatever the request, its metrics form one batch, so they share the log event, and are read back unchanged |
| TrafficMetrics.EventTellsTheRequest | internal/proxy/handler.go:245-319 | reading that one event back gives, under the given namespace only and for the application-wide and the per-request dimensions, exactly the request count, the latency, both body sizes and the bucket named by the leading digit of a counted status class, with their units |
| Json.LexedOneWay | internal/logging/entry.go:273-302 | text can be cut into JSON strings and other bytes in one way only, so "inside a string" is well defined |
| Newline.InsertNewlineAfterSummary | internal/logging/entry.go:273-302 | the flag-driven scan puts one line break behind the first comma its lexer state finds outside a string, or returns the text as it is |
| Newline.SkipEscaped | internal/logging/entry.go:277-290 | the scanner crosses any string escaped as in section 7 of RFC 8259 and leaves it exactly at its closing quote |
| Newline.BreaksOutsideStrings | internal/logging/entry.go:273-302 | on every JSON text the line break comes right after the first comma that belongs to no string; never inside one |
| EventText.MarshalForCloudWatch | internal/logging/entry.go:92-102 | the text of an entry with a summary is `{"_q":`, the summary, a comma, one line break and then all other members; any other entry is the object of its members without line break |
| EventText.BreaksAfterSummary | internal/logging/entry.go:92-102 | for every escaped summary the line break stands directly behind the comma after the `_q` member |
| EventText.AppendEMF | internal/aws/cwlogs/emf.go:302-323 | an error unless the text ends with a closing brace; otherwise the new members stand in front of that brace |
| EventText.AppendedIsObject | internal/aws/cwlogs/emf.go:302-323 | appending to the text of an object with members gives the text of the object with the new members last |
| EventText.AppendedToBroken | internal/aws/cwlogs/emf.go:68-80 | appending to an entry with a line break keeps the line break where it is |
| EventText.MarshalLogWithMetrics | internal/aws/cwlogs/emf.go:68-80 | succeeds exactly for data that fit one batch, with the text `SameBytes` speaks about |
| EventText.MarshalStdoutLogWithMetrics | internal/aws/cwlogs/stdout.go:103-115 | the result is the text of one object: the entry's members, then the metric members |
| EventText.SameBytes | internal/aws/cwlogs/stdout.go:103-115 | without its line breaks the CloudWatch text is byte for byte the standard-output text, which is shorter by one byte exactly if the entry has a summary; independent of the clock once the entry has a time |
| EventText.MarshalMetricEvent | internal/aws/cwlogs/emf.go:82-126 | succeeds exactly for data that fit one batch under the smaller reserved set; the text is an object without `_q` and `app_name` for health, and with the line break only if asked for |
| EventText.SameLineBreak | internal/aws/cwlogs/emf.go:93-101 | the line break written by hand into metric events is where the scanner would put it |
| EventBytes.ObjectIs | internal/logging/entry.go:83-90 | the text of an object is its members in order between braces, with a comma between any two |
| EventBytes.StdoutTextIs | internal/aws/cwlogs/stdout.go:103-115 | the text on standard output, written out: `_q` first in a traffic entry with a summary, `_t` with the category, `app_name` in a traffic entry that has one, the other members, the metric fields, `_aws` |
| EventBytes.CloudWatchTextIs | internal/aws/cwlogs/emf.go:68-80 | the text sent to CloudWatch, written out with its one line break |
| EventBytes.MetricTextIs | internal/aws/cwlogs/emf.go:82-126 | the text of a metric event of either category, with and without the line break, written out |
| EventBytes.EventTime | internal/aws/cwlogs/emf.go:363-372 | metrics are dated by the response, else by the request; only an entry with neither time is dated by the clock |
| SinkSafety.StepKeeps | internal/aws/cwlogs/sink.go:206-312 | every step of producers and consumer keeps the invariant: conservation and order, accounting, bounds, control state, packing; that ticks and drains send is said by `SinkTick.TickSends` and `SinkSafety.DrainDelivers` |
| SinkSafety.RunKeeps | internal/aws/cwlogs/sink.go:206-312 | so does every interleaving |
| SinkSafety.ConservationAndOrder | internal/aws/cwlogs/sink.go:206-276 | in every reachable state the accepted events are the flushed ones, the pending batch, the event waiting for a flush and the queue, in acceptance order; the byte count is that of the batch |
| SinkSafety.OffersAreAccounted | internal/aws/cwlogs/sink.go:285-312 | over every run the accepted events are a subsequence of those offered, what was too large or found no room is exactly the drop count, cancelled attempts are counted apart, and as long as no more is offered than the queue holds, everything offered is accepted |
| SinkSafety.CallsAreBounded | internal/aws/cwlogs/sink.go:215-256 | every call ever made, also by a flush in progress, carries a whole non-empty batch within the count limit and within the larger of byte limit and one maximal event; one to three calls per flush, all with the same batch, and fewer than three only if the last was not answered retryable |
| SinkSafety.DefaultBound | internal/aws/cwlogs/sink.go:73-87 | with the defaults no call exceeds 900 KiB |
| SinkSafety.BytesAreMessages | internal/aws/cwlogs/sink.go:245-256 | the byte count of a batch is the length of its messages and 26 for each |
| SinkSafety.FewestBatches | internal/aws/cwlogs/sink.go:245-256 | without ticks a finished sink has used the fewest batches any in-order packing within the limits can have |
| SinkSafety.DrainDelivers | internal/aws/cwlogs/sink.go:192-204 | once the consumer is done, everything accepted before stop has been in at least one call, and nothing is missing exactly if the queue is empty |
| SinkTick.TickSends | internal/aws/cwlogs/sink.go:258-263 | in every run, everything taken from the queue before a tick has been sent in order once the tick's flush is over, and that is after three calls at the latest, whatever they are answered and whatever producers do meanwhile; until then the next call is possible |
| SinkDrain.DrainEnds | internal/aws/cwlogs/sink.go:258-275 | without producers a drain of n queued events is over within 5n + 5 consumer steps, and a run that long has ended it |
| SinkDrain.StuckIsDone | internal/aws/cwlogs/sink.go:258-275 | in a drain no consumer step is possible if and only if the consumer is done |
| SinkDrain.DoneIsFinal | internal/aws/cwlogs/sink.go:258-275 | a finished consumer flushes nothing more, whatever producers do |
| SinkDrain.SentExactlyBeforeLastLook | internal/aws/cwlogs/sink.go:258-275 | in every run that ends done, the drain finds the queue empty exactly once, and what is sent is exactly what had been accepted by then, whatever producers do before and after |
| SinkDrain.LateEventIsStranded | internal/aws/cwlogs/sink.go:114-124 | a run in which an event is accepted after that look and is never sent |
| SinkWorker.Worker.EnqueueMessage | internal/aws/cwlogs/sink.go:285-312 | the code takes exactly one enqueue step; too large comes before cancelled before full |
| SinkWorker.Worker.Flush | internal/aws/cwlogs/sink.go:215-243 | the retry loop is one to three call steps of the protocol and leaves an empty batch |
| SinkWorker.Worker.Tick | internal/aws/cwlogs/sink.go:262-263 | the ticker's branch is a tick step and the calls of its flush, and leaves everything taken so far sent |
| SinkWorker.Worker.AppendEvent | internal/aws/cwlogs/sink.go:245-256 | flushing first when needed and then appending is a receive step and the calls of its flush |
| SinkWorker.Worker.DrainQueue | internal/aws/cwlogs/sink.go:258-275 | undisturbed, whatever each call of each flush is answered, the drain loop empties the queue and every accepted event has been flushed |
| Publisher.PutsAreExact | internal/metrics/metrics.go:131-172 | in every reachable state nothing is lost or reordered; a batch has exactly the maximal size unless a tick or the close flushed it, and the close's batch is the last |
| Publisher.CloseDelivers | internal/metrics/metrics.go:107-119 | once the publisher is done, everything accepted before stop has been put |
| Publisher.PutExactlyBeforeLastLook | internal/metrics/metrics.go:157-170 | in every run that ends done, the drain finds the queue empty exactly once, and what is put is exactly what had been accepted by then |
| Publisher.LateDatumIsStranded | internal/metrics/metrics.go:78-105 | a run in which a datum is accepted after that look and is never put |
| Publisher.PutsAreFewest | internal/metrics/metrics.go:131-172 | without ticks the number of puts is the number of data divided by the batch size, rounded up |
| Publisher.StepKeeps | internal/metrics/metrics.go:78-172 | every step of producers and consumer keeps conservation, batch sizes and closing order; that a tick puts what is pending is said by `Publisher.TickPuts` |
| Publisher.TickPuts | internal/metrics/metrics.go:155-156 | in every run a tick puts everything taken from the queue before it, as one batch if there is anything |
| Publisher.AsyncPublisher.Publish | internal/metrics/metrics.go:78-105 | without a client nothing happens; otherwise, whatever the consumer takes between sends, a subsequence of the data tried is queued in order, the rest is dropped and counted, cancellation ends the call, and what fits at the outset is never dropped |
| Publisher.AsyncPublisher.Close | internal/metrics/metrics.go:107-119 | stop is closed once however often it is called |
| Publisher.AsyncPublisher.Receive | internal/metrics/metrics.go:149-154 | what is put and what stays pending are the old batch and the datum taken |
| Publisher.AsyncPublisher.Tick | internal/metrics/metrics.go:155-156 | the ticker's branch puts the pending batch, leaves none and touches nothing else |
| Publisher.AsyncPublisher.DrainQueue | internal/metrics/metrics.go:157-170 | undisturbed, the drain puts the pending batch and the queue in order and leaves nothing |
| Shapes.PrefixFree | internal/logging/hash.go:59-147 | with safe keys no shape's text is the beginning of another's: nested, sorted, deduplicated text is uniquely decodable |
| Shapes.RenderInjective | internal/logging/hash.go:59-147 | with safe keys two shapes have the same text if and only if they are equal |
| Signature.SigIsRender | internal/logging/hash.go:59-147 | on every graph, cyclic or not, the text is that of the value's shape, marks for cycles and for the cap included |
| SignatureTexts.LeafTexts | internal/logging/hash.go:59-147 | the texts of nil, of a scalar, of a cycle, of what is cut off, and of an empty object and array |
| SignatureTexts.ObjectText | internal/logging/hash.go:106-123 | an object's text lists its members from the least key on: key, colon, text, semicolon, between `o{` and `}` |
| SignatureTexts.ArrayText | internal/logging/hash.go:125-147 | an array's text lists its different element texts from the least on, each with a comma, between `a[` and `]` |
| SignatureTexts.SampleText | internal/logging/hash.go:59-147 | the signature of `[1, null, 2]` is `a[n,v,]` |
| SignatureMeaning.SignatureUnambiguous | internal/logging/hash.go:53-147 | for all pairs of graphs with safe keys, equal signatures mean equal shapes and the other way round |
| SignatureMeaning.MarksExactly | internal/logging/hash.go:53-104 | the text shows the value's own shape, without marks, if and only if the value nests at most 32 containers deep and no path down meets two containers of one kind, type and data pointer |
| SignaturePaths.CyclesAreDeeper | internal/logging/hash.go:59-104 | a value from which some path comes back to where it has been is deeper than every bound |
| SignatureMeaning.CyclesAreMarked | internal/logging/hash.go:159-179 | every such value leaves a mark in its signature |
| SignatureMeaning.SameSignatureSameShape | internal/logging/hash.go:53-147 | values at most 32 deep, on whose own paths no identity repeats, have the same signature if and only if they unfold to the same shape |
| SignatureMeaning.EntryTextUnambiguous | internal/logging/hash.go:26-32 | the text hashed for an entry determines the shapes of queries, request body and response body |
| SignatureTexts.EntryTextIs | internal/logging/hash.go:26-32 | the text that is hashed for an entry, written out |
| SignatureInvariance.SignatureIgnores | internal/logging/hash.go:53-179 | two graphs that differ in scalars, in the types and addresses their containers are known by, and in order and repetition of the elements of slices and fixed arrays at any depth, have the same signature, cyclic or not |
| SignatureInvariance.AlikeShape | internal/logging/hash.go:59-147 | the same for the shape of every part of them, at every depth and on every path |
| SignatureInvariance.ScalarsIgnored | internal/logging/hash.go:59-104 | replacing every scalar in the graph leaves the shape at every depth and on every path |
| SignatureLimits.AlphabetExact | internal/logging/hash.go:106-123 | over key alphabets with `v` and `;` the text is unambiguous if and only if they lack colon and closing brace |
| SignatureLimits.ColonCollides | internal/logging/hash.go:106-123 | two different shapes with one text, by a colon in a key |
| SignatureLimits.BraceCollides | internal/logging/hash.go:106-123 | two different shapes with one text, by a closing brace in front of a key |
| SignatureLimits.AliasingReportsCycle | internal/logging/hash.go:159-179 | a slice holding an empty prefix of itself has depth two, repeats an identity on a path, and is reported as a cycle |
| SignatureLimits.SiblingsMayShare | internal/logging/hash.go:159-179 | two slices of one array beside each other repeat no identity on a path and are shown with their shape |
| SignatureWalk.SignatureState.Enter | internal/logging/hash.go:159-179 | a container on the path is reported and the path left alone; another one joins the path; nil pointers never do |
| SignatureWalk.StructureSignatureValue | internal/logging/hash.go:59-104 | the recursion over a mutable path set ends, returns the specified text, and restores the set exactly |
| SignatureWalk.ObjectSignature | internal/logging/hash.go:106-123 | whatever order the map yields its keys in, the members are those of the sorted keys, and the path is restored |
| SignatureWalk.ArraySignature | internal/logging/hash.go:125-147 | whatever the order of elements, the items are the sorted set of element texts, and the path is restored |
| Sorting.SortedKeys | internal/logging/hash.go:149-157 | the result is the one ascending list of the keys, independent of iteration order |
| Sorting.AscendingUnique | internal/logging/hash.go:149-157 | a strictly ascending list is determined by its elements |
| Sorting.LessIsBytewise | internal/logging/hash.go:149-157 | the order used for sorting: at the first difference the smaller character comes first, and a beginning comes before the whole |
| RetryPolicy.NormalizeIdempotent | internal/proxy/retry.go:41-73 | normalising twice changes nothing more |
| RetryPolicy.NormalizeRaises | internal/proxy/retry.go:41-63 | each limit is raised to its least sensible value, the maximal backoff to the initial one, and only codes from 100 to 599 stay |
| RetryPolicy.NormalizeStatusCodes | internal/proxy/retry.go:312-331 | the loop and the sort give the ascending list of the valid codes, each once |
| RetryPolicy.NormalizeMethods | internal/proxy/retry.go:290-310 | the loop and the sort give the ascending list of the trimmed upper-case methods, each once |
| RetryPolicy.RequestIff | internal/proxy/retry.go:135-144 | a request may be retried if and only if it is neither `CONNECT` nor an upgrade and its method is, but for case and surrounding white space, one of those configured |
| RetryPolicy.BackoffBoundedAndMonotone | internal/proxy/retry.go:150-166 | whatever the configured limits, after normalisation every wait lies between initial and maximal backoff and is no shorter than the one before |
| RetryPolicy.BackoffIsGeometric | internal/proxy/retry.go:150-166 | the wait is the whole part of the term of the geometric sequence that starts at the initial backoff and grows by the multiplier, or the maximal backoff once the term exceeds it |
| RetryLoop.RoundTrip | internal/proxy/retry.go:91-133 | for every sequence of outcomes the loop's attempts, waits, closes and result are those that `RetryRules.AttemptIff`, `RetryRules.WaitAndCloseIff`, `RetryRules.ResultIs` and `RoundTripDiscipline` are about, and the panic behind it is unreachable |
| RetryLoop.RoundTripDiscipline | internal/proxy/retry.go:91-133 | at most the maximal number of attempts, one if not replayable, each made once; a response is closed once if superseded, or if the clone for its successor failed, and a returned response never; the result is the last attempt's unless a wait or clone fails |
| RetryRules.AttemptIff | internal/proxy/retry.go:91-133 | the first attempt is made, and attempt k + 1 if and only if attempt k was made, k is below the maximum, the request is replayable, the answer was a listed status or a retryable failure while failures are retried, the wait ended normally and the clone succeeded |
| RetryRules.WaitAndCloseIff | internal/proxy/retry.go:101-129 | a wait with the backoff of its attempt follows exactly the attempts that are to be retried; a response is closed if and only if such a wait after it ended normally |
| RetryRules.ResultIs | internal/proxy/retry.go:91-133 | the result in terms of the last attempt's answer, wait and clone: only a response is returned, only a failure is a transport error |
| RetryRules.EnabledIff | internal/proxy/retry.go:65-89 | the transport is left out exactly when it could never make a second attempt for any request it would handle |
| RetryLoop.BetweenAttempts | internal/proxy/retry.go:101-129 | between two attempts there are exactly the wait of the first, with its backoff, and then the close of its response if it has one |
| RetryLoop.TotalWaitBounded | internal/proxy/retry.go:101-129 | whatever the configured limits, after normalisation the waits of one round trip together are at most (attempts - 1) times the maximal backoff |
| RetryBody.Request.Prepare | internal/proxy/retry.go:168-198 | the branches on missing body, `GetBody`, limit, declared length and length read lead to the specified answer, request, buffered and captured bytes |
| RetryBody.PrepareCases | internal/proxy/retry.go:168-198 | which requests are left alone and how they are answered; reading any other body fails if and only if it breaks off before more than the limit has been read; what the prepared request then declares |
| RetryBody.Request.SetReplayable | internal/proxy/retry.go:221-241 | from then on every attempt, the first or a cloned one, sends exactly the payload, its length is the declared one, and nothing passes the tee |
| RetryBody.ReplayIsLossless | internal/proxy/retry.go:168-241 | on every attempt that is made the transport reads exactly the original bytes, unless reading failed |
| RetryBody.ReplayableExactly | internal/proxy/retry.go:168-198 | without `GetBody` a body is replayable if and only if the limit is positive and neither declared nor real length exceeds it |
| RetryBody.BufferingIsBounded | internal/proxy/retry.go:179-193 | whatever the body and the outcome, at most limit + 1 bytes are read into memory; they are the front of the body and of what is then sent |
| RetryBody.CapturedOnce | internal/proxy/handler.go:149-161 | without `GetBody` the tee sees a prefix of the body once, covering everything any attempt consumed, however many attempts follow |
| RetryBody.CapturedPerAttempt | internal/proxy/handler.go:149-161 | with `GetBody` the captured bytes are the fronts of the body that the attempts consumed, one after the other |
| RetryBody.CapturedOnceWithGetBodyIff | internal/proxy/handler.go:149-161 | so with `GetBody` the captured bytes are the consumed front of the body, each byte once, if and only if at most one attempt consumed any byte |
| RetryBody.NeverCapturedTwiceIff | internal/proxy/handler.go:149-161 | before any attempt: that is so for every possible consumption if and only if the body is empty or at most one attempt is allowed |
| RetryBody.OneByteTwice | internal/proxy/handler.go:149-161 | one byte read by two attempts is captured twice |
| RetryRound.RoundTripWithBody | internal/proxy/retry.go:91-133 | preparing and looping together: no attempt if the body cannot be read, else the trace and result of the loop over the prepared request |
| RetryRound.AttemptsSendTheBody | internal/proxy/retry.go:91-241 | every attempt that a round trip makes sends exactly the original bytes, and it ends in a clone error only if the caller's own `GetBody` failed, so never over a buffered body |
| Capture.CaptureBuffer.Write | internal/proxy/capture.go:22-41 | every write keeps the buffer the first `limit` bytes of everything written and the total its length |
| Capture.CaptureBuffer.Snapshot | internal/proxy/capture.go:43-49 | the first `limit` bytes of everything written, and whether a write overran |
| Capture.TruncatedExactly | internal/proxy/capture.go:22-41 | the flag is set if and only if more than `limit` bytes came, or an empty write met a full buffer |
| Capture.ChunkingIrrelevant | internal/proxy/capture.go:66-72 | over non-empty writes the flag says exactly whether more than `limit` bytes came, however they were cut |
| Capture.CaptureAgreesWithReadBody | internal/health/runner.go:284-299 | on the same bytes the buffer and `readBody` give the same payload and flag |
| StatusCodes.ListDenotes | internal/config/config.go:488-504 | for every non-empty list of codes and ranges, in either order and with any white space around items and dashes, parsing succeeds, normalising gives the ascending list of exactly the union, and a policy with these codes retries a status if and only if some item includes it |
| StatusRules.TokenIff | internal/proxy/retry.go:344-376 | a token is accepted, with exactly these codes, if and only if it is written as a code or as two codes around a dash, with white space around each; a code is three digits from 100 to 599, with any zeros and perhaps a plus sign in front; the error names the trimmed token |
| StatusRules.ListIff | internal/config/config.go:488-504 | a list is accepted, with exactly these codes in order, if and only if it is blank, or every part between its commas is such a token |
| StatusRules.FirstUnreadable | internal/config/config.go:488-504 | otherwise the error names the first part that is not |
| StatusCodes.TokenDenotes | internal/proxy/retry.go:344-376 | a printed code or range is read back as exactly the codes it includes |
| StatusCodes.OnlyCodes | internal/proxy/retry.go:344-376 | whatever the text, nothing outside 100 to 599 is accepted |
| StatusCodes.TrimFirst | internal/config/config.go:489-497 | trimming the whole list before cutting it makes no difference to its trimmed parts |
| StatusCodes.SplitJoin | internal/config/config.go:494-497 | cutting at the commas undoes joining with commas |
| StatusRules.PartsJoin | internal/config/config.go:494-497 | every list is its parts joined with commas, and no part has one |
| Text.TrimSpaceIs | internal/config/config.go:489-497 | trimming takes Unicode white space off both ends, all of it and nothing else |
| StatusCodes.ParseStatusCodesEnv | internal/config/config.go:488-504 | the loop returns the codes of all tokens in order, or the first token that is invalid |
| StatusCodes.ParseStatusCodeToken | internal/proxy/retry.go:344-376 | empty tokens, non-numbers, 64-bit overflow and numbers out of range are errors; the first dash separates a range |
| StatusCodes.StatusCodeListFromRange | internal/proxy/retry.go:333-342 | all codes between the bounds, ascending, in either order of the bounds |
| XmlMeaning.DecodeIsMeaning | internal/logging/entry.go:333-381 | on the tokens of a tree within the cap, followed by anything, the decoder returns the tree's meaning and stops right behind it |
| XmlMeaning.DeeperFails | internal/logging/entry.go:333-336 | every deeper tree fails with the depth error, whatever follows |
| XmlMeaning.AttributesAreKept | internal/logging/entry.go:338-341 | in the meaning of an element the field `@` with an attribute's name holds the value of the last attribute of that name |
| XmlMeaning.OnlyAttributesAreMarked | internal/logging/entry.go:338-341 | no other field starts with `@` |
| XmlMeaning.ChildrenAreKept | internal/logging/entry.go:383-394 | the field of a child's name holds its meaning, or the list of meanings if there are more children of that name |
| XmlMeaning.OccurrencesAre | internal/logging/entry.go:383-394 | those are the meanings of the children of that name in document order |
| XmlMeaning.TextIsKept | internal/logging/entry.go:357-378 | an element without attributes and children is its text or no fields; any other has its text under `#text` if it has any; texts are joined by single spaces |
| XmlMeaning.TextsAre | internal/logging/entry.go:357-361 | the texts are the trimmed chunks in document order, without blank ones |
| XmlMeaning.ChildExtendsFields | internal/logging/entry.go:383-394 | appending a child turns the fields of the children so far into those with the child in document order |
| XmlMeaning.DecodeXMLElement | internal/logging/entry.go:333-381 | the recursive method over a consumed stream returns what the decoding function says and leaves the rest of the stream |
| XmlMeaning.ParseXMLBody | internal/logging/entry.go:308-331 | the first start tag is found, and its element is returned under its name |
| XmlMeaning.DocumentIsParsed | internal/logging/entry.go:308-381 | a document is parsed if and only if it nests at most 64 deep, and then into one field: its root's name with the root's meaning |
| ProcessTree.ProcessTreePIDs | internal/inspector/child.go:182-224 | distinct reachable processes in order of distance from the root, at most 256; none left out is nearer than one listed, and each listed is the next new one among the children of those before it; with an empty queue exactly the reachable ones; failed exactly if some lookup failed |
| ProcessTree.OrderUnique | internal/inspector/child.go:192-221 | that order leaves one possible list of each length |
| ProcessTree.LeadsTo | internal/inspector/child.go:205-220 | the graph walked: a process leads to another exactly if its lookup succeeded and lists the other as a child |
| ProcessTree.PidsAreKept | internal/inspector/child.go:215-220 | children are queued in the order listed, without those that are nil |
| ProcessTree.CloserIsDone | internal/inspector/child.go:192-221 | at any moment everything nearer than the head of the queue is in the result |
| ProcessTree.TakeNew | internal/inspector/child.go:196-203 | a process that joins the result does so at its distance from the root |

## Left out

- HTTP serving, forwarded headers, sockets and TLS: library behaviour or one-branch checks. Whether a request is an upgrade is a parameter of `RetryPolicy.RequestIff`.
- AWS calls, resource creation and error codes: an answer is success, retryable or fatal. Real time and tickers: a tick is a step that may come at any moment.
- The endless `select` loops of `run` as methods: they are state machines here; a loop that never ends has no postcondition. The drain loops, which end, are methods.
- A flush of `Publisher` is one step: the batch is not touched while the client works on it, so enqueueing meanwhile makes no difference. That the client might keep the reused slice is not modelled.
- What a failed enqueue of one event means for the rest of a log entry's events, and the drop counter's report on every hundredth drop.
- Rendering of numbers and strings to JSON: strings are escaped text, numbers and envelopes are any compact JSON. NaN and infinities, which `json.Marshal` rejects, and rounding: metric values and the backoff multiplier are real numbers.
- `buildMetricSummary`: the application name and the sorted distinct metric names; any escaped text stands for it.
- SHA-256 and the shortening to six characters: the results are about the text before hashing.
- The XML tokenizer and `json.Decoder`: streams of tokens are given. That start and end tags of well-formed documents match is the tokenizer's work; the decoder's own comparison of names is modelled.
- SignatureMeaning.SameSignatureSameShape: says nothing of a pair in which one value is marked; `SignatureMeaning.SignatureUnambiguous` speaks of all pairs, with marks as part of the shape.
- SignatureLimits.AlphabetExact: alphabets without `v` or `;` remain open; some of them collide as well, such as those with `}`, `,`, `o` and `{` (two objects in an array against one with the key `},o{o`).
- SignatureInvariance.SignatureIgnores: the two graphs number their containers alike; the numbers are the model's names for them and appear nowhere in the text.
- EmfEvents.LogWithMetrics: returns the events; whether enqueueing or writing each of them succeeds is not part of it. A plain log line without metrics is an empty list.
- Publisher.AsyncPublisher.Publish: between two sends of one call the consumer may take data, but ticks and other publishers are not part of it; `Publisher.PutsAreExact` covers every interleaving.
- SinkWorker.Worker.DrainQueue: describes a drain without producers; `SinkSafety.DrainDelivers` and `SinkDrain.DoneIsFinal` cover drains with them. The same goes for `Publisher.AsyncPublisher.DrainQueue`.
- RetryPolicy.NormalizeMethods: upper case is ASCII only, which is all HTTP methods have.
- RetryBody.ReplayIsLossless: a body longer than 2^63 - 1 bytes under the largest limit would be cut, because the limit is not raised by one then; the contract says exactly that, but no machine holds such a body. A body that fails while being buffered makes the round trip fail before any attempt, so it has no attempts to speak about.
- StatusCodes.ParseStatusCodesEnv: the message of an error is reduced to the token it names, and looking the variable up is a parameter.
- ProcessTree.ProcessTreePIDs: process lookups are a fixed function during one walk; the combined error is whether any lookup failed.
- The other environment parsers, `HEALTH_URLS`, metadata, child start, wait and signals, `MultiSink`, `NopSink`, writing to standard output, health probing and recorder methods: foreign calls, fan-out and easy members.
