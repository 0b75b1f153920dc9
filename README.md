# TraceExplorer analysis core, modelled in Dafny

TraceExplorer analyses the distributed traces recorded during an end-to-end test run:

1. It fetches the Jaeger span records of a time range from Elasticsearch.
2. It parses the records into canonical span records, grouped by trace and span id. The OpenTracing and the OpenTelemetry flavours of the record are both handled.
3. It builds one `Trace` per trace id. Building creates the `Span` objects, resolves their `CHILD_OF`/`FOLLOWS_FROM` references (a referenced span missing from the trace is fetched from storage), finds the single root, and links siblings in start-time order.
4. It runs user rules that mark spans as errored with a formatted cause.
5. It corrects clock skew between parent and child.
6. It rates every errored span as a possible root cause, walking down the span tree from the root. There are two raters: the splicing rater of `trace_explorer` and the write-once rater of `tracing_rca`.
7. It writes an HTML report per errored trace: a tree of the spans, the errored spans by rating, and the error strands.

This project models that core and proves properties of the model.

## How the model is organised

- **Spans and traces.** Spans are records (`Spans.Span`). A trace (`Traces.Trace`) is a class that owns an arena `spans: seq<Span>`. Every reference the source keeps between span objects (`parent`, `children`, `previous`, `caused`, `caused_by`, the root span) is an index into that arena.
- **Imperative routines.** The source's loops and in-place updates are methods on the arena. Each method is proved to produce exactly the state a pure specification function describes. Lemmas about those functions then state what the source promises.
- **Walks over the tree.** Recursive walks terminate by a ghost ancestor path (`Arena.IsPath`): each step adds a span the path has not visited. Where the source would recurse forever (a cycle of `caused` links, or a rule that re-enters a span), the model returns an error instead.
- **Rules.** Rules are modelled through the list of writes they perform. Conditions and cause templates read only tags, logs and the tree structure, and actions write only `error` and `cause`. So the writes are computed from the arena as it is when the rule starts (`Rules.RuleWrites`), and the methods are proved to perform exactly those writes.
- **The two raters.** `Rca.Engine` selects the rater: `Splicing(maxClockDeviation)` for `src/trace_explorer/analysis/rca.py`, `WriteOnce` for `src/tracing_rca/analysis/rca.py`.
- **The two parser flavours** share module `Jaeger` (`dict()` over pairs, the error tag, the log list, record assembly, grouping). Module `Parsers` holds their common `parse_spans`, selected by `Parsers.Dialect`.
- **The two Elasticsearch helper flavours** differ only in the accepted `_type` values (`DOC_TYPES` and `LEGACY_DOC_TYPES`) and in the request wrapper.

## Model

| member | source | states |
|---|---|---|
| Spans.FirstMissingEvent | src/trace_explorer/analysis/models.py:111-116 | the first log lacking an `event` field (where the filter's lookup raises KeyError), or none exactly when every log has one |
| Spans.EarliestErrorLog | src/trace_explorer/analysis/models.py:111-119 | none exactly when no log is an error log; otherwise an error log with the smallest timestamp, and the first such by position (the sort is stable) |
| Spans.NewSpanAsWritten | src/trace_explorer/analysis/models.py:28-36 | as written, a span whose error tag is falsy and whose HTTP status is 500 fails (the cause is read before it is assigned); every other span is built as intended |
| Spans.Http500SpanFailsAsWritten | src/trace_explorer/analysis/models.py:71-79 | a concrete status-500 record without error tag that cannot be built as written |
| Spans.NewSpan | src/trace_explorer/analysis/models.py:16-39 | construction fails exactly when some log lacks `event`, naming the first such log; a built span has its id and references, rating 0, kind root and no links |
| Spans.NewSpanCharacterised | src/trace_explorer/analysis/models.py:16-39 | a built span copies the record's fields, ends at start plus duration; it is errored iff the error tag is truthy or the status is 500; timestamp, stack and cause come from the earliest error log, the first by position among equally early ones (the sort is stable), with the HTTP 500 message for a status-500 span without a cause |
| Sorting.SortBySorted | src/trace_explorer/analysis/models.py:247 | `sorted(..., key=...)` yields a list ordered by the key |
| Sorting.SortByPermutation | src/trace_explorer/analysis/models.py:247 | `sorted` yields a permutation of its input |
| Sorting.SortByStable | src/trace_explorer/analysis/models.py:247 | `sorted` is stable: the elements of each key value keep their input order |
| Sorting.SortBySortedIsIdentity | src/trace_explorer/analysis/models.py:247 | sorting an already ordered list changes nothing |
| Sorting.SortByAgree | src/tracing_rca/reports/html.py:19 | sorting depends only on the key values, so two keys that agree everywhere sort alike |
| Sorting.KeepCount | src/tracing_rca/reports/html.py:20 | a list comprehension's filter keeps every element satisfying the test as often as it occurs, and no other |
| Sorting.KeepSorted | src/tracing_rca/reports/html.py:19-20 | filtering an ordered list leaves it ordered |
| Sorting.KeepWithKey | src/tracing_rca/reports/html.py:19-20 | filtering and then selecting a key value is selecting and then filtering, so the filter keeps stable order |
| Sorting.KeepAppend | src/tracing_rca/reports/html.py:20 | filtering a concatenation is concatenating the filtered parts |
| Traces.ErrorCount | src/trace_explorer/analysis/models.py:191-193 | the number of errored spans is at most the number of spans, and is 0 exactly when no span is errored |
| Traces.ErrorCountAppend | src/trace_explorer/analysis/models.py:181-189 | appending a span raises the count by one exactly when that span is errored |
| Traces.SpansOf | src/trace_explorer/analysis/models.py:168-179 | the spans of all records succeed exactly when each record builds, and then hold the built spans in record order |
| Traces.InitSpansFirstFailure | src/trace_explorer/analysis/models.py:174-175 | the error raised is that of the first record, in order, that does not build |
| Traces.InitSpansBuilding | src/trace_explorer/analysis/models.py:168-179 | fresh spans of distinct ids form an arena without links, ready for reference resolution |
| Traces.Attach | src/trace_explorer/analysis/models.py:85-105 | attaching fails exactly when the child already has a parent (CircularDependency naming it); otherwise the child gets the parent and the kind, and the parent gets the child appended |
| Traces.AttachParentOnce | src/trace_explorer/analysis/models.py:85-93 | a span attached once can never be attached again, to any parent |
| Traces.AttachTree | src/trace_explorer/analysis/models.py:85-105 | attaching keeps the parent/children links mutually consistent and the children lists free of duplicates |
| Traces.AttachBuilding | src/trace_explorer/analysis/models.py:95-105 | attaching keeps the construction invariant, the ids and the references |
| Traces.IndicesWithId | src/trace_explorer/analysis/models.py:223 | exactly the positions of the spans with the id, in order |
| Traces.UniqueIdsAtMostOne | src/trace_explorer/analysis/models.py:223-226 | with unique ids at most one span matches, and exactly one when the id is present |
| Traces.Fetch | src/trace_explorer/analysis/models.py:227-235 | the fetch fails, as an unresolved reference, exactly when storage lacks the id or its record does not build; otherwise the span is appended and counted if errored |
| Traces.Locate | src/trace_explorer/analysis/models.py:223-235 | a located span has the referenced id, and locating only ever appends spans |
| Traces.ResolvedCases | src/trace_explorer/analysis/models.py:216-240 | duplicate ids raise; a missing span that cannot be fetched raises; CHILD_OF and FOLLOWS_FROM attach the span below the target unless it already has a parent; any other type attaches nothing |
| Traces.FetchBuilding | src/trace_explorer/analysis/models.py:227-235 | a fetched span is new, keeps the spans before it, and leaves storage one unseen id fewer |
| Traces.ResolveReferenceBuilding | src/trace_explorer/analysis/models.py:216-240 | resolving one reference keeps the construction invariant and either keeps the ids or consumes an unseen storage id |
| Traces.ResolveRelationsFrom | src/trace_explorer/analysis/models.py:210-214 | resolving all references keeps the construction invariant and never drops spans |
| Traces.ResolveRelationsUnfold | src/trace_explorer/analysis/models.py:210-214 | the nested loop over spans and their references, including spans appended while it runs, one reference at a time |
| Traces.ResolveRelationsCounts | src/trace_explorer/analysis/models.py:181-189 | after resolution the error count still equals the number of errored spans |
| Traces.RootIndices | src/trace_explorer/analysis/models.py:201 | exactly the positions of the root-kind spans, in order |
| Traces.RootSpan | src/trace_explorer/analysis/models.py:199-208 | the root is the only root-kind span; no root and several roots raise their two distinct errors, each exactly in its case |
| Traces.SortedChildren | src/trace_explorer/analysis/models.py:247 | the sorted children are a permutation of the children, all in the arena |
| Traces.SortedChildrenFacts | src/trace_explorer/analysis/models.py:247 | the sorted children are distinct, in start-time order, and keep the input order among equal start times |
| Traces.LinkPrevious | src/trace_explorer/analysis/models.py:248-250 | linking one sibling changes only `previous` links and keeps the arena well formed |
| Traces.OrderFrom | src/trace_explorer/analysis/models.py:248-251 | the loop over the sorted children changes only `previous` links |
| Traces.Ordered | src/trace_explorer/analysis/models.py:242-251 | `order_children` changes only `previous` links |
| Traces.OrderChildrenUntouched | src/trace_explorer/analysis/models.py:242-251 | the walk below a span leaves the span and its ancestors unchanged |
| Traces.OrderChildrenPrevious | src/trace_explorer/analysis/models.py:248-250 | after ordering, each sorted child except the first points to the one before it; the first keeps its link |
| Traces.OrderedOutside | src/trace_explorer/analysis/models.py:242-251 | `order_children(span)` writes only below `span`: a span that does not have it as an ancestor is unchanged |
| Traces.OrderedChains | src/trace_explorer/analysis/models.py:242-251 | the recursion chains the sorted children of every span it reaches below `span`, at any depth, and each first child keeps its link |
| Traces.OrderedFromRootChains | src/trace_explorer/analysis/models.py:242-251 | after `order_children(root)`, for every span reached from the root through `children`, its m-th child in stable start-time order points to the (m-1)-th, and the first child keeps its link |
| Traces.Follow | src/trace_explorer/analysis/models.py:134-135 | following `caused` links stays inside the arena |
| Traces.CausedTail | src/trace_explorer/analysis/models.py:128-138 | the strand tail found has no `caused` link |
| Traces.CausedTailMeaning | src/trace_explorer/analysis/models.py:128-138 | the tail found is where the `caused` chain ends; no tail means the chain revisits a span and never ends (the source recurses without bound) |
| Traces.StrandOf | src/trace_explorer/analysis/models.py:264-267 | a strand is the candidate, followed by its chain's tail when that is another span |
| Traces.Candidates | src/trace_explorer/analysis/models.py:259-263 | exactly the errored spans without a `caused_by` link, in arena order |
| Traces.StrandsOf | src/trace_explorer/analysis/models.py:253-268 | one strand per candidate, in order, unless some candidate's chain is cyclic, which aborts with that candidate named |
| Traces.BuildTraceInitialised | src/trace_explorer/analysis/models.py:144-148 | once the spans exist, construction continues with reference resolution |
| Traces.RootWalkable | src/trace_explorer/analysis/models.py:151 | the children walk can start at the root |
| Traces.FinishFacts | src/trace_explorer/analysis/models.py:149-152 | the end of construction keeps the tree and the count, leaves exactly one root (the span without parent), and takes its start time and the file name |
| Traces.BuildTraceFacts | src/trace_explorer/analysis/models.py:144-152 | a built trace is a tree with unique ids and one root, the span without parent; its error count is the number of errored spans; the span at position i has the id of record i, so every record is held, ahead of the spans fetched from storage |
| Traces.Trace.constructor | src/trace_explorer/analysis/models.py:145-146 | a trace starts empty with error count 0 |
| Traces.Trace.InitSpans | src/trace_explorer/analysis/models.py:168-179 | the loop stores the spans of the records and counts the errored ones, or raises the first failure |
| Traces.Trace.AddSpan | src/trace_explorer/analysis/models.py:181-189 | a built span is appended and counted if errored; a failure leaves the trace unchanged |
| Traces.Trace.SetParent | src/trace_explorer/analysis/models.py:85-93 | a second parent is refused, naming the span, and nothing changes; otherwise only the parent link is set |
| Traces.Trace.AddChild | src/trace_explorer/analysis/models.py:95-105 | performs `Attach` in place |
| Traces.Trace.ResolveReference | src/trace_explorer/analysis/models.py:216-240 | performs one reference's resolution in place |
| Traces.Trace.LocateSpan | src/trace_explorer/analysis/models.py:223-235 | finds or fetches the referenced span in place |
| Traces.Trace.ResolveRelations | src/trace_explorer/analysis/models.py:210-214 | performs the whole resolution loop in place |
| Traces.Trace.ResolveReferencesOf | src/trace_explorer/analysis/models.py:213-214 | performs one span's inner loop in place |
| Traces.Trace.SetErrorCount | src/trace_explorer/analysis/models.py:191-193 | the error count becomes the number of errored spans, and nothing else changes |
| Traces.Trace.Complete | src/trace_explorer/analysis/models.py:148-152 | performs resolution, root search, start time, ordering and file name in place |
| Traces.Trace.FindRoot | src/trace_explorer/analysis/models.py:149-152 | performs the root search, the start time, the ordering and the file name in place |
| Traces.Trace.OrderChildren | src/trace_explorer/analysis/models.py:242-251 | performs `order_children` in place |
| Traces.Trace.OrderChild | src/trace_explorer/analysis/models.py:249-251 | one turn of the loop: link a sibling, then recurse into it |
| Traces.NewTrace | src/trace_explorer/analysis/models.py:144-152 | `Trace(trace_id, spans)` yields a fresh trace holding the built trace, or raises its error |
| Szenarios.MatchesEmptyList | src/trace_explorer/analysis/models.py:299-303 | `re.match(r'^\[\]$', s)` holds exactly for `[]` and for `[]` followed by one newline |
| Szenarios.Summaries | src/trace_explorer/analysis/models.py:282 | the summary of each trace, in order |
| Szenarios.ErroredSummaries | src/trace_explorer/analysis/models.py:282 | the in-order filter (`Sorting.Keep`) of the trace summaries on a positive error count, so order and multiplicity are kept; its length is the number of traces with errors |
| Szenarios.ErroredSummariesMembers | src/trace_explorer/analysis/models.py:282 | a summary is listed exactly when it is that of a trace with a positive error count |
| Sorting.KeepMembers | src/trace_explorer/analysis/models.py:282 | a list comprehension's filter keeps an element exactly when it occurs and passes the test |
| Szenarios.Szenario.constructor | src/trace_explorer/analysis/models.py:274-279 | a test run starts with its name and results and no traces |
| Szenarios.Szenario.AddTrace | src/trace_explorer/analysis/models.py:294-297 | appends the trace and adds its error count to the total |
| Szenarios.Szenario.HasError | src/trace_explorer/analysis/models.py:299-300 | the run has errors unless its errors text is an empty list |
| Szenarios.Szenario.HasFailed | src/trace_explorer/analysis/models.py:302-303 | the run failed unless its failures text is an empty list |
| Szenarios.Szenario.Summary | src/trace_explorer/analysis/models.py:281-292 | the dictionary counts all traces; it lists the errored ones in order as the filter keeps them; `errorsCount` is the number of traces with errors; it reports the error and failure flags |
| Szenarios.SumOfCounts | src/trace_explorer/analysis/models.py:297 | the total of non-negative error counts is non-negative, and zero exactly when every trace is error free |
| ClockSkew.TimeShift | src/trace_explorer/analysis/clock_skew.py:8-14 | the shift moves the child to one microsecond after the parent, and is positive exactly when the child does not start after the parent |
| ClockSkew.ShiftedKeepsDistances | src/trace_explorer/analysis/clock_skew.py:16-25 | shifting moves start, end, every log and a truthy cause timestamp by the shift; it keeps durations, log fields and the order of the logs |
| ClockSkew.ShiftedBack | src/trace_explorer/analysis/clock_skew.py:16-25 | shifting back undoes a shift, unless the shift lands the cause timestamp on 0 |
| ClockSkew.CauseTimestampStuckAtZero | src/trace_explorer/analysis/clock_skew.py:22-23 | a cause timestamp shifted onto 0 is no longer moved, because 0 is falsy |
| ClockSkew.AdjustTimestamps | src/trace_explorer/analysis/clock_skew.py:16-25 | a span without an error log raises once start and end are moved; otherwise the span is shifted and nothing else changes |
| ClockSkew.AdjustClockSkewAsWritten | src/trace_explorer/analysis/clock_skew.py:27-39 | as written, the call without a shift fails whenever an adjustment is needed |
| ClockSkew.AdjustClockSkewAsWrittenRaises | src/trace_explorer/analysis/clock_skew.py:34-35 | as written, adjusting raises exactly when the child does not start after its parent, and otherwise changes nothing |
| ClockSkew.ClockSkewAdjustedOrders | src/trace_explorer/analysis/clock_skew.py:27-39 | as intended, the child afterwards starts after its parent, one microsecond after it if moved, with its duration kept; no other span changes; it fails only for a child that needs moving and has no error log |
| ClockSkew.ClockSkewAdjustedIdempotent | src/trace_explorer/analysis/clock_skew.py:27-39 | adjusting twice is adjusting once |
| ClockSkew.AdjustClockSkew | src/trace_explorer/analysis/clock_skew.py:27-39 | performs the intended adjustment in place, leaving start and end moved when it raises |
| Jaeger.DictOfAppend | src/parsers/opentracing.py:12-14 | `dict()` of concatenated pairs is the first dictionary overridden by the second |
| Jaeger.DictOfKeys | src/parsers/opentracing.py:12-14 | `dict()` has exactly the keys of its pairs |
| Jaeger.DictOfLastWins | src/parsers/opentracing.py:12-14 | a key takes the value of its last pair |
| Jaeger.NatToStringLeading | src/parsers/opentracing.py:39-40 | a rendered number has no leading zero |
| Jaeger.DecodeIntegerRendering | src/parsers/opentracing.py:39-40 | `json.loads` of a rendered integer gives back that integer |
| Jaeger.ErrorTag | src/parsers/opentracing.py:37-41 | a missing error tag becomes False; a string is lower-cased and decoded as JSON, and fails exactly when it does not decode; any other value is kept |
| Jaeger.ErrorTagTrueSpelling | src/trace_explorer/parsers/opentelemetry.py:51-54 | `"True"` becomes true and `"FALSE"` becomes false |
| Jaeger.AssembleRecord | src/parsers/opentracing.py:32-44 | the record keeps the operation, references, times and logs; the service holds the process tags plus its name; it fails exactly when the error tag does not decode |
| Jaeger.ParsedNext | src/parsers/opentracing.py:46-54 | the parse loop handles one record per turn |
| Jaeger.ParsedFailsFrom | src/parsers/opentracing.py:46-54 | the first failure ends the parse |
| Jaeger.ParsedSucceeds | src/parsers/opentracing.py:46-54 | parsing succeeds exactly when every record has a span id and extracts, so a record without `spanID` fails it |
| Jaeger.ParsedTraces | src/parsers/opentracing.py:46-54 | the result has exactly the trace ids of the records |
| Jaeger.ParsedSpanIds | src/parsers/opentracing.py:46-54 | each trace holds exactly the span ids of its records |
| Jaeger.ParsedLastWins | src/parsers/opentracing.py:46-54 | of two records with the same trace and span id, the later one is kept |
| OpenTelemetry.Renamed | src/trace_explorer/parsers/opentelemetry.py:13-27 | renaming keeps the value and maps every mapped key away; unmapped keys stay the same |
| OpenTelemetry.GetKeyValueFromTags | src/trace_explorer/parsers/opentelemetry.py:19-27 | the loop yields the tag dictionary and renames every tag in its list |
| OpenTelemetry.KeyValuesNext | src/trace_explorer/parsers/opentelemetry.py:19-27 | one loop turn: a mapped key also sets `event` to `error` |
| OpenTelemetry.KeyValuesKeys | src/trace_explorer/parsers/opentelemetry.py:19-27 | the dictionary has exactly the renamed keys, plus `event` when some key was mapped |
| OpenTelemetry.KeyValuesRenamesAll | src/trace_explorer/parsers/opentelemetry.py:19-27 | no mapped key survives into the dictionary |
| OpenTelemetry.RenamedTagSetsEvent | src/trace_explorer/parsers/opentelemetry.py:23-25 | a mapped tag makes `event` equal `error` unless a later tag sets `event` |
| OpenTelemetry.KeyValuesLastWins | src/trace_explorer/parsers/opentelemetry.py:19-27 | a renamed key takes the value of its last tag |
| OpenTelemetry.GetListOfLogs | src/trace_explorer/parsers/opentelemetry.py:29-37 | the loop yields `Jaeger.LogsOf` with the renaming conversion: one log per raw log, with its timestamp and the renamed field dictionary |
| OpenTelemetry.ExtractedSpanMeets | src/trace_explorer/parsers/opentelemetry.py:45-57 | the record's tags hold each tag's last value under its renamed key, the service holds the process name, and no mapped key remains |
| OpenTelemetry.ExtractSpanData | src/trace_explorer/parsers/opentelemetry.py:45-57 | the method produces the extracted record |
| Parsers.ExtractSpanData | src/parsers/opentracing.py:53 | the record `parse_spans` extracts is the chosen parser's own extraction |
| Parsers.ParseSpans | src/trace_explorer/parsers/opentelemetry.py:59-67 | for either parser, the loop groups the records extracted by that parser by trace and span id, a later duplicate replacing an earlier one, and fails at the first record without a span id or with an undecodable error tag |
| OpenTracing.TagPairs | src/parsers/opentracing.py:12-14 | one key-value pair per tag, in order |
| OpenTracing.KeyValuesLastWins | src/parsers/opentracing.py:12-14 | the dictionary has exactly the tag keys, each with its last value |
| Jaeger.LogsOf | src/parsers/opentracing.py:16-24 | one log per raw log, in order, with its timestamp and its field list converted by the parser's own tag conversion |
| OpenTracing.GetListOfLogs | src/parsers/opentracing.py:16-24 | the loop yields `Jaeger.LogsOf` with the plain conversion: one log per raw log, with its timestamp and field dictionary |
| OpenTracing.ExtractedSpanMeets | src/parsers/opentracing.py:32-44 | extraction fails exactly when the error tag does not decode; the service holds the process tags and name, the error tag is normalised, and there is one log per raw log |
| OpenTracing.ExtractSpanData | src/parsers/opentracing.py:32-44 | the method produces the extracted record |
| Cli.RunLength | src/trace_explorer/cli/__init__.py:40 | the leading run of digits, and where it stops |
| Cli.FindAll | src/trace_explorer/cli/__init__.py:40 | every match found carries a unit h, m or s |
| Cli.FindAllFinds | src/trace_explorer/cli/__init__.py:40-43 | matches are found exactly when a digit is immediately followed by a unit |
| Cli.FindAllRendered | src/trace_explorer/cli/__init__.py:40 | a number followed by a unit is found as that match, and scanning continues after it |
| Cli.FindAllOfOne | src/trace_explorer/cli/__init__.py:40 | `<a><u>` has exactly one match |
| Cli.FindAllOfTwo | src/trace_explorer/cli/__init__.py:40 | `<a><u><b><v>` has exactly two matches |
| Cli.StrayDigitsIgnored | src/trace_explorer/cli/__init__.py:40 | digits followed by a character that is not a unit are skipped |
| Cli.InMicroseconds | src/trace_explorer/cli/__init__.py:53 | `timedelta` refuses a total of 10^9 days or more (OverflowError); otherwise the total in microseconds |
| Cli.TimedeltaFails | src/trace_explorer/cli/__init__.py:41-53 | the value is refused as unparsable exactly when it holds no amount with a unit, and as an overflow exactly when its amounts reach 10^9 days; nothing else fails |
| Cli.GetTimedelta | src/trace_explorer/cli/__init__.py:38-53 | the loop computes the time delta in microseconds, or refuses the value, or raises the overflow of `timedelta` |
| Cli.HoursBound | src/trace_explorer/cli/__init__.py:53 | `<h>h` is refused from 24000000000 hours on (10^9 days), and is h * 3.6 * 10^9 microseconds below that |
| Cli.TimedeltaOfMatches | src/trace_explorer/cli/__init__.py:44-53 | hours, minutes and seconds add up to a duration in microseconds, refused from 10^9 days on |
| Cli.TimedeltaOfRendering | src/trace_explorer/cli/__init__.py:38-53 | `<h>h<m>m<s>s` reads back as its duration, refused from 10^9 days on |
| Cli.RepeatedUnitLastWins | src/trace_explorer/cli/__init__.py:44-52 | a repeated unit keeps only its last amount |
| Cli.UnitOrderIrrelevant | src/trace_explorer/cli/__init__.py:44-53 | the order of two different units does not matter |
| Cli.HoursAndMinutes | src/trace_explorer/cli/__init__.py:38-53 | hours and minutes add, refused from 10^9 days on, and `1h30m` is 5400000000 microseconds |
| Cli.UnitRequired | src/trace_explorer/cli/__init__.py:41-43 | a bare number is refused |
| Elasticsearch.Lookup | src/trace_explorer/queries/elasticsearch_helper.py:21-31 | the member of an object with the key, or none is present |
| Elasticsearch.RequestBodySelects | src/queries/elasticsearch_helper.py:23-35 | the `query` wrapper of the older helper selects what its query selects |
| Elasticsearch.RangeSelects | src/trace_explorer/queries/elasticsearch_helper.py:21-31 | the range query selects the spans starting within the bounds, both inclusive |
| Elasticsearch.SpanQuerySelects | src/trace_explorer/queries/elasticsearch_helper.py:21-31 | the span query selects the spans of the time range, in both helper versions |
| Elasticsearch.MustTwoSelects | src/trace_explorer/queries/elasticsearch_helper.py:33-71 | a `must` of two clauses selects what both select |
| Elasticsearch.ErrorTagMatchSelects | src/trace_explorer/queries/elasticsearch_helper.py:33-71 | the nested tag match selects exactly the tag `error` with value true |
| Elasticsearch.ErrorTagClauseSelects | src/trace_explorer/queries/elasticsearch_helper.py:33-71 | the nested clause selects the spans having that tag |
| Elasticsearch.ErrorQuerySelects | src/trace_explorer/queries/elasticsearch_helper.py:33-71 | the error query selects the errored spans of the time range, in both helper versions |
| Elasticsearch.SingleSpanQuerySelects | src/trace_explorer/queries/elasticsearch_helper.py:73-86 | the single-span query selects exactly the span with the id |
| Elasticsearch.PageSources | src/trace_explorer/queries/elasticsearch_helper.py:99-103 | a page's sources are taken in order, and only when every hit has an accepted `_type` |
| Elasticsearch.Sources | src/trace_explorer/queries/elasticsearch_helper.py:103 | the sources of the hits, in order |
| Elasticsearch.PageSourcesAll | src/trace_explorer/queries/elasticsearch_helper.py:99-103 | an accepted page yields its sources |
| Elasticsearch.FlattenedConcatenates | src/trace_explorer/queries/elasticsearch_helper.py:88-106 | when every page has hits and an accepted type, the result is all sources, page after page |
| Elasticsearch.FalsyTotalDiscards | src/trace_explorer/queries/elasticsearch_helper.py:96-97 | a page with a falsy total discards everything, including the spans already collected |
| Elasticsearch.UnexpectedTypeFails | src/trace_explorer/queries/elasticsearch_helper.py:101-102 | a hit of unexpected type reached before any falsy total makes the call raise |
| Elasticsearch.WalkFails | src/trace_explorer/queries/elasticsearch_helper.py:88-106 | a failure on a later page fails the call |
| Elasticsearch.WiderAcceptanceAgrees | src/queries/elasticsearch_helper.py:79-97 | accepting more types changes nothing for data the narrower helper accepts |
| Elasticsearch.PageSourcesWider | src/queries/elasticsearch_helper.py:92-93 | the same for one page |
| Elasticsearch.DocTypeOnlyNewer | src/queries/elasticsearch_helper.py:92-93 | a `_doc` hit is accepted by the newer helper and refused by the older one |
| Elasticsearch.HitTaken | src/trace_explorer/queries/elasticsearch_helper.py:101-103 | one turn of the inner loop |
| Elasticsearch.PageTaken | src/trace_explorer/queries/elasticsearch_helper.py:95-103 | one turn of the outer loop |
| Elasticsearch.RemoveMetadata | src/trace_explorer/queries/elasticsearch_helper.py:88-106 | the loops compute the flattened sources |
| HtmlReport.RenderAll | src/tracing_rca/reports/html.py:37-52 | each fragment renders to one line of the list |
| HtmlReport.Fragments | src/tracing_rca/reports/html.py:40 | a span gets a nested list exactly when it has children |
| HtmlReport.WalkStep | src/tracing_rca/reports/html.py:43-50 | one turn of the loop: label, subtree, item close |
| HtmlReport.WalkEnd | src/tracing_rca/reports/html.py:51-52 | the list close ends the result |
| HtmlReport.WalkTree | src/tracing_rca/reports/html.py:37-52 | `walk_tree` in place yields the rendered fragments of the subtree |
| HtmlReport.HtmlGraph | src/tracing_rca/reports/html.py:54-60 | `html_graph` yields the tree wrapper around the root's item and walk |
| HtmlReport.FragmentsBalanced | src/reports/html.py:6-21 | every opened list and item is closed in proper nesting |
| HtmlReport.ItemsBalanced | src/reports/html.py:12-19 | the items of the loop are balanced |
| HtmlReport.BalancedWrap | src/reports/html.py:10-20 | wrapping a balanced sequence in a list or item keeps it balanced |
| HtmlReport.BalancedConcat | src/reports/html.py:18 | balanced sequences concatenate to a balanced one |
| HtmlReport.OpenUnder | src/reports/html.py:6-21 | nesting state is independent of what encloses it |
| HtmlReport.FragmentsSound | src/reports/html.py:6-21 | every item belongs to a descendant, reached through a child |
| HtmlReport.FragmentsComplete | src/reports/html.py:6-21 | every descendant gets an item |
| HtmlReport.ItemsAreDescendants | src/reports/html.py:6-21 | a span has an item exactly when it is a descendant |
| HtmlReport.PathUnique | src/reports/html.py:6-21 | in a tree, a span has one path from the root |
| HtmlReport.FragmentsDistinct | src/reports/html.py:6-21 | no span gets two items |
| HtmlReport.OneItemPerDescendant | src/reports/html.py:6-21 | the items are exactly the descendants, once each |
| HtmlReport.ChildrenInStartOrder | src/reports/html.py:11 | the top-level items are the children in stable start-time order |
| HtmlReport.ItemsTopLevel | src/reports/html.py:12-19 | the loop's top-level items are the remaining children |
| HtmlReport.FragmentsAgree | src/reports/html.py:6-21 | the layout depends only on children and start times |
| HtmlReport.RenderAgree | src/reports/html.py:13-17 | rendering reads only the spans that have items |
| HtmlReport.RootHasNoItem | src/reports/html.py:23-29 | the root is never an item of its own walk |
| HtmlReport.RootErrorNotRendered | src/reports/html.py:26 | the root's error and cause never reach the graph, since only its operation name is shown |
| HtmlReport.ListedSpans | src/tracing_rca/reports/html.py:19-20 | the report lists exactly the errored spans by rating, highest first, keeping trace order among equal ratings |
| HtmlReport.Causes | src/tracing_rca/reports/html.py:22 | each strand becomes the causes of its spans, in order |
| HtmlReport.FirstDictFailure | src/tracing_rca/reports/html.py:20 | the first listed span whose `__dict__()` does not return, or none exactly when every one returns |
| HtmlReport.DictReturnsSmallerStack | src/trace_explorer/analysis/models.py:41-54 | a `__dict__()` call that returns on a recursion stack also returns on a smaller stack ending in the same span |
| HtmlReport.PathDictReturns | src/trace_explorer/analysis/models.py:41-54 | in a tree, `__dict__()` returns for every span on a path from a parentless span |
| HtmlReport.TreeSpanDictReturns | src/trace_explorer/analysis/models.py:41-54 | every span in the tree of a parentless span can be serialised with its subtree |
| HtmlReport.ReportOf | src/tracing_rca/reports/html.py:19-24 | the report fails with a `RecursionError` from `__dict__()` exactly when a listed span has a cyclic `children` closure; otherwise it is the listed spans, the graph and the strand causes, or the strand error |
| HtmlReport.ListedMembers | src/tracing_rca/reports/html.py:19-20 | a span is listed exactly when it is a span of the trace and errored |
| HtmlReport.ListedDictFailsErrored | src/tracing_rca/reports/html.py:19-20 | some listed span fails to serialise exactly when some errored span of the trace does |
| HtmlReport.DictRecursionCases | src/tracing_rca/reports/html.py:20 | the serialisation fails exactly when some errored span of the trace has a cyclic `children` closure |
| HtmlReport.TreeDictReturns | src/tracing_rca/reports/html.py:20 | it never fails when every errored span lies in the tree of a parentless span |
| HtmlReport.CyclicErroredSpanFails | src/tracing_rca/reports/html.py:20 | a drawable trace whose errored span is one of two spans that are each other's child gets no report |
| HtmlReport.OutcomeOf | src/tracing_rca/reports/html.py:16-22 | an error-free trace is skipped; every other trace yields its report, or the serialisation or strand error |
| HtmlReport.Outcomes | src/tracing_rca/reports/html.py:16-22 | one outcome per trace, in order |
| HtmlReport.RunWritesReports | src/tracing_rca/reports/html.py:14-26 | every report written comes from a trace's outcome |
| HtmlReport.RunCount | src/tracing_rca/reports/html.py:14-26 | at most one report per trace attempted, and exactly one each when nothing aborts |
| HtmlReport.AttemptedErrored | src/tracing_rca/reports/html.py:17-18 | the traces attempted are exactly the errored ones |
| HtmlReport.WrittenReportOrigin | src/tracing_rca/reports/html.py:14-26 | each written report is that of an errored trace |
| HtmlReport.ReportsOfErroredTraces | src/tracing_rca/reports/html.py:14-26 | reports are written only for errored traces, one per errored trace when nothing aborts |
| HtmlReport.ReportContents | src/tracing_rca/reports/html.py:19-24 | a report holds the trace's file name, graph, listed spans and one cause list per strand |
| HtmlReport.Views | src/tracing_rca/reports/html.py:16 | one view per trace, with its fields |
| HtmlReport.RunSkip | src/tracing_rca/reports/html.py:17-18 | an error-free trace is skipped |
| HtmlReport.RunStop | src/tracing_rca/reports/html.py:20-22 | a serialisation or strand error ends the loop |
| HtmlReport.RunWrite | src/tracing_rca/reports/html.py:23-26 | a report is written and the loop goes on |
| HtmlReport.RunStep | src/tracing_rca/reports/html.py:17-26 | one pass of the loop skips, stops with the error, or writes the report and goes on |
| HtmlReport.RunEnd | src/tracing_rca/reports/html.py:16 | the loop ends when the traces do |
| HtmlReport.ViewsDrawable | src/tracing_rca/reports/html.py:21 | built traces can be drawn |
| HtmlReport.TraceOutcome | src/tracing_rca/reports/html.py:17-22 | the method computes one trace's outcome, `OutcomeOf`: the skip, the `RecursionError` of serialising a span in a `children` cycle, the strand error, or the report |
| HtmlReport.CreateTraceHtml | src/tracing_rca/reports/html.py:14-26 | the loop writes the reports of the outcome run, stopping at the first serialisation or strand error |
| Rca.RatedTrans | src/trace_explorer/analysis/rca.py:47-82 | rating steps compose |
| Rca.RatedRefl | src/trace_explorer/analysis/rca.py:47-82 | doing nothing is a rating step |
| Rca.RatedDescending | src/trace_explorer/analysis/rca.py:80 | rating keeps the tree and the walk's path |
| Rca.AddRating | src/trace_explorer/analysis/rca.py:49 | the rating of one span grows by the amount, and nothing else changes |
| Rca.AddRatingRated | src/trace_explorer/analysis/rca.py:49 | adding a non-negative amount is a rating step |
| Rca.SetRatingRated | src/trace_explorer/analysis/rca.py:12-24 | setting a non-negative rating is a step of the splicing rater |
| Rca.Stamp | src/trace_explorer/analysis/rca.py:12-24 | a span's cause timestamp, or an error for a span without an error log |
| Rca.Averaged | src/trace_explorer/analysis/rca.py:20-22 | both ratings become their mean, their sum is kept, and nothing else changes |
| Rca.Compared | src/trace_explorer/analysis/rca.py:12-24 | the comparison fails exactly when a timestamp is missing; close timestamps average the ratings, others change nothing |
| Rca.Link | src/trace_explorer/analysis/rca.py:27-34 | linking changes only cause links |
| Rca.SpliceRated | src/trace_explorer/analysis/rca.py:27-34 | the splice is a rating step that changes links only |
| Rca.SpliceFacts | src/trace_explorer/analysis/rca.py:27-34 | the cause now causes the effect, and a previous cause of the effect now causes the cause |
| Rca.LinkOnceRated | src/tracing_rca/analysis/rca.py:11-16 | the write-once link is a step of the write-once rater |
| Rca.LinkOnceFacts | src/tracing_rca/analysis/rca.py:11-16 | only empty link slots are filled, nothing else changes, and linking twice is linking once |
| Rca.SiblingRule | src/trace_explorer/analysis/rca.py:36-45 | a sibling rating changes nothing unless both siblings errored and the later started after the earlier ended |
| Rca.HierarchyLevel | src/trace_explorer/analysis/rca.py:36-45 | rating a hierarchy level is a rating step |
| Rca.Promote | src/trace_explorer/analysis/rca.py:53-71 | the cause's rating rises by the amount, no other rating changes, and only ratings and cause links change |
| Rca.ChildOfRule | src/trace_explorer/analysis/rca.py:54-59 | fails exactly on a missing timestamp; the earlier error of parent and child is promoted |
| Rca.FollowsFromRule | src/trace_explorer/analysis/rca.py:60-69 | fails exactly on a missing timestamp; the earlier error of span and follower is promoted |
| Rca.BothErroredRule | src/trace_explorer/analysis/rca.py:53-71 | the both-errored rules are a rating step |
| Rca.BothErroredFrom | src/tracing_rca/analysis/rca.py:35-50 | the same for the write-once rater |
| Rca.Tally | src/trace_explorer/analysis/rca.py:76-78 | the parent tally rises by one exactly when the parent errored and the child did not |
| Rca.ChildRule | src/trace_explorer/analysis/rca.py:73-78 | an errored child of an error-free parent gains one; an error-free child changes nothing |
| Rca.RootCause | src/trace_explorer/analysis/rca.py:47-82 | the walk is a rating step, and a leaf is left unchanged |
| Rca.ParentTally | src/trace_explorer/analysis/rca.py:76-78 | the tally lies between 0 and the number of children seen |
| Rca.ParentTallyKept | src/trace_explorer/analysis/rca.py:76-80 | rating steps do not change the tally |
| Rca.Normalised | src/trace_explorer/analysis/rca.py:82 | the parent gains its tally divided by its number of children |
| Rca.RateChildren | src/trace_explorer/analysis/rca.py:50-80 | the loop over children is a rating step |
| Rca.Descend | src/trace_explorer/analysis/rca.py:80 | one child's subtree walk is a rating step |
| Rca.NormalisedUnerrored | src/trace_explorer/analysis/rca.py:82 | an error-free parent stays unrated |
| Rca.ParentTallyUnerrored | src/trace_explorer/analysis/rca.py:76-78 | an error-free parent tallies nothing |
| Rca.HierarchyLevelErrorFree | src/trace_explorer/analysis/rca.py:36-45 | an error-free trace is not changed by a level |
| Rca.RootCauseErrorFree | src/trace_explorer/analysis/rca.py:47-82 | an error-free trace is not changed by the analysis |
| Rca.RateChildrenErrorFree | src/trace_explorer/analysis/rca.py:50-80 | the same for the children loop |
| Rca.DescendErrorFree | src/trace_explorer/analysis/rca.py:80 | the same for one child |
| Rca.CompareLogTimestamps | src/trace_explorer/analysis/rca.py:12-24 | performs the comparison in place |
| Rca.SpliceCauseRelation | src/trace_explorer/analysis/rca.py:27-34 | performs the splice in place |
| Rca.LinkCauseRelationOnce | src/tracing_rca/analysis/rca.py:11-16 | performs the write-once link in place |
| Rca.ResolveCauseRelation | src/trace_explorer/analysis/rca.py:27-34 | performs the engine's link in place |
| Rca.RateSibling | src/trace_explorer/analysis/rca.py:39-45 | performs one sibling rating in place |
| Rca.RatingHierarchyLevel | src/trace_explorer/analysis/rca.py:36-45 | performs a level's rating loop in place |
| Rca.RaiseCause | src/trace_explorer/analysis/rca.py:53-71 | performs a promotion in place |
| Rca.RateChildOf | src/trace_explorer/analysis/rca.py:54-59 | performs the child-of rule in place |
| Rca.RateFollowsFrom | src/trace_explorer/analysis/rca.py:60-69 | performs the follows-from rule in place |
| Rca.RateBothErrored | src/trace_explorer/analysis/rca.py:53-71 | performs the both-errored rules in place |
| Rca.GetRootCause | src/trace_explorer/analysis/rca.py:47-82 | performs `get_root_cause` in place |
| Rca.RateEachChild | src/trace_explorer/analysis/rca.py:50-80 | performs the children loop in place |
| Rca.VisitChild | src/trace_explorer/analysis/rca.py:51-80 | performs one child's rules and subtree walk, and reports its tally |
| Rca.AnalyseTrace | src/trace_explorer/analysis/utils.py:50 | rates a built trace from its root |
| Rules.CheckCondition | src/rules/models.py:29-43 | the loop decides whether the condition holds |
| Rules.ConditionsMatch | src/rules/models.py:13-17 | the loop decides whether every condition holds |
| Rules.HoldsReadsTagsAndLogs | src/rules/models.py:29-43 | conditions read only tags and logs |
| Rules.LogConditionHolds | src/rules/models.py:36-41 | a log condition holds exactly when some log's field matches, so never on a span without logs |
| Rules.IndexOf | src/rules/models.py:61 | the first occurrence of a character from a position, or none |
| Rules.SplitField | src/rules/models.py:61 | a field splits exactly when it holds one colon, into the parts around it |
| Rules.FieldValues | src/rules/models.py:60-65 | at most one value per field |
| Rules.PrepareCauseOf | src/rules/models.py:55-66 | the method computes the formatted cause |
| Rules.FieldValuesFails | src/rules/models.py:60-65 | the first failing field makes the loop raise |
| Rules.FieldValuesNext | src/rules/models.py:60-65 | one loop turn: a field's value is collected |
| Rules.ScanLiteral | src/rules/models.py:57-59 | text without braces holds no placeholder |
| Rules.ScanPlaceholder | src/rules/models.py:57-59 | a braced field is one placeholder |
| Rules.CauseWithoutPlaceholders | src/rules/models.py:55-66 | a template without braces is the cause itself |
| Rules.FormatField | src/rules/models.py:66 | a placeholder is replaced by its value |
| Rules.FormatFieldFails | src/rules/models.py:66 | a failing placeholder fails formatting |
| Rules.CauseTagPlaceholder | src/rules/models.py:62-63 | `{tags:f}` is replaced by the tag's text |
| Rules.CauseLogPlaceholder | src/rules/models.py:64-65 | `{logs:f}` always raises, because the logs are a list |
| Rules.KindResult | src/rules/models.py:62-65 | tags are read; logs raise |
| Rules.KindSplit | src/rules/models.py:61 | `kind:field` splits into kind and field |
| Rules.Apply | src/rules/models.py:68-120 | performing writes keeps the arena size |
| Rules.ApplyAt | src/rules/models.py:68-120 | a span ends with the last cause written to it |
| Rules.LastCauseWritten | src/rules/models.py:68-120 | a span is written exactly when some write targets it |
| Rules.ApplyOnlyMarks | src/rules/models.py:68-120 | writes keep the tree, never clear an error, and change only targeted spans, which become errored |
| Rules.ApplyTwice | src/rules/models.py:68-120 | performing the writes twice is performing them once |
| Rules.ApplyAppend | src/rules/models.py:68-120 | writes perform in order |
| Rules.MarkWith | src/rules/models.py:82-83 | marking writes the prepared cause to the one span, or raises its error |
| Rules.ChildrenFromTargets | src/rules/models.py:85-97 | every child mark is justified by the conditions holding on that off-stack descendant |
| Rules.ChildrenFromMarksMatches | src/rules/models.py:85-97 | every matching child is marked |
| Rules.ActionTargets | src/rules/models.py:68-120 | each action marks only spans its type names: descendants, the parent, itself or a leaf (with the corrected self check) |
| Rules.RuleNeedsAllConditions | src/rules/models.py:13-19 | a rule acts exactly when all its conditions hold |
| Rules.ActionWritesShape | src/rules/models.py:68-77 | an action's writes depend only on the tree, tags and logs |
| Rules.RuleWritesShape | src/rules/models.py:13-19 | the same for a rule |
| Rules.PerformOnlyMarks | src/rules/models.py:13-19 | a rule keeps the tree, never clears an error, and every span it changes becomes errored |
| Rules.PerformIdempotent | src/rules/models.py:13-19 | performing a rule twice is performing it once |
| Rules.MarkAt | src/rules/models.py:82-83 | performs one mark in place |
| Rules.MarkIfMatchedAt | src/rules/models.py:87-96 | performs one matched mark in place |
| Rules.CheckNoChildren | src/rules/models.py:79-83 | marks a leaf in place |
| Rules.CheckParent | src/rules/models.py:99-109 | marks a matching parent in place |
| Rules.CheckSelf | src/rules/models.py:111-120 | marks the span itself when it matches (the corrected check) |
| Rules.CheckChildren | src/rules/models.py:85-97 | marks the matching descendants in place |
| Rules.VisitChild | src/rules/models.py:93-97 | one child: mark it if it matches, then recurse |
| Rules.Execute | src/rules/models.py:68-77 | performs an action in place (with the corrected self check) |
| Rules.Perform | src/rules/models.py:13-19 | performs a rule in place |
| Rules.PerformAll | src/trace_explorer/analysis/utils.py:45-46 | performs every rule on one span |
| Rules.ApplyRules | src/trace_explorer/analysis/utils.py:44-46 | performs every rule on every span (with the corrected self check) |
| Rules.RulesFromShape | src/trace_explorer/analysis/utils.py:44-46 | the writes of the rules depend only on tree, tags and logs |
| Rules.RulesFromAgree | src/trace_explorer/analysis/utils.py:44-46 | agreeing per span means agreeing overall |
| Rules.RulesIdempotent | src/trace_explorer/analysis/utils.py:44-46 | running the rules twice is running them once (with the corrected self check) |
| Rules.SelfAsWrittenReadsParent | src/rules/models.py:111-120 | as written, the self check tests the conditions on the parent and raises without one |
| Rules.MatchedOnParentHolds | src/rules/models.py:113-117 | the loop on the parent decides the conditions of the parent |
| Rules.SelfCheckReadsParent | src/rules/models.py:115 | a concrete tree where the as-written check marks nothing and the intended one marks the span |

## Left out

- Storage and the network are not modelled. This covers `get_spans_in_range` of both Elasticsearch helpers, `get_span_from_storage` and the Jaeger query helper. The spans a fetch can return are the parameter `storage`, a finite map from span id to record.
- The JSON-schema validation of both parsers is not modelled, because that schema is not part of this model. Every record is taken as valid.
- Regular expressions are not modelled in general. The rule conditions get their matcher as a parameter (`Rules.Matcher`). The fixed patterns of `get_timedelta`, of `prepare_cause` and of the Szenario checks are written out as scanners. Digits are ASCII only.
- Ratings are `real` rather than floating point. The `total_seconds() * 1e6` of the CLI is exact integer arithmetic.
- `json.loads` is limited to `true`, `false`, `null` and integers.
- Values.Value: tag and log-field values are limited to None, bool, int and str. Jaeger's float64 values, which the source passes through unchanged, cannot be represented. So neither their `str()` rendering in rule conditions nor a float status such as `500.0`, which Python compares equal to `500`, is modelled.
- Logging and configuration are not modelled. `MAX_CLOCK_DEVIATION` is the parameter of `Rca.Engine.Splicing`.
- The tag and HTTP definitions modules are not part of this model. The key `error`, the key `http.status_code` and the integer status 500 are assumed.
- The orchestration in `analysis/utils.py`, the rules parser, the web front end and the CLI entry points are not modelled. The model keeps the rating and rule calls that the orchestration makes: `Rca.AnalyseTrace` and `Rules.ApplyRules`.
- Python's recursion limit on deep acyclic trees is not modelled. Cycles, where the source would recurse without end, are modelled as errors. This covers `caused` chains, rules that re-enter a span, and the `__dict__()` of a listed span whose `children` closure is cyclic (`HtmlReport.ReportError.DictRecursion`).
- The `{{` and `}}` escapes of `str.format` are not modelled. A template with a stray brace is an error (`BadFormat`).
- An Elasticsearch `match` is modelled as exact equality.
- The jinja templates and the file writes of `create_trace_html` are not modelled. What a report holds is `HtmlReport.Report`. `create_szenario_html` is left out entirely, because it only writes files.
- The dictionary the `__dict__` serialisation of a span builds is left out. Only whether it returns is modelled (`HtmlReport.SpanDictReturns`). The trace and Szenario dictionaries are modelled by `Szenarios.Szenario.Summary`.
- HtmlReport.CreateTraceHtml: requires traces whose tree can be walked. Built traces always can be, by `Traces.BuildTraceFacts` and `HtmlReport.ViewsDrawable`.
- `parse_spans` pops `spanID` off its input, and the OpenTelemetry tag loop renames the input tags in place. The model does not mutate its inputs, but returns the renamed tags beside the dictionary.
- The `TypeError` branch of `set_parent` cannot happen in the arena, because every parent is an index.
- `order_children` sorts the children but discards the sorted list: `span.children` keeps the reference-resolution order. The model does the same. `Traces.Ordered` changes only `previous` links.
- `get_caused_strand` returns only the tail of a `caused` chain. The model does the same: a strand is the candidate and its tail (`Traces.StrandOf`).
- Rca.RootCause: its contract is the frame property `Rated` (only ratings and cause links change, and ratings stay non-negative). The individual ratings follow from the definitions, and the lemmas give them for each rule (`Rca.ChildOfRule`, `Rca.FollowsFromRule`, `Rca.ChildRule`, `Rca.Normalised`).
- Spans.NewSpan: its own contract states only the frame of a fresh span. The full characterisation is `Spans.NewSpanCharacterised`.

## Findings

| source | as written | input that shows it | evidently intended | confidence | as-written member | corrected member |
|---|---|---|---|---|---|---|
| src/trace_explorer/analysis/clock_skew.py:35 | `adjust_timestamps(child)` is called without the computed shift, so every adjustment raises TypeError | a child starting at or before its parent | shift the child by `get_time_shift(...)` so that it starts one microsecond after the parent | not executed | ClockSkew.AdjustClockSkewAsWrittenRaises | ClockSkew.ClockSkewAdjustedOrders |
| src/trace_explorer/analysis/models.py:30 | `has_error()` runs at line 30 and reads `self.cause`, which is first assigned at line 36, so the constructor raises AttributeError | a span whose tags are `{"http.status_code": 500}` with no error tag | look up the cause first, and fall back to the HTTP 500 message when there is none | not executed | Spans.Http500SpanFailsAsWritten | Spans.NewSpanCharacterised |
| src/rules/models.py:115 | `check_self` evaluates the conditions on `span.parent`, not on the span | a child tagged `x=down` under a parent tagged `x=up`, with the condition `x` matches `down` | test the conditions on the span itself | not executed | Rules.SelfCheckReadsParent | Rules.CheckSelf |
