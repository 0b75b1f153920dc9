/**
 * The span record of the analysis (`Span` in trace_explorer/analysis/models.py) and its
 * construction from a canonical span record. Spans live in an arena (see module Arena):
 * every link the source keeps between span objects is an index into that arena.
 */
module Spans {
  import opened Wrappers
  import opened Values

  // Tag keys and values. The definitions modules for tags and HTTP status codes are not part
  // of this model; these are the keys the parsers and the OpenTracing conventions use.
  const ERROR_KEY := "error"
  const HTTP_STATUS_CODE_KEY := "http.status_code"
  const STATUS_500 := VInt(500)

  // Log field names (trace_explorer/definitions/logs.py).
  const FIELD_EVENT := "event"
  const FIELD_EVENT_ERROR := "error"
  const FIELD_ERROR_OBJECT := "error.object"
  const FIELD_MESSAGE := "message"
  const FIELD_STACK := "stack"

  // Reference types (trace_explorer/definitions/span.py).
  const REF_TYPE_CHILD_OF := "CHILD_OF"
  const REF_TYPE_FOLLOWS_FROM := "FOLLOWS_FROM"

  const HTTP_500_CAUSE := "HTTP 500, but no error messages found!"

  /** One log entry: a timestamp in microseconds and its fields. */
  datatype Log = Log(timestamp: int, fields: map<string, Value>)

  /** A reference of a span to another span of the same trace. */
  datatype Reference = Reference(spanId: string, refType: string)

  /** The canonical span record a parser produces. */
  datatype SpanData = SpanData(
    operationName: string,
    startTime: int,
    duration: int,
    service: map<string, Value>,
    tags: map<string, Value>,
    logs: seq<Log>,
    references: seq<Reference>)

  /** `span.type`: root until a reference attaches the span as a child or a follower. */
  datatype SpanKind = Root | Child | Follower

  /** A span of a trace, with the mutable analysis state the source keeps on it. */
  datatype Span = Span(
    spanId: string,
    traceId: string,
    operationName: string,
    startTime: int,
    duration: int,
    endTime: int,
    service: map<string, Value>,
    tags: map<string, Value>,
    logs: seq<Log>,
    references: seq<Reference>,
    error: bool,
    cause: Value,
    causeTimestamp: Option<int>,
    stack: Value,
    rating: real,
    kind: SpanKind,
    children: seq<nat>,
    parent: Option<nat>,
    previous: Option<nat>,
    caused: Option<nat>,
    causedBy: Option<nat>)

  /** Why a span cannot be built from its record. */
  datatype SpanError =
    | MissingEventField(logIndex: nat)  // KeyError: a log without an `event` field
    | CauseReadBeforeAssignment         // AttributeError: `self.cause` read inside has_error

  /** Every log carries an `event` field, which the error-log filter indexes directly. */
  predicate EventsPresent(logs: seq<Log>)
  {
    forall k :: 0 <= k < |logs| ==> FIELD_EVENT in logs[k].fields
  }

  predicate IsErrorLog(l: Log)
  {
    FIELD_EVENT in l.fields && l.fields[FIELD_EVENT] == VStr(FIELD_EVENT_ERROR)
  }

  /** The first log (by position) lacking an `event` field, if any. */
  function FirstMissingEvent(logs: seq<Log>): (r: Option<nat>)
    ensures r.None? <==> EventsPresent(logs)
    ensures r.Some? ==> r.value < |logs| && FIELD_EVENT !in logs[r.value].fields
                        && forall k :: 0 <= k < r.value ==> FIELD_EVENT in logs[k].fields
    decreases |logs|
  {
    if |logs| == 0 then None
    else match FirstMissingEvent(logs[..|logs| - 1])
      case Some(k) => Some(k)
      case None => if FIELD_EVENT in logs[|logs| - 1].fields then None else Some(|logs| - 1)
  }

  /**
   * The log that `sorted(filter(is error, logs), key=timestamp)[0]` picks: among the error
   * logs of `logs[..n]`, the one with the smallest timestamp, the first one on ties
   * (the sort is stable).
   */
  function EarliestErrorLog(logs: seq<Log>, n: nat): (r: Option<nat>)
    requires n <= |logs|
    ensures r.None? <==> forall k :: 0 <= k < n ==> !IsErrorLog(logs[k])
    ensures r.Some? ==> r.value < n && IsErrorLog(logs[r.value])
    ensures r.Some? ==> forall k :: 0 <= k < n && IsErrorLog(logs[k]) ==>
                          logs[r.value].timestamp <= logs[k].timestamp
    ensures r.Some? ==> forall k :: 0 <= k < r.value && IsErrorLog(logs[k]) ==>
                          logs[r.value].timestamp < logs[k].timestamp
    decreases n
  {
    if n == 0 then None
    else
      var best := EarliestErrorLog(logs, n - 1);
      if !IsErrorLog(logs[n - 1]) then best
      else if best.None? || logs[n - 1].timestamp < logs[best.value].timestamp then Some(n - 1)
      else best
  }

  /** `error.object` of the log fields if truthy, else their `message`. */
  function CauseOf(fields: map<string, Value>): Value
  {
    if Truthy(Get(fields, FIELD_ERROR_OBJECT)) then Get(fields, FIELD_ERROR_OBJECT)
    else Get(fields, FIELD_MESSAGE)
  }

  predicate ErrorTagged(tags: map<string, Value>)
  {
    Truthy(Get(tags, ERROR_KEY))
  }

  predicate Status500(tags: map<string, Value>)
  {
    Get(tags, HTTP_STATUS_CODE_KEY) == STATUS_500
  }

  /** The span the constructor builds, once its error flag and root cause are known. */
  function Assemble(traceId: string, spanId: string, d: SpanData, error: bool, cause: Value): Span
    requires EventsPresent(d.logs)
  {
    var first := EarliestErrorLog(d.logs, |d.logs|);
    Span(spanId, traceId, d.operationName, d.startTime, d.duration, d.startTime + d.duration,
         d.service, d.tags, d.logs, d.references, error, cause,
         if first.Some? then Some(d.logs[first.value].timestamp) else None,
         if first.Some? then Get(d.logs[first.value].fields, FIELD_STACK) else VNone,
         0.0, Root, [], None, None, None, None)
  }

  /** `get_possible_root_cause`: the cause named by the earliest error log, or `None`. */
  function PossibleRootCause(logs: seq<Log>): Value
    requires EventsPresent(logs)
  {
    var first := EarliestErrorLog(logs, |logs|);
    if first.Some? then CauseOf(logs[first.value].fields) else VNone
  }

  /**
   * `Span.__init__` exactly as written: `has_error` runs before `self.cause` exists, so a
   * span whose error tag is falsy and whose HTTP status is 500 fails with an AttributeError.
   */
  function NewSpanAsWritten(traceId: string, spanId: string, d: SpanData): (r: Result<Span, SpanError>)
    ensures !ErrorTagged(d.tags) && Status500(d.tags) ==> r == Err(CauseReadBeforeAssignment)
    ensures (ErrorTagged(d.tags) || !Status500(d.tags)) && EventsPresent(d.logs) ==>
              r == NewSpan(traceId, spanId, d)
  {
    if !ErrorTagged(d.tags) && Status500(d.tags) then Err(CauseReadBeforeAssignment)
    else NewSpan(traceId, spanId, d)
  }

  /** A status-500 span without an error tag cannot be built as the source is written. */
  lemma Http500SpanFailsAsWritten()
    ensures NewSpanAsWritten("t", "s", SpanData("op", 0, 1, map[], map[HTTP_STATUS_CODE_KEY := VInt(500)], [], []))
            == Err(CauseReadBeforeAssignment)
  {
  }

  /**
   * `Span.__init__` as evidently intended: the root cause is looked up first, and a
   * status-500 span that found none gets the HTTP 500 message. The rest of the model
   * builds spans with this function.
   */
  function NewSpan(traceId: string, spanId: string, d: SpanData): (r: Result<Span, SpanError>)
    ensures r.Err? <==> !EventsPresent(d.logs)
    ensures r.Err? ==> r.error == MissingEventField(FirstMissingEvent(d.logs).value)
    ensures r.Ok? ==> Fresh(spanId, d, r.value)
  {
    match FirstMissingEvent(d.logs)
    case Some(k) => Err(MissingEventField(k))
    case None =>
      var found := PossibleRootCause(d.logs);
      var error := ErrorTagged(d.tags) || Status500(d.tags);
      var cause := if !ErrorTagged(d.tags) && Status500(d.tags) && !Truthy(found)
                   then VStr(HTTP_500_CAUSE) else found;
      Ok(Assemble(traceId, spanId, d, error, cause))
  }

  /** A span just built from record `d`: its id and references, no links and no rating yet. */
  predicate Fresh(spanId: string, d: SpanData, x: Span)
  {
    && x.spanId == spanId && x.references == d.references
    && x.rating == 0.0 && x.kind == Root && x.children == []
    && x.parent.None? && x.previous.None? && x.caused.None? && x.causedBy.None?
  }

  /** Everything the constructor determines about a span. */
  lemma NewSpanCharacterised(traceId: string, spanId: string, d: SpanData)
    requires NewSpan(traceId, spanId, d).Ok?
    ensures NewSpanMeets(traceId, spanId, d, NewSpan(traceId, spanId, d).value)
  {
  }

  /** What a freshly constructed span looks like. */
  ghost predicate NewSpanMeets(traceId: string, spanId: string, d: SpanData, x: Span)
    requires EventsPresent(d.logs)
  {
    && x.spanId == spanId && x.traceId == traceId && x.operationName == d.operationName
    && x.startTime == d.startTime && x.duration == d.duration
    && x.endTime == x.startTime + x.duration
    && x.service == d.service && x.tags == d.tags && x.logs == d.logs && x.references == d.references
    && (x.error <==> ErrorTagged(d.tags) || Status500(d.tags))
    // cause_timestamp, cause and stack come from the earliest error log, the first one
    // by position among equally early ones (the sort is stable)
    && (x.causeTimestamp.None? <==> forall k :: 0 <= k < |d.logs| ==> !IsErrorLog(d.logs[k]))
    && (forall k :: 0 <= k < |d.logs| && IsErrorLog(d.logs[k]) ==>
          exists e :: 0 <= e < |d.logs| && IsErrorLog(d.logs[e])
            && (forall j :: 0 <= j < e && IsErrorLog(d.logs[j]) ==> d.logs[e].timestamp < d.logs[j].timestamp)
            && x.causeTimestamp == Some(d.logs[e].timestamp) && d.logs[e].timestamp <= d.logs[k].timestamp
            && x.stack == Get(d.logs[e].fields, FIELD_STACK)
            && x.cause == (if !ErrorTagged(d.tags) && Status500(d.tags) && !Truthy(CauseOf(d.logs[e].fields))
                           then VStr(HTTP_500_CAUSE) else CauseOf(d.logs[e].fields)))
    && (x.causeTimestamp.None? ==>
          (x.stack == VNone
           && x.cause == (if !ErrorTagged(d.tags) && Status500(d.tags) then VStr(HTTP_500_CAUSE) else VNone)))
    && x.rating == 0.0 && x.kind == Root && x.children == []
    && x.parent.None? && x.previous.None? && x.caused.None? && x.causedBy.None?
  }
}
