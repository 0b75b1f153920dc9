/**
 * `parse_spans`, which src/parsers/opentracing.py and
 * src/trace_explorer/parsers/opentelemetry.py write out identically, each around its own
 * `extract_span_data`.
 */
module Parsers {
  import opened Wrappers
  import opened Spans
  import opened Jaeger
  import OpenTracing
  import OpenTelemetry

  /** Which of the two parsers runs. */
  datatype Dialect = OpenTracingFormat | OpenTelemetryFormat

  /** The parser's `extract_span_data`. */
  function Extract(dialect: Dialect): RawSpan -> Result<SpanData, ParseError>
  {
    match dialect
    case OpenTracingFormat => OpenTracing.ExtractedSpan
    case OpenTelemetryFormat => OpenTelemetry.ExtractedSpan
  }

  /** The parser's `extract_span_data`, step by step. */
  method ExtractSpanData(dialect: Dialect, x: RawSpan) returns (d: Result<SpanData, ParseError>)
    ensures d == Extract(dialect)(x)
  {
    if dialect.OpenTracingFormat? {
      d := OpenTracing.ExtractSpanData(x);
    } else {
      d := OpenTelemetry.ExtractSpanData(x);
    }
  }

  /** `parse_spans`: records grouped by trace and span id; a later duplicate replaces an earlier one. */
  method ParseSpans(dialect: Dialect, xs: seq<RawSpan>) returns (r: Result<Grouped, ParseError>)
    ensures r == Parsed(Extract(dialect), xs)
  {
    ghost var extract := Extract(dialect);
    var result: Grouped := map[];
    var k := 0;
    while k < |xs|
      invariant 0 <= k <= |xs| && Parsed(extract, xs[..k]) == Ok(result)
      decreases |xs| - k
    {
      ParsedNext(extract, xs, k, result);
      var x := xs[k];
      if x.spanId.None? {
        ParsedFailsFrom(extract, xs, k + 1);
        return Err(MissingSpanId(k));
      }
      var d := ExtractSpanData(dialect, x);
      if d.Err? {
        ParsedFailsFrom(extract, xs, k + 1);
        return Err(d.error);
      }
      var group := if x.traceId in result then result[x.traceId] else map[];
      result := result[x.traceId := group[x.spanId.value := d.value]];
      k := k + 1;
    }
    assert xs[..k] == xs;
    r := Ok(result);
  }
}
