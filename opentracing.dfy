/**
 * The OpenTracing parser of src/parsers/opentracing.py: Jaeger JSON records to canonical
 * span records, tag lists converted to dictionaries as they are.
 */
module OpenTracing {
  import opened Wrappers
  import opened Values
  import opened Spans
  import opened Jaeger

  function TagPairs(tags: seq<Tag>): (kv: Pairs)
    ensures |kv| == |tags| && forall i :: 0 <= i < |tags| ==> kv[i] == (tags[i].key, tags[i].value)
  {
    seq(|tags|, i requires 0 <= i < |tags| => (tags[i].key, tags[i].value))
  }

  /** `get_key_value_from_tags`: `dict((tag.key, tag.value) for tag in tags)`. */
  function KeyValues(tags: seq<Tag>): map<string, Value>
  {
    DictOf(TagPairs(tags))
  }

  /** The keys are the tag keys; each has the value of the last tag with that key. */
  lemma KeyValuesLastWins(tags: seq<Tag>, i: nat, k: string)
    requires i < |tags| && forall j :: i < j < |tags| ==> tags[j].key != tags[i].key
    ensures tags[i].key in KeyValues(tags) && KeyValues(tags)[tags[i].key] == tags[i].value
    ensures k in KeyValues(tags) <==> exists j :: 0 <= j < |tags| && tags[j].key == k
  {
    var kv := TagPairs(tags);
    DictOfLastWins(kv, i);
    DictOfKeys(kv, k);
    if k in KeyValues(tags) {
      var j :| 0 <= j < |kv| && kv[j].0 == k;
      assert tags[j].key == k;
    }
  }

  /** `get_list_of_logs`. */
  method GetListOfLogs(logs: seq<RawLog>) returns (r: seq<Log>)
    ensures r == LogsOf(KeyValues, logs)
  {
    r := [];
    var k := 0;
    while k < |logs|
      invariant 0 <= k <= |logs| && r == LogsOf(KeyValues, logs[..k])
      decreases |logs| - k
    {
      r := r + [Log(logs[k].timestamp, KeyValues(logs[k].fields))];
      k := k + 1;
      assert logs[..k][..k - 1] == logs[..k - 1];
    }
    assert logs[..k] == logs;
  }

  /** `extract_span_data` without the schema validation. */
  function ExtractedSpan(x: RawSpan): Result<SpanData, ParseError>
  {
    AssembleRecord(x, KeyValues(x.process.tags), KeyValues(x.tags), LogsOf(KeyValues, x.logs))
  }

  /**
   * The extracted record: the service has the process tags and the service name, the
   * `error` tag is a boolean for the texts `true` and `false` in any case and `False`
   * when absent, and extraction fails only on an `error` text json cannot decode.
   */
  lemma ExtractedSpanMeets(x: RawSpan)
    ensures ExtractedSpan(x).Err? <==>
              ERROR_KEY in KeyValues(x.tags) && KeyValues(x.tags)[ERROR_KEY].VStr?
              && DecodeJson(Lower(KeyValues(x.tags)[ERROR_KEY].s)).None?
    ensures ExtractedSpan(x).Ok? ==>
              && ExtractedSpan(x).value.service.Keys == KeyValues(x.process.tags).Keys + {SERVICE_NAME_KEY}
              && ExtractedSpan(x).value.service[SERVICE_NAME_KEY] == x.process.serviceName
              && ExtractedSpan(x).value.tags[ERROR_KEY] == ErrorTag(KeyValues(x.tags)).value
              && |ExtractedSpan(x).value.logs| == |x.logs|
    ensures (forall i :: 0 <= i < |x.tags| ==> x.tags[i].key != ERROR_KEY) ==>
              ExtractedSpan(x).Ok? && ExtractedSpan(x).value.tags[ERROR_KEY] == VBool(false)
  {
    if forall i :: 0 <= i < |x.tags| ==> x.tags[i].key != ERROR_KEY {
      DictOfKeys(TagPairs(x.tags), ERROR_KEY);
    }
  }

  /** `extract_span_data`, step by step. */
  method ExtractSpanData(x: RawSpan) returns (r: Result<SpanData, ParseError>)
    ensures r == ExtractedSpan(x)
  {
    var service := KeyValues(x.process.tags);
    service := service[SERVICE_NAME_KEY := x.process.serviceName];
    var tags := KeyValues(x.tags);
    var error := ErrorTag(tags);
    if error.Err? {
      return Err(error.error);
    }
    tags := tags[ERROR_KEY := error.value];
    var logs := GetListOfLogs(x.logs);
    r := Ok(SpanData(x.operationName, x.startTime, x.duration, service, tags, logs, x.references));
  }
}
