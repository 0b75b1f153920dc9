/**
 * The Jaeger JSON span records both parsers read (src/parsers/opentracing.py and
 * src/trace_explorer/parsers/opentelemetry.py), and the steps they share: `dict()` over
 * key-value pairs, the normalisation of the `error` tag, the assembly of the canonical
 * record and the grouping of records by trace and span id.
 */
module Jaeger {
  import opened Wrappers
  import opened Values
  import opened Spans

  const SERVICE_NAME_KEY := "name"

  /** A `{"key": …, "value": …}` entry of a tag or log-field list. */
  datatype Tag = Tag(key: string, value: Value)

  /** A `{"timestamp": …, "fields": […]}` log entry. */
  datatype RawLog = RawLog(timestamp: int, fields: seq<Tag>)

  /** The `process` object of a record. */
  datatype Process = Process(serviceName: Value, tags: seq<Tag>)

  /** One span record as stored; `spanId` is `None` when the record has no `spanID`. */
  datatype RawSpan = RawSpan(
    traceId: string,
    spanId: Option<string>,
    operationName: string,
    references: seq<Reference>,
    startTime: int,
    duration: int,
    process: Process,
    tags: seq<Tag>,
    logs: seq<RawLog>)

  /** Why parsing fails. */
  datatype ParseError =
    | MissingSpanId(index: nat)        // KeyError from `span.pop('spanID')` on record `index`
    | UndecodableErrorTag(text: string) // json.loads rejected the lower-cased `error` tag

  type Pairs = seq<(string, Value)>

  /** `dict(pairs)`: the keys of the pairs, each with the value of its last pair. */
  function DictOf(kv: Pairs): (d: map<string, Value>)
    decreases |kv|
  {
    if kv == [] then map[] else DictOf(kv[..|kv| - 1])[kv[|kv| - 1].0 := kv[|kv| - 1].1]
  }

  /** `dict(a + b)` is `dict(a)` updated with `dict(b)`. */
  lemma {:induction false} DictOfAppend(a: Pairs, b: Pairs)
    ensures DictOf(a + b) == DictOf(a) + DictOf(b)
    decreases |b|
  {
    if b == [] {
      assert a + b == a;
    } else {
      var b' := b[..|b| - 1];
      assert (a + b)[..|a + b| - 1] == a + b';
      DictOfAppend(a, b');
    }
  }

  /** The keys of `dict(pairs)` are the keys of the pairs. */
  lemma {:induction false} DictOfKeys(kv: Pairs, k: string)
    ensures k in DictOf(kv) <==> exists i :: 0 <= i < |kv| && kv[i].0 == k
    decreases |kv|
  {
    if kv != [] {
      var p := kv[..|kv| - 1];
      DictOfKeys(p, k);
      assert forall i :: 0 <= i < |p| ==> p[i] == kv[i];
      if k in DictOf(p) {
        var i :| 0 <= i < |p| && p[i].0 == k;
        assert kv[i].0 == k;
      }
    }
  }

  /** The last pair with a key decides its value. */
  lemma {:induction false} DictOfLastWins(kv: Pairs, i: nat)
    requires i < |kv| && forall j :: i < j < |kv| ==> kv[j].0 != kv[i].0
    ensures kv[i].0 in DictOf(kv) && DictOf(kv)[kv[i].0] == kv[i].1
    decreases |kv|
  {
    if i < |kv| - 1 {
      var p := kv[..|kv| - 1];
      assert forall j :: i < j < |p| ==> p[j] == kv[j];
      DictOfLastWins(p, i);
    }
  }

  predicate IsNatLiteral(s: string)
  {
    && |s| > 0 && AllDigits(s)
    && (s[0] == '0' ==> |s| == 1)
  }

  /**
   * `json.loads(s)` for the JSON literals a tag value can hold in this model: `true`,
   * `false`, `null` and integers without leading zeros.
   */
  function DecodeJson(s: string): (r: Option<Value>)
  {
    if s == "true" then Some(VBool(true))
    else if s == "false" then Some(VBool(false))
    else if s == "null" then Some(VNone)
    else if IsNatLiteral(s) then Some(VInt(DecimalValue(s)))
    else if |s| > 1 && s[0] == '-' && IsNatLiteral(s[1..]) then Some(VInt(-(DecimalValue(s[1..]) as int)))
    else None
  }

  lemma {:induction false} NatToStringLeading(n: nat)
    ensures NatToString(n)[0] == '0' ==> n == 0
    decreases n
  {
    if n >= 10 {
      NatToStringLeading(n / 10);
      assert NatToString(n)[0] == NatToString(n / 10)[0];
    }
  }

  /** `json.loads(json.dumps(i)) == i`: the decimal rendering of an integer decodes back to it. */
  lemma DecodeIntegerRendering(i: int)
    ensures DecodeJson(IntToString(i)) == Some(VInt(i))
  {
    var n: nat := if i < 0 then -i else i;
    NatToStringRoundTrip(n);
    NatToStringLeading(n);
    var r := NatToString(n);
    assert IsNatLiteral(r);
    assert r != "true" && r != "false" && r != "null" by {
      assert '0' <= r[0] <= '9';
    }
    if i < 0 {
      var s := IntToString(i);
      assert s == "-" + r && s[1..] == r;
      assert s != "true" && s != "false" && s != "null" && !IsNatLiteral(s) by {
        assert s[0] == '-';
      }
    }
  }

  /**
   * The `error` tag after extraction: `False` when absent, the decoded lower-cased text
   * when it is a string, and the value itself otherwise.
   */
  function ErrorTag(tags: map<string, Value>): (r: Result<Value, ParseError>)
    ensures ERROR_KEY !in tags ==> r == Ok(VBool(false))
    ensures ERROR_KEY in tags && !tags[ERROR_KEY].VStr? ==> r == Ok(tags[ERROR_KEY])
    ensures ERROR_KEY in tags && tags[ERROR_KEY].VStr? && Lower(tags[ERROR_KEY].s) == "true" ==> r == Ok(VBool(true))
    ensures ERROR_KEY in tags && tags[ERROR_KEY].VStr? && Lower(tags[ERROR_KEY].s) == "false" ==> r == Ok(VBool(false))
    ensures r.Err? <==> ERROR_KEY in tags && tags[ERROR_KEY].VStr? && DecodeJson(Lower(tags[ERROR_KEY].s)).None?
  {
    var e := GetOr(tags, ERROR_KEY, VBool(false));
    if e.VStr? then
      match DecodeJson(Lower(e.s))
      case None => Err(UndecodableErrorTag(e.s))
      case Some(v) => Ok(v)
    else Ok(e)
  }

  /** Mixed-case spellings of a boolean are normalised to the boolean. */
  lemma ErrorTagTrueSpelling()
    ensures ErrorTag(map[ERROR_KEY := VStr("True")]) == Ok(VBool(true))
    ensures ErrorTag(map[ERROR_KEY := VStr("FALSE")]) == Ok(VBool(false))
  {
    assert Lower("True") == "true";
    assert Lower("FALSE") == "false";
  }

  /**
   * `extract_span_data` once the service tags, the span tags and the logs are converted:
   * the four relevant keys are copied, the service gets its `name`, the `error` tag is
   * normalised.
   */
  function AssembleRecord(x: RawSpan, service: map<string, Value>, tags: map<string, Value>, logs: seq<Log>)
    : (r: Result<SpanData, ParseError>)
    ensures r.Err? <==> ErrorTag(tags).Err?
    ensures r.Ok? ==>
              && r.value.operationName == x.operationName && r.value.references == x.references
              && r.value.startTime == x.startTime && r.value.duration == x.duration
              && r.value.logs == logs
              && r.value.service.Keys == service.Keys + {SERVICE_NAME_KEY}
              && r.value.service[SERVICE_NAME_KEY] == x.process.serviceName
              && (forall k :: k in service && k != SERVICE_NAME_KEY ==> r.value.service[k] == service[k])
              && r.value.tags.Keys == tags.Keys + {ERROR_KEY}
              && r.value.tags[ERROR_KEY] == ErrorTag(tags).value
              && (forall k :: k in tags && k != ERROR_KEY ==> r.value.tags[k] == tags[k])
  {
    match ErrorTag(tags)
    case Err(e) => Err(e)
    case Ok(error) =>
      Ok(SpanData(x.operationName, x.startTime, x.duration,
                  service[SERVICE_NAME_KEY := x.process.serviceName],
                  tags[ERROR_KEY := error], logs, x.references))
  }

  /**
   * What `get_list_of_logs` returns: each log keeps its timestamp and has its field list
   * converted by `convert`, the parser's own `get_key_value_from_tags`.
   */
  function LogsOf(convert: seq<Tag> -> map<string, Value>, logs: seq<RawLog>): (r: seq<Log>)
    ensures |r| == |logs|
    ensures forall i :: 0 <= i < |logs| ==> r[i].timestamp == logs[i].timestamp && r[i].fields == convert(logs[i].fields)
  {
    seq(|logs|, i requires 0 <= i < |logs| => Log(logs[i].timestamp, convert(logs[i].fields)))
  }

  type Grouped = map<string, map<string, SpanData>>

  /**
   * `parse_spans`: records grouped by trace id into `{span id: extracted record}`; the
   * first record that has no span id or cannot be extracted fails the whole parse.
   */
  function Parsed(extract: RawSpan -> Result<SpanData, ParseError>, xs: seq<RawSpan>): (r: Result<Grouped, ParseError>)
    decreases |xs|
  {
    if xs == [] then Ok(map[])
    else
      match Parsed(extract, xs[..|xs| - 1])
      case Err(e) => Err(e)
      case Ok(m) => Insert(extract, m, xs[|xs| - 1], |xs| - 1)
  }

  /** One pass of the loop of `parse_spans`, on record `x` at position `index`. */
  function Insert(extract: RawSpan -> Result<SpanData, ParseError>, m: Grouped, x: RawSpan, index: nat)
    : Result<Grouped, ParseError>
  {
    if x.spanId.None? then Err(MissingSpanId(index))
    else
      match extract(x)
      case Err(e) => Err(e)
      case Ok(d) =>
        var group := if x.traceId in m then m[x.traceId] else map[];
        Ok(m[x.traceId := group[x.spanId.value := d]])
  }

  lemma ParsedNext(extract: RawSpan -> Result<SpanData, ParseError>, xs: seq<RawSpan>, k: nat, m: Grouped)
    requires k < |xs| && Parsed(extract, xs[..k]) == Ok(m)
    ensures Parsed(extract, xs[..k + 1]) == Insert(extract, m, xs[k], k)
  {
    assert xs[..k + 1][..k] == xs[..k];
  }

  /** Once a prefix fails, the whole parse fails with the same error. */
  lemma {:induction false} ParsedFailsFrom(extract: RawSpan -> Result<SpanData, ParseError>, xs: seq<RawSpan>, k: nat)
    requires k <= |xs| && Parsed(extract, xs[..k]).Err?
    ensures Parsed(extract, xs) == Parsed(extract, xs[..k])
    decreases |xs|
  {
    if k == |xs| {
      assert xs[..k] == xs;
    } else {
      var p := xs[..|xs| - 1];
      assert p[..k] == xs[..k];
      ParsedFailsFrom(extract, p, k);
    }
  }

  /** Parsing succeeds exactly when every record has a span id and can be extracted. */
  lemma {:induction false} ParsedSucceeds(extract: RawSpan -> Result<SpanData, ParseError>, xs: seq<RawSpan>)
    ensures Parsed(extract, xs).Ok? <==> forall i :: 0 <= i < |xs| ==> xs[i].spanId.Some? && extract(xs[i]).Ok?
    ensures (exists i :: 0 <= i < |xs| && xs[i].spanId.None?) ==> Parsed(extract, xs).Err?
    decreases |xs|
  {
    if xs != [] {
      var p := xs[..|xs| - 1];
      ParsedSucceeds(extract, p);
      assert forall i :: 0 <= i < |p| ==> p[i] == xs[i];
    }
  }

  /** A successful parse has a group for each trace id of the records, and no other. */
  lemma {:induction false} ParsedTraces(extract: RawSpan -> Result<SpanData, ParseError>, xs: seq<RawSpan>, t: string)
    requires Parsed(extract, xs).Ok?
    ensures t in Parsed(extract, xs).value <==> exists i :: 0 <= i < |xs| && xs[i].traceId == t
    decreases |xs|
  {
    if xs != [] {
      var p := xs[..|xs| - 1];
      assert forall i :: 0 <= i < |p| ==> p[i] == xs[i];
      ParsedTraces(extract, p, t);
      if t in Parsed(extract, p).value {
        var i :| 0 <= i < |p| && p[i].traceId == t;
        assert xs[i].traceId == t;
      }
    }
  }

  /** The group of a trace holds an entry for each span id its records carry, and no other. */
  lemma {:induction false} ParsedSpanIds(extract: RawSpan -> Result<SpanData, ParseError>, xs: seq<RawSpan>, t: string, s: string)
    requires Parsed(extract, xs).Ok? && t in Parsed(extract, xs).value
    ensures s in Parsed(extract, xs).value[t] <==> exists i :: 0 <= i < |xs| && xs[i].traceId == t && xs[i].spanId == Some(s)
    decreases |xs|
  {
    var p := xs[..|xs| - 1];
    var x := xs[|xs| - 1];
    assert forall i :: 0 <= i < |p| ==> p[i] == xs[i];
    var m := Parsed(extract, p).value;
    if t in m {
      ParsedSpanIds(extract, p, t, s);
      if s in m[t] {
        var i :| 0 <= i < |p| && p[i].traceId == t && p[i].spanId == Some(s);
        assert xs[i].traceId == t && xs[i].spanId == Some(s);
      }
    } else {
      ParsedTraces(extract, p, t);
      assert x.traceId == t;
    }
  }

  /** Under a pair of ids sits the extraction of the last record carrying that pair. */
  lemma {:induction false} ParsedLastWins(extract: RawSpan -> Result<SpanData, ParseError>, xs: seq<RawSpan>, i: nat)
    requires Parsed(extract, xs).Ok? && i < |xs|
    requires forall j :: i < j < |xs| ==> xs[j].traceId != xs[i].traceId || xs[j].spanId != xs[i].spanId
    ensures xs[i].spanId.Some? && extract(xs[i]).Ok?
    ensures xs[i].traceId in Parsed(extract, xs).value
    ensures xs[i].spanId.value in Parsed(extract, xs).value[xs[i].traceId]
    ensures Parsed(extract, xs).value[xs[i].traceId][xs[i].spanId.value] == extract(xs[i]).value
    decreases |xs|
  {
    var p := xs[..|xs| - 1];
    if i < |xs| - 1 {
      assert forall j :: 0 <= j < |p| ==> p[j] == xs[j];
      ParsedLastWins(extract, p, i);
    }
  }
}
