/**
 * The OpenTelemetry parser of src/trace_explorer/parsers/opentelemetry.py: Jaeger JSON
 * records to canonical span records, with the exception attributes of the OpenTelemetry
 * semantic conventions renamed to the OpenTracing log fields and an `event: error` pair
 * inserted before each of them.
 */
module OpenTelemetry {
  import opened Wrappers
  import opened Values
  import opened Spans
  import opened Jaeger

  /** `key_mapping`. */
  const KEY_MAPPING: map<string, string> := map[
    "exception.message" := FIELD_MESSAGE,
    "exception.stacktrace" := FIELD_STACK,
    "exception.type" := FIELD_ERROR_OBJECT]

  /** A tag after `tag['key'] = key_mapping[tag['key']]`. */
  function Renamed(t: Tag): (r: Tag)
    ensures r.value == t.value && r.key !in KEY_MAPPING
    ensures t.key !in KEY_MAPPING ==> r == t
    ensures r.key == FIELD_EVENT ==> r == t
  {
    if t.key in KEY_MAPPING then t.(key := KEY_MAPPING[t.key]) else t
  }

  /** The pairs one tag contributes: `('event', 'error')` first if it is renamed. */
  function PairsOfTag(t: Tag): Pairs
  {
    (if t.key in KEY_MAPPING then [(FIELD_EVENT, VStr(FIELD_EVENT_ERROR))] else [])
    + [(Renamed(t).key, t.value)]
  }

  /** The list `kv` the loop of `get_key_value_from_tags` builds. */
  function PairsOf(tags: seq<Tag>): Pairs
    decreases |tags|
  {
    if tags == [] then [] else PairsOf(tags[..|tags| - 1]) + PairsOfTag(tags[|tags| - 1])
  }

  /** `get_key_value_from_tags`: `dict(kv)`. */
  function KeyValues(tags: seq<Tag>): map<string, Value>
  {
    DictOf(PairsOf(tags))
  }

  /** `get_key_value_from_tags`: the dictionary, and the tag list as the renaming leaves it. */
  method GetKeyValueFromTags(tags: seq<Tag>) returns (d: map<string, Value>, renamed: seq<Tag>)
    ensures d == KeyValues(tags)
    ensures |renamed| == |tags| && forall i :: 0 <= i < |tags| ==> renamed[i] == Renamed(tags[i])
  {
    var kv: Pairs := [];
    renamed := [];
    var k := 0;
    while k < |tags|
      invariant 0 <= k <= |tags| && kv == PairsOf(tags[..k])
      invariant |renamed| == k && forall i :: 0 <= i < k ==> renamed[i] == Renamed(tags[i])
      decreases |tags| - k
    {
      var tag := tags[k];
      if tag.key in KEY_MAPPING {
        tag := tag.(key := KEY_MAPPING[tag.key]);
        kv := kv + [(FIELD_EVENT, VStr(FIELD_EVENT_ERROR))];
      }
      kv := kv + [(tag.key, tag.value)];
      renamed := renamed + [tag];
      assert tags[..k + 1][..k] == tags[..k];
      k := k + 1;
    }
    assert tags[..k] == tags;
    d := DictOf(kv);
  }

  /** The dictionary of one tag more. */
  lemma KeyValuesNext(tags: seq<Tag>)
    requires tags != []
    ensures var t := tags[|tags| - 1];
            KeyValues(tags) ==
              KeyValues(tags[..|tags| - 1]) +
              (if t.key in KEY_MAPPING then map[FIELD_EVENT := VStr(FIELD_EVENT_ERROR)][Renamed(t).key := t.value]
               else map[t.key := t.value])
  {
    var t := tags[|tags| - 1];
    DictOfAppend(PairsOf(tags[..|tags| - 1]), PairsOfTag(t));
    var one := PairsOfTag(t);
    if t.key in KEY_MAPPING {
      assert one[..1] == [(FIELD_EVENT, VStr(FIELD_EVENT_ERROR))] && one[..1][..0] == [];
      assert DictOf(one[..1]) == map[FIELD_EVENT := VStr(FIELD_EVENT_ERROR)];
    } else {
      assert one[..0] == [];
    }
  }

  /** Some tag is called `k` once renamed. */
  predicate HasRenamedKey(tags: seq<Tag>, k: string)
  {
    exists i :: 0 <= i < |tags| && Renamed(tags[i]).key == k
  }

  /** Some tag is an exception attribute. */
  predicate AnyRenamed(tags: seq<Tag>)
  {
    exists i :: 0 <= i < |tags| && tags[i].key in KEY_MAPPING
  }

  lemma TagsNext(tags: seq<Tag>, k: string)
    requires tags != []
    ensures HasRenamedKey(tags, k) <==> HasRenamedKey(tags[..|tags| - 1], k) || Renamed(tags[|tags| - 1]).key == k
    ensures AnyRenamed(tags) <==> AnyRenamed(tags[..|tags| - 1]) || tags[|tags| - 1].key in KEY_MAPPING
  {
    var p := tags[..|tags| - 1];
    assert forall i :: 0 <= i < |p| ==> p[i] == tags[i];
    if HasRenamedKey(tags, k) && Renamed(tags[|tags| - 1]).key != k {
      var i :| 0 <= i < |tags| && Renamed(tags[i]).key == k;
      assert Renamed(p[i]).key == k;
    }
    if AnyRenamed(tags) && tags[|tags| - 1].key !in KEY_MAPPING {
      var i :| 0 <= i < |tags| && tags[i].key in KEY_MAPPING;
      assert p[i].key in KEY_MAPPING;
    }
  }

  /**
   * The keys of the dictionary: the tag keys after renaming, and `event` when some tag
   * was renamed.
   */
  lemma {:induction false} KeyValuesKeys(tags: seq<Tag>, k: string)
    ensures k in KeyValues(tags) <==> HasRenamedKey(tags, k) || (k == FIELD_EVENT && AnyRenamed(tags))
    decreases |tags|
  {
    if tags != [] {
      KeyValuesKeys(tags[..|tags| - 1], k);
      KeyValuesNext(tags);
      TagsNext(tags, k);
    }
  }

  /** No exception attribute key survives the conversion. */
  lemma KeyValuesRenamesAll(tags: seq<Tag>, k: string)
    requires k in KeyValues(tags)
    ensures k !in KEY_MAPPING
  {
    KeyValuesKeys(tags, k);
  }

  /**
   * A renamed tag leaves `event` at `error` unless a later tag is itself called `event`.
   */
  lemma {:induction false} RenamedTagSetsEvent(tags: seq<Tag>, i: nat)
    requires i < |tags| && tags[i].key in KEY_MAPPING
    requires forall j :: i < j < |tags| ==> tags[j].key != FIELD_EVENT
    ensures FIELD_EVENT in KeyValues(tags) && KeyValues(tags)[FIELD_EVENT] == VStr(FIELD_EVENT_ERROR)
    decreases |tags|
  {
    var p := tags[..|tags| - 1];
    KeyValuesNext(tags);
    if i < |tags| - 1 {
      assert forall j :: i < j < |p| ==> p[j] == tags[j];
      RenamedTagSetsEvent(p, i);
    }
  }

  /**
   * Each key (after renaming) has the value of its last tag; for `event`, a later renamed
   * tag, which inserts `event: error`, counts as a later tag.
   */
  lemma {:induction false} KeyValuesLastWins(tags: seq<Tag>, i: nat)
    requires i < |tags|
    requires forall j :: i < j < |tags| ==>
               Renamed(tags[j]).key != Renamed(tags[i]).key
               && (Renamed(tags[i]).key == FIELD_EVENT ==> tags[j].key !in KEY_MAPPING)
    ensures Renamed(tags[i]).key in KeyValues(tags) && KeyValues(tags)[Renamed(tags[i]).key] == tags[i].value
    decreases |tags|
  {
    var p := tags[..|tags| - 1];
    KeyValuesNext(tags);
    if i < |tags| - 1 {
      assert forall j :: i < j < |p| ==> p[j] == tags[j];
      KeyValuesLastWins(p, i);
    }
  }

  /** `get_list_of_logs`. */
  method GetListOfLogs(logs: seq<RawLog>) returns (r: seq<Log>)
    ensures r == LogsOf(KeyValues, logs)
  {
    r := [];
    var k := 0;
    while k < |logs|
      invariant 0 <= k <= |logs| && r == LogsOf(KeyValues, logs[..k])
      decreases |logs| - k
    {
      var fields, _ := GetKeyValueFromTags(logs[k].fields);
      r := r + [Log(logs[k].timestamp, fields)];
      k := k + 1;
      assert logs[..k][..k - 1] == logs[..k - 1];
    }
    assert logs[..k] == logs;
  }

  /** `extract_span_data` without the schema validation. */
  function ExtractedSpan(x: RawSpan): Result<SpanData, ParseError>
  {
    AssembleRecord(x, KeyValues(x.process.tags), KeyValues(x.tags), LogsOf(KeyValues, x.logs))
  }

  /**
   * A span tagged with an exception attribute: its tags have the renamed key with the
   * attribute's value, and the service name overrides a process tag called `name`.
   */
  lemma ExtractedSpanMeets(x: RawSpan, i: nat)
    requires ExtractedSpan(x).Ok? && i < |x.tags|
    requires forall j :: i < j < |x.tags| ==>
               Renamed(x.tags[j]).key != Renamed(x.tags[i]).key
               && (Renamed(x.tags[i]).key == FIELD_EVENT ==> x.tags[j].key !in KEY_MAPPING)
    ensures Renamed(x.tags[i]).key != ERROR_KEY ==>
              Renamed(x.tags[i]).key in ExtractedSpan(x).value.tags &&
              ExtractedSpan(x).value.tags[Renamed(x.tags[i]).key] == x.tags[i].value
    ensures ExtractedSpan(x).value.service[SERVICE_NAME_KEY] == x.process.serviceName
    ensures forall k :: k in ExtractedSpan(x).value.tags ==> k !in KEY_MAPPING
  {
    KeyValuesLastWins(x.tags, i);
    forall k | k in ExtractedSpan(x).value.tags
      ensures k !in KEY_MAPPING
    {
      if k != ERROR_KEY {
        KeyValuesRenamesAll(x.tags, k);
      }
    }
  }

  /** `extract_span_data`, step by step. */
  method ExtractSpanData(x: RawSpan) returns (r: Result<SpanData, ParseError>)
    ensures r == ExtractedSpan(x)
  {
    var service, _ := GetKeyValueFromTags(x.process.tags);
    service := service[SERVICE_NAME_KEY := x.process.serviceName];
    var tags, _ := GetKeyValueFromTags(x.tags);
    var error := ErrorTag(tags);
    if error.Err? {
      return Err(error.error);
    }
    tags := tags[ERROR_KEY := error.value];
    var logs := GetListOfLogs(x.logs);
    r := Ok(SpanData(x.operationName, x.startTime, x.duration, service, tags, logs, x.references));
  }
}
