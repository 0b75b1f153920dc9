/**
 * `Trace` of trace_explorer/analysis/models.py: building the span arena of one trace from
 * its records, resolving references into the parent/children tree (fetching missing spans
 * from storage), choosing the root, setting sibling `previous` links and extracting
 * error strands.
 */
module Traces {
  import opened Wrappers
  import opened Values
  import opened Spans
  import opened Arena
  import opened Sorting

  /** The exceptions that abort the construction of a trace. */
  datatype TraceError =
    | SpanRecordError(spanId: string, reason: SpanError)  // Span() raised on an input record
    | DuplicateSpanId(spanId: string)                     // "Found spans with same ID"
    | UnresolvedReference(spanId: string)                 // "Found a reference to a not existing span"
    | CircularDependency(spanId: string)                  // a second parent assignment
    | MultipleRootSpans
    | NoRootSpan

  /** The part of a trace that construction builds: its spans and its error tally. */
  datatype Build = Build(spans: seq<Span>, errorCount: int)

  function Ids(s: seq<Span>): set<string>
  {
    set x | x in s :: x.spanId
  }

  predicate UniqueIds(s: seq<Span>)
  {
    forall a, b :: 0 <= a < b < |s| ==> s[a].spanId != s[b].spanId
  }

  /** A span has type root exactly when no reference has attached it to a parent. */
  predicate RootIffUnparented(s: seq<Span>)
  {
    forall i :: 0 <= i < |s| ==> (s[i].kind == Root <==> s[i].parent.None?)
  }

  predicate DistinctChildren(s: seq<Span>)
  {
    forall i :: 0 <= i < |s| ==> Distinct(s[i].children)
  }

  /** What holds of the arena at every step of trace construction. */
  predicate Building(s: seq<Span>)
  {
    Tree(s) && UniqueIds(s) && RootIffUnparented(s) && DistinctChildren(s)
  }

  predicate DistinctKeys(records: seq<(string, SpanData)>)
  {
    forall a, b :: 0 <= a < b < |records| ==> records[a].0 != records[b].0
  }

  /** The number of errored spans. */
  function ErrorCount(s: seq<Span>): (n: nat)
    ensures n <= |s|
    ensures n == 0 <==> forall i :: 0 <= i < |s| ==> !s[i].error
    decreases |s|
  {
    if s == [] then 0 else ErrorCount(s[..|s| - 1]) + (if s[|s| - 1].error then 1 else 0)
  }

  lemma ErrorCountAppend(s: seq<Span>, x: Span)
    ensures ErrorCount(s + [x]) == ErrorCount(s) + (if x.error then 1 else 0)
  {
    assert (s + [x])[..|s|] == s;
  }

  // ---------------------------------------------------------------- init_spans

  /** `init_spans`: one span per record, in record order; the first record Span() rejects aborts. */
  function SpansOf(traceId: string, records: seq<(string, SpanData)>): (r: Result<seq<Span>, TraceError>)
    ensures r.Ok? <==> forall k :: 0 <= k < |records| ==> NewSpan(traceId, records[k].0, records[k].1).Ok?
    ensures r.Ok? ==> (|r.value| == |records|
       && forall k :: 0 <= k < |records| ==> NewSpan(traceId, records[k].0, records[k].1) == Ok(r.value[k]))
    decreases |records|
  {
    if records == [] then Ok([])
    else
      var last := records[|records| - 1];
      match SpansOf(traceId, records[..|records| - 1])
      case Err(e) => Err(e)
      case Ok(prefix) =>
        match NewSpan(traceId, last.0, last.1)
        case Err(e) => Err(SpanRecordError(last.0, e))
        case Ok(x) => Ok(prefix + [x])
  }

  /** The error `init_spans` raises is the one of the first record Span() rejects. */
  lemma {:induction false} InitSpansFirstFailure(traceId: string, records: seq<(string, SpanData)>, k: nat)
    requires k < |records| && NewSpan(traceId, records[k].0, records[k].1).Err?
    requires forall m :: 0 <= m < k ==> NewSpan(traceId, records[m].0, records[m].1).Ok?
    ensures SpansOf(traceId, records)
            == Err(SpanRecordError(records[k].0, NewSpan(traceId, records[k].0, records[k].1).error))
    decreases |records|
  {
    var front := records[..|records| - 1];
    if k < |records| - 1 {
      InitSpansFirstFailure(traceId, front, k);
    } else {
      assert SpansOf(traceId, front).Ok?;
    }
  }

  /** One more record for `init_spans`. */
  lemma SpansOfStep(traceId: string, records: seq<(string, SpanData)>, k: nat)
    requires k < |records|
    ensures SpansOf(traceId, records[..k + 1])
            == match SpansOf(traceId, records[..k])
               case Err(e) => Err(e)
               case Ok(prefix) =>
                 match NewSpan(traceId, records[k].0, records[k].1)
                 case Err(e) => Err(SpanRecordError(records[k].0, e))
                 case Ok(x) => Ok(prefix + [x])
  {
    assert records[..k + 1][..k] == records[..k];
  }

  /** Once a prefix of the records fails, `init_spans` fails with the same error. */
  lemma {:induction false} SpansOfPrefixErr(traceId: string, records: seq<(string, SpanData)>, k: nat)
    requires k <= |records| && SpansOf(traceId, records[..k]).Err?
    ensures SpansOf(traceId, records) == SpansOf(traceId, records[..k])
    decreases |records| - k
  {
    if k == |records| {
      assert records[..k] == records;
    } else {
      SpansOfStep(traceId, records, k);
      SpansOfPrefixErr(traceId, records, k + 1);
    }
  }

  /** The invariant of the loop of `init_spans`: the first `k` records became `result`. */
  predicate InitLoop(traceId: string, records: seq<(string, SpanData)>, k: nat, result: seq<Span>, count: int, count0: int)
  {
    k <= |records| && SpansOf(traceId, records[..k]) == Ok(result) && count == count0 + ErrorCount(result)
  }

  lemma InitLoopStep(traceId: string, records: seq<(string, SpanData)>, k: nat, result: seq<Span>, count: int, count0: int, x: Span)
    requires InitLoop(traceId, records, k, result, count, count0) && k < |records|
    requires NewSpan(traceId, records[k].0, records[k].1) == Ok(x)
    ensures InitLoop(traceId, records, k + 1, result + [x], count + (if x.error then 1 else 0), count0)
  {
    SpansOfStep(traceId, records, k);
    ErrorCountAppend(result, x);
  }

  lemma InitLoopErr(traceId: string, records: seq<(string, SpanData)>, k: nat, result: seq<Span>, count: int, count0: int, e: SpanError)
    requires InitLoop(traceId, records, k, result, count, count0) && k < |records|
    requires NewSpan(traceId, records[k].0, records[k].1) == Err(e)
    ensures SpansOf(traceId, records) == Err(SpanRecordError(records[k].0, e))
  {
    SpansOfStep(traceId, records, k);
    SpansOfPrefixErr(traceId, records, k + 1);
  }

  lemma InitLoopEnd(traceId: string, records: seq<(string, SpanData)>, k: nat, result: seq<Span>, count: int, count0: int)
    requires InitLoop(traceId, records, k, result, count, count0) && k == |records|
    ensures SpansOf(traceId, records) == Ok(result) && count == count0 + ErrorCount(result)
  {
    assert records[..k] == records;
  }

  /** The spans `init_spans` builds form a valid starting arena: unique ids, no links yet. */
  lemma InitSpansBuilding(traceId: string, records: seq<(string, SpanData)>)
    requires DistinctKeys(records) && SpansOf(traceId, records).Ok?
    ensures Building(SpansOf(traceId, records).value)
    ensures forall i :: 0 <= i < |records| ==>
              (SpansOf(traceId, records).value[i].previous.None?
               && SpansOf(traceId, records).value[i].caused.None?
               && SpansOf(traceId, records).value[i].causedBy.None?)
  {
  }

  // ---------------------------------------------------------------- set_parent / add_child / add_follower

  /**
   * `parent.add_child(child)` (kind Child) or `parent.add_follower(child)` (kind Follower):
   * `child.set_parent(parent)` raises if the child already has a parent; otherwise the child
   * gets the parent and the kind, and is appended to the parent's children.
   */
  function Attach(s: seq<Span>, parent: nat, child: nat, kind: SpanKind): (r: Result<seq<Span>, TraceError>)
    requires parent < |s| && child < |s|
    ensures r.Err? <==> s[child].parent.Some?
    ensures r.Err? ==> r.error == CircularDependency(s[child].spanId)
    ensures r.Ok? ==> |r.value| == |s|
    ensures r.Ok? && parent != child ==>
              && r.value[child] == s[child].(parent := Some(parent), kind := kind)
              && r.value[parent] == s[parent].(children := s[parent].children + [child])
    ensures r.Ok? && parent == child ==>
              r.value[child] == s[child].(parent := Some(parent), kind := kind,
                                          children := s[child].children + [child])
    ensures r.Ok? ==> forall i :: 0 <= i < |s| && i != parent && i != child ==> r.value[i] == s[i]
  {
    if s[child].parent.Some? then Err(CircularDependency(s[child].spanId))
    else
      var s1 := s[child := s[child].(parent := Some(parent), kind := kind)];
      Ok(s1[parent := s1[parent].(children := s1[parent].children + [child])])
  }

  /** The parent slot is write-once: a span that has a parent cannot be attached again. */
  lemma AttachParentOnce(s: seq<Span>, p1: nat, p2: nat, child: nat, k1: SpanKind, k2: SpanKind)
    requires p1 < |s| && p2 < |s| && child < |s|
    requires Attach(s, p1, child, k1).Ok?
    ensures Attach(Attach(s, p1, child, k1).value, p2, child, k2) == Err(CircularDependency(s[child].spanId))
  {
  }

  /** Two arenas whose spans carry the same ids, position by position, hold the same ids. */
  lemma IdsPointwise(s: seq<Span>, r: seq<Span>)
    requires |s| == |r| && forall i :: 0 <= i < |s| ==> r[i].spanId == s[i].spanId
    ensures Ids(r) == Ids(s)
  {
    forall id | id in Ids(r) ensures id in Ids(s) {
      var x :| x in r && x.spanId == id;
      var k :| 0 <= k < |r| && r[k] == x;
      assert s[k] in s;
    }
    forall id | id in Ids(s) ensures id in Ids(r) {
      var x :| x in s && x.spanId == id;
      var k :| 0 <= k < |s| && s[k] == x;
      assert r[k] in r;
    }
  }

  /** Attaching keeps the tree: the new child was in nobody's children before. */
  lemma AttachTree(s: seq<Span>, parent: nat, child: nat, kind: SpanKind)
    requires Tree(s) && DistinctChildren(s) && parent < |s| && child < |s|
    requires Attach(s, parent, child, kind).Ok?
    ensures Tree(Attach(s, parent, child, kind).value)
    ensures DistinctChildren(Attach(s, parent, child, kind).value)
  {
    AttachWellFormed(s, parent, child, kind);
    AttachChildParent(s, parent, child, kind);
    AttachDistinct(s, parent, child, kind);
  }

  lemma AttachWellFormed(s: seq<Span>, parent: nat, child: nat, kind: SpanKind)
    requires WellFormed(s) && parent < |s| && child < |s|
    requires Attach(s, parent, child, kind).Ok?
    ensures WellFormed(Attach(s, parent, child, kind).value)
  {
    var r := Attach(s, parent, child, kind).value;
    forall i | 0 <= i < |r| ensures SpanInRange(r[i], |r|) {
      assert SpanInRange(s[i], |s|);
    }
  }

  lemma AttachChildParent(s: seq<Span>, parent: nat, child: nat, kind: SpanKind)
    requires Tree(s) && parent < |s| && child < |s|
    requires Attach(s, parent, child, kind).Ok?
    requires WellFormed(Attach(s, parent, child, kind).value)
    ensures ChildParent(Attach(s, parent, child, kind).value)
  {
    var r := Attach(s, parent, child, kind).value;
    forall i, j | 0 <= i < |r| && 0 <= j < |r[i].children|
      ensures r[r[i].children[j]].parent == Some(i)
    {
      if i == parent && j == |s[parent].children| {
      } else {
        assert r[i].children[j] == s[i].children[j];
        assert s[s[i].children[j]].parent == Some(i);
      }
    }
  }

  lemma AttachDistinct(s: seq<Span>, parent: nat, child: nat, kind: SpanKind)
    requires Tree(s) && DistinctChildren(s) && parent < |s| && child < |s|
    requires Attach(s, parent, child, kind).Ok?
    ensures DistinctChildren(Attach(s, parent, child, kind).value)
  {
    var r := Attach(s, parent, child, kind).value;
    assert forall j :: 0 <= j < |s[parent].children| ==> s[parent].children[j] != child by {
      forall j | 0 <= j < |s[parent].children| ensures s[parent].children[j] != child {
        assert s[s[parent].children[j]].parent == Some(parent);
      }
    }
    forall i | 0 <= i < |r| ensures Distinct(r[i].children) {
      assert Distinct(s[i].children);
    }
  }

  /** Attaching keeps the construction invariant, the ids and the references. */
  lemma AttachBuilding(s: seq<Span>, parent: nat, child: nat, kind: SpanKind)
    requires Building(s) && parent < |s| && child < |s| && kind != Root
    requires Attach(s, parent, child, kind).Ok?
    ensures Building(Attach(s, parent, child, kind).value)
    ensures Ids(Attach(s, parent, child, kind).value) == Ids(s)
    ensures forall i :: 0 <= i < |s| ==> Attach(s, parent, child, kind).value[i].references == s[i].references
    ensures forall i :: 0 <= i < |s| ==> Attach(s, parent, child, kind).value[i].spanId == s[i].spanId
  {
    var r := Attach(s, parent, child, kind).value;
    IdsPointwise(s, r);
    AttachTree(s, parent, child, kind);
  }

  // ---------------------------------------------------------------- resolve_reference

  /** The indices of the spans carrying `id`, in arena order. */
  function IndicesWithId(s: seq<Span>, id: string): (r: seq<nat>)
    ensures forall k :: 0 <= k < |r| ==> r[k] < |s| && s[r[k]].spanId == id
    ensures forall i :: 0 <= i < |s| && s[i].spanId == id ==> i in r
    ensures forall a, b :: 0 <= a < b < |r| ==> r[a] < r[b]
    decreases |s|
  {
    if s == [] then []
    else IndicesWithId(s[..|s| - 1], id) + (if s[|s| - 1].spanId == id then [|s| - 1] else [])
  }

  lemma UniqueIdsAtMostOne(s: seq<Span>, id: string)
    requires UniqueIds(s)
    ensures |IndicesWithId(s, id)| <= 1
    ensures id in Ids(s) <==> |IndicesWithId(s, id)| == 1
  {
    var r := IndicesWithId(s, id);
    if id in Ids(s) {
      var x :| x in s && x.spanId == id;
      var k :| 0 <= k < |s| && s[k] == x;
      assert k in r;
    }
    if |r| == 1 {
      assert s[r[0]] in s;
    }
  }

  /**
   * The fetch of a missing span: `get_span_from_storage`, `parse_spans` and `add_span`.
   * Any exception among them becomes an unresolved reference.
   */
  function Fetch(traceId: string, b: Build, id: string, storage: map<string, SpanData>): (r: Result<(Build, nat), TraceError>)
    ensures r.Err? ==> r.error == UnresolvedReference(id)
    ensures r.Err? <==> id !in storage || NewSpan(traceId, id, storage[id]).Err?
    ensures r.Ok? ==>
              (NewSpan(traceId, id, storage[id]).Ok?
               && r.value.0.spans == b.spans + [NewSpan(traceId, id, storage[id]).value]
               && r.value.0.errorCount == b.errorCount + (if NewSpan(traceId, id, storage[id]).value.error then 1 else 0)
               && r.value.1 == |b.spans|)
  {
    if id !in storage then Err(UnresolvedReference(id))
    else
      match NewSpan(traceId, id, storage[id])
      case Err(_) => Err(UnresolvedReference(id))
      case Ok(x) => Ok((Build(b.spans + [x], b.errorCount + (if x.error then 1 else 0)), |b.spans|))
  }

  function AttachKind(refType: string): Option<SpanKind>
  {
    if refType == REF_TYPE_CHILD_OF then Some(Child)
    else if refType == REF_TYPE_FOLLOWS_FROM then Some(Follower)
    else None
  }

  /** The span a reference points to, fetching it when the trace does not hold it. */
  function Locate(traceId: string, b: Build, id: string, storage: map<string, SpanData>): (r: Result<(Build, nat), TraceError>)
    ensures r.Ok? ==> r.value.1 < |r.value.0.spans| && r.value.0.spans[r.value.1].spanId == id
    ensures r.Ok? ==> b.spans <= r.value.0.spans
  {
    var found := IndicesWithId(b.spans, id);
    if |found| > 1 then Err(DuplicateSpanId(id))
    else if |found| == 1 then Ok((b, found[0]))
    else Fetch(traceId, b, id, storage)
  }

  /** `resolve_reference(span i, ref)`. */
  function Resolved(traceId: string, b: Build, i: nat, ref: Reference, storage: map<string, SpanData>): Result<Build, TraceError>
    requires i < |b.spans|
  {
    match Locate(traceId, b, ref.spanId, storage)
    case Err(e) => Err(e)
    case Ok((b1, target)) =>
      match AttachKind(ref.refType)
      case None => Ok(b1)
      case Some(kind) =>
        match Attach(b1.spans, target, i, kind)
        case Err(e) => Err(e)
        case Ok(s) => Ok(Build(s, b1.errorCount))
  }

  /** The outcomes of `resolve_reference`. */
  lemma ResolvedCases(traceId: string, b: Build, i: nat, ref: Reference, storage: map<string, SpanData>)
    requires i < |b.spans|
    // more than one span with the id
    ensures |IndicesWithId(b.spans, ref.spanId)| > 1 ==>
              Resolved(traceId, b, i, ref, storage) == Err(DuplicateSpanId(ref.spanId))
    // no span with the id, and the fetch fails
    ensures |IndicesWithId(b.spans, ref.spanId)| == 0
              && (ref.spanId !in storage || NewSpan(traceId, ref.spanId, storage[ref.spanId]).Err?)
            ==> Resolved(traceId, b, i, ref, storage) == Err(UnresolvedReference(ref.spanId))
    // a span with the id, or a fetched one appended (and counted if errored)
    ensures var r := Resolved(traceId, b, i, ref, storage);
            r.Ok? && |IndicesWithId(b.spans, ref.spanId)| == 1 ==>
              |r.value.spans| == |b.spans| && r.value.errorCount == b.errorCount
    ensures var r := Resolved(traceId, b, i, ref, storage);
            r.Ok? && |IndicesWithId(b.spans, ref.spanId)| == 0 ==>
              && ref.spanId in storage && NewSpan(traceId, ref.spanId, storage[ref.spanId]).Ok?
              && |r.value.spans| == |b.spans| + 1
              && r.value.spans[|b.spans|].spanId == ref.spanId
              && r.value.errorCount == b.errorCount
                   + (if NewSpan(traceId, ref.spanId, storage[ref.spanId]).value.error then 1 else 0)
    // CHILD_OF and FOLLOWS_FROM attach span i below the target; a second parent is refused
    ensures var r := Resolved(traceId, b, i, ref, storage);
            Locate(traceId, b, ref.spanId, storage).Ok? && AttachKind(ref.refType).Some? ==>
              (r.Err? <==> b.spans[i].parent.Some?)
    ensures var r := Resolved(traceId, b, i, ref, storage);
            r.Ok? && AttachKind(ref.refType).Some? ==>
              && r.value.spans[i].parent == Some(Locate(traceId, b, ref.spanId, storage).value.1)
              && r.value.spans[i].kind == AttachKind(ref.refType).value
    // any other reference type attaches nothing
    ensures var r := Resolved(traceId, b, i, ref, storage);
            r.Ok? && AttachKind(ref.refType).None? ==> r.value.spans[..|b.spans|] == b.spans
  {
  }

  lemma IdsAppend(s: seq<Span>, x: Span)
    ensures Ids(s + [x]) == Ids(s) + {x.spanId}
  {
    assert forall y :: y in s + [x] <==> y in s || y == x;
  }

  /** A fetched span is new to the trace: the invariant holds and storage has one span fewer to offer. */
  lemma FetchBuilding(traceId: string, b: Build, id: string, storage: map<string, SpanData>)
    requires Building(b.spans) && id !in Ids(b.spans)
    requires Fetch(traceId, b, id, storage).Ok?
    ensures var b1 := Fetch(traceId, b, id, storage).value.0;
            && Building(b1.spans)
            && (forall k :: 0 <= k < |b.spans| ==> b1.spans[k] == b.spans[k])
            && storage.Keys - Ids(b1.spans) < storage.Keys - Ids(b.spans)
  {
    var b1 := Fetch(traceId, b, id, storage).value.0;
    var x := NewSpan(traceId, id, storage[id]).value;
    IdsAppend(b.spans, x);
    assert id in (storage.Keys - Ids(b.spans)) - (storage.Keys - Ids(b1.spans));
    forall a | 0 <= a < |b.spans| ensures b1.spans[a].spanId != x.spanId {
      assert b.spans[a] in b.spans;
    }
    assert WellFormed(b1.spans) by {
      forall k | 0 <= k < |b1.spans| ensures SpanInRange(b1.spans[k], |b1.spans|) {
        if k < |b.spans| {
          assert SpanInRange(b.spans[k], |b.spans|);
        }
      }
    }
  }

  /** Resolving one reference keeps the construction invariant and makes progress on storage. */
  lemma ResolveReferenceBuilding(traceId: string, b: Build, i: nat, ref: Reference, storage: map<string, SpanData>)
    requires i < |b.spans| && Building(b.spans)
    requires Resolved(traceId, b, i, ref, storage).Ok?
    ensures var r := Resolved(traceId, b, i, ref, storage).value;
            && Building(r.spans)
            && r.spans[i].references == b.spans[i].references
            && |b.spans| <= |r.spans|
            && (forall x :: 0 <= x < |b.spans| ==> r.spans[x].spanId == b.spans[x].spanId)
            && ((|r.spans| == |b.spans| && Ids(r.spans) == Ids(b.spans))
                || (|r.spans| == |b.spans| + 1 && storage.Keys - Ids(r.spans) < storage.Keys - Ids(b.spans)))
  {
    UniqueIdsAtMostOne(b.spans, ref.spanId);
    var (b1, target) := Locate(traceId, b, ref.spanId, storage).value;
    if |IndicesWithId(b.spans, ref.spanId)| == 0 {
      FetchBuilding(traceId, b, ref.spanId, storage);
    }
    match AttachKind(ref.refType)
    case None =>
    case Some(kind) =>
      AttachBuilding(b1.spans, target, i, kind);
  }

  function RefsOf(s: seq<Span>, i: nat): seq<Reference>
  {
    if i < |s| then s[i].references else []
  }

  /**
   * `resolve_relations`: the references of every span, in span order and reference order,
   * including the spans that fetching appends while the loop runs.
   */
  function ResolveRelationsFrom(traceId: string, b: Build, storage: map<string, SpanData>, i: nat, j: nat): (r: Result<Build, TraceError>)
    requires Building(b.spans) && i <= |b.spans| && j <= |RefsOf(b.spans, i)|
    ensures r.Ok? ==> Building(r.value.spans) && |b.spans| <= |r.value.spans|
    ensures r.Ok? ==> forall x :: 0 <= x < |b.spans| ==> r.value.spans[x].spanId == b.spans[x].spanId
    decreases storage.Keys - Ids(b.spans), |b.spans| - i, |RefsOf(b.spans, i)| - j
  {
    if i == |b.spans| then Ok(b)
    else if j == |b.spans[i].references| then ResolveRelationsFrom(traceId, b, storage, i + 1, 0)
    else
      match Resolved(traceId, b, i, b.spans[i].references[j], storage)
      case Err(e) => Err(e)
      case Ok(b1) =>
        ResolveReferenceBuilding(traceId, b, i, b.spans[i].references[j], storage);
        ResolveRelationsFrom(traceId, b1, storage, i, j + 1)
  }

  /** One step of `resolve_relations`: the next reference, the next span, or the end. */
  lemma ResolveRelationsUnfold(traceId: string, b: Build, storage: map<string, SpanData>, i: nat, j: nat)
    requires Building(b.spans) && i <= |b.spans| && j <= |RefsOf(b.spans, i)|
    ensures i == |b.spans| ==> ResolveRelationsFrom(traceId, b, storage, i, j) == Ok(b)
    ensures i < |b.spans| && j == |b.spans[i].references| ==>
              ResolveRelationsFrom(traceId, b, storage, i, j) == ResolveRelationsFrom(traceId, b, storage, i + 1, 0)
    ensures i < |b.spans| && j < |b.spans[i].references| ==>
              match Resolved(traceId, b, i, b.spans[i].references[j], storage)
              case Err(e) => ResolveRelationsFrom(traceId, b, storage, i, j) == Err(e)
              case Ok(b1) =>
                && Building(b1.spans) && i < |b1.spans| && j + 1 <= |RefsOf(b1.spans, i)|
                && ResolveRelationsFrom(traceId, b, storage, i, j) == ResolveRelationsFrom(traceId, b1, storage, i, j + 1)
  {
    if i < |b.spans| && j < |b.spans[i].references| {
      var ref := b.spans[i].references[j];
      if Resolved(traceId, b, i, ref, storage).Ok? {
        ResolveReferenceBuilding(traceId, b, i, ref, storage);
      }
    }
  }

  /** The loop of `resolve_relations` after reference `j` of span `i` resolved to `after`. */
  lemma ResolveRelationsAfter(traceId: string, before: Build, after: Build, storage: map<string, SpanData>, i: nat, j: nat)
    requires Building(before.spans) && i < |before.spans| && j < |before.spans[i].references|
    requires Resolved(traceId, before, i, before.spans[i].references[j], storage) == Ok(after)
    ensures Building(after.spans) && i < |after.spans| && j + 1 <= |after.spans[i].references|
    ensures after.spans[i].references == before.spans[i].references
    ensures ResolveRelationsFrom(traceId, after, storage, i, j + 1) == ResolveRelationsFrom(traceId, before, storage, i, j)
    ensures (|after.spans| == |before.spans| && Ids(after.spans) == Ids(before.spans))
            || storage.Keys - Ids(after.spans) < storage.Keys - Ids(before.spans)
  {
    ResolveRelationsUnfold(traceId, before, storage, i, j);
    ResolveReferenceBuilding(traceId, before, i, before.spans[i].references[j], storage);
  }

  /** The invariant of the loop of `resolve_relations` over the references of span `i`. */
  predicate RefsLoop(traceId: string, b: Build, storage: map<string, SpanData>, i: nat, j: nat,
                     target: Result<Build, TraceError>, unseen: set<string>, n: nat)
  {
    && Building(b.spans) && i < |b.spans| && j <= |RefsOf(b.spans, i)|
    && ResolveRelationsFrom(traceId, b, storage, i, j) == target
    && (storage.Keys - Ids(b.spans) < unseen || (storage.Keys - Ids(b.spans) == unseen && |b.spans| == n))
  }

  /** Reference `j` resolved: the loop goes on with the next one, having fetched a span or not. */
  lemma RefsLoopStep(traceId: string, before: Build, after: Build, storage: map<string, SpanData>, i: nat, j: nat,
                     target: Result<Build, TraceError>, unseen: set<string>, n: nat)
    requires RefsLoop(traceId, before, storage, i, j, target, unseen, n) && j < |RefsOf(before.spans, i)|
    requires Resolved(traceId, before, i, before.spans[i].references[j], storage) == Ok(after)
    ensures RefsLoop(traceId, after, storage, i, j + 1, target, unseen, n)
    ensures || storage.Keys - Ids(after.spans) < storage.Keys - Ids(before.spans)
            || (storage.Keys - Ids(after.spans) == storage.Keys - Ids(before.spans)
                && |RefsOf(after.spans, i)| - (j + 1) < |RefsOf(before.spans, i)| - j)
  {
    ResolveRelationsAfter(traceId, before, after, storage, i, j);
  }

  /** Reference `j` failed to resolve: so does the whole loop. */
  lemma RefsLoopErr(traceId: string, b: Build, storage: map<string, SpanData>, i: nat, j: nat,
                    target: Result<Build, TraceError>, unseen: set<string>, n: nat, e: TraceError)
    requires RefsLoop(traceId, b, storage, i, j, target, unseen, n) && j < |RefsOf(b.spans, i)|
    requires Resolved(traceId, b, i, b.spans[i].references[j], storage) == Err(e)
    ensures target == Err(e)
  {
    ResolveRelationsUnfold(traceId, b, storage, i, j);
  }

  /** All references of span `i` resolved: the outer loop goes on with span `i + 1`. */
  lemma RefsLoopEnd(traceId: string, b: Build, storage: map<string, SpanData>, i: nat, j: nat,
                    target: Result<Build, TraceError>, unseen: set<string>, n: nat)
    requires RefsLoop(traceId, b, storage, i, j, target, unseen, n) && j == |RefsOf(b.spans, i)|
    ensures target == ResolveRelationsFrom(traceId, b, storage, i + 1, 0)
  {
    ResolveRelationsUnfold(traceId, b, storage, i, j);
  }

  // ---------------------------------------------------------------- get_root_span

  /** The indices of the spans of type root, in arena order. */
  function RootIndices(s: seq<Span>): (r: seq<nat>)
    ensures forall k :: 0 <= k < |r| ==> r[k] < |s| && s[r[k]].kind == Root
    ensures forall i :: 0 <= i < |s| && s[i].kind == Root ==> i in r
    ensures forall a, b :: 0 <= a < b < |r| ==> r[a] < r[b]
    decreases |s|
  {
    if s == [] then []
    else RootIndices(s[..|s| - 1]) + (if s[|s| - 1].kind == Root then [|s| - 1] else [])
  }

  /** `get_root_span`: the one span of type root; none or several abort the analysis. */
  function RootSpan(s: seq<Span>): (r: Result<nat, TraceError>)
    ensures r.Ok? ==> r.value < |s| && s[r.value].kind == Root
                      && forall i :: 0 <= i < |s| && i != r.value ==> s[i].kind != Root
    ensures r == Err(NoRootSpan) <==> forall i :: 0 <= i < |s| ==> s[i].kind != Root
    ensures r == Err(MultipleRootSpans) <==>
              exists a, b :: 0 <= a < b < |s| && s[a].kind == Root && s[b].kind == Root
  {
    var roots := RootIndices(s);
    if |roots| > 1 then
      assert roots[0] < roots[1];
      Err(MultipleRootSpans)
    else if |roots| == 0 then Err(NoRootSpan)
    else Ok(roots[0])
  }

  // ---------------------------------------------------------------- order_children

  /** The sort key of `order_children`: a span's start time. */
  function StartKey(s: seq<Span>): nat -> real
  {
    (i: nat) => if i < |s| then s[i].startTime as real else 0.0
  }

  /** `sorted(span.children, key=start_time)`: a stable sort. */
  function SortedChildren(s: seq<Span>, n: nat): (r: seq<nat>)
    requires WellFormed(s) && n < |s|
    ensures |r| == |s[n].children| && multiset(r) == multiset(s[n].children)
    ensures forall x :: x in r <==> x in s[n].children
    ensures forall k :: 0 <= k < |r| ==> r[k] < |s|
  {
    var r := SortBy(s[n].children, StartKey(s));
    SortByPermutation(s[n].children, StartKey(s));
    SameMembers(r, s[n].children);
    ChildrenInRange(s, n);
    assert forall k :: 0 <= k < |r| ==> r[k] in r;
    r
  }

  lemma SameMembers(xs: seq<nat>, ys: seq<nat>)
    requires multiset(xs) == multiset(ys)
    ensures forall x :: x in xs <==> x in ys
  {
    forall x ensures x in xs <==> x in ys {
      assert x in xs <==> x in multiset(xs);
      assert x in ys <==> x in multiset(ys);
    }
  }

  lemma ChildrenInRange(s: seq<Span>, n: nat)
    requires WellFormed(s) && n < |s|
    ensures forall x :: x in s[n].children ==> x < |s|
  {
    assert SpanInRange(s[n], |s|);
  }

  /**
   * The sorted children are the children, each once, sorted by start time, and children
   * with equal start times keep their order.
   */
  lemma SortedChildrenFacts(s: seq<Span>, n: nat)
    requires WellFormed(s) && n < |s| && Distinct(s[n].children)
    ensures Distinct(SortedChildren(s, n))
    ensures SortedBy(SortedChildren(s, n), StartKey(s))
    ensures forall t: real :: WithKey(SortedChildren(s, n), StartKey(s), t) == WithKey(s[n].children, StartKey(s), t)
  {
    var xs := s[n].children;
    var ys := SortedChildren(s, n);
    SortBySorted(xs, StartKey(s));
    forall t: real ensures WithKey(ys, StartKey(s), t) == WithKey(xs, StartKey(s), t) {
      SortByStable(xs, StartKey(s), t);
    }
    forall a, b | 0 <= a < b < |ys| ensures ys[a] != ys[b] {
      if ys[a] == ys[b] {
        DistinctCount(xs, ys[a]);
        TwiceCount(ys, a, b);
        assert false;
      }
    }
  }

  lemma {:induction false} DistinctCount(xs: seq<nat>, x: nat)
    requires Distinct(xs)
    ensures multiset(xs)[x] <= 1
    decreases |xs|
  {
    if xs != [] {
      var front := xs[..|xs| - 1];
      assert xs == front + [xs[|xs| - 1]];
      assert Distinct(front);
      DistinctCount(front, x);
      if x == xs[|xs| - 1] {
        assert x !in front;
      }
    }
  }

  lemma {:induction false} TwiceCount(ys: seq<nat>, a: nat, b: nat)
    requires a < b < |ys| && ys[a] == ys[b]
    ensures multiset(ys)[ys[a]] >= 2
  {
    var x := ys[a];
    assert ys == ys[..a] + [x] + ys[a + 1..b] + [x] + ys[b + 1..];
    assert multiset(ys) == multiset(ys[..a]) + multiset{x} + multiset(ys[a + 1..b]) + multiset{x} + multiset(ys[b + 1..]);
  }

  /** `r` differs from `s` in `previous` links only. */
  predicate OnlyPrevious(s: seq<Span>, r: seq<Span>)
  {
    |r| == |s| && forall i :: 0 <= i < |s| ==> r[i] == s[i].(previous := r[i].previous)
  }

  lemma OnlyPreviousTrans(s: seq<Span>, s1: seq<Span>, s2: seq<Span>)
    requires OnlyPrevious(s, s1) && OnlyPrevious(s1, s2)
    ensures OnlyPrevious(s, s2)
  {
  }

  lemma OnlyPreviousWalkable(s: seq<Span>, r: seq<Span>, path: seq<nat>)
    requires OnlyPrevious(s, r) && WellFormed(r) && Walkable(s, path)
    ensures SameTree(s, r) && Walkable(r, path)
  {
    assert SameTree(s, r);
    SameTreeKeepsTree(s, r);
    SameTreeKeepsPath(s, r, path);
  }

  /** Spans without parent and spans whose parent is in `anc` are the same in `r` as in `s`. */
  predicate Untouched(s: seq<Span>, r: seq<Span>, anc: seq<nat>)
  {
    |r| == |s| && forall x :: 0 <= x < |s| && (s[x].parent.None? || s[x].parent.value in anc) ==> r[x] == s[x]
  }

  function Ancestors(path: seq<nat>): seq<nat>
    requires |path| > 0
  {
    path[..|path| - 1]
  }

  /** What the walk of `order_children` needs to hold of the arena. */
  predicate Walkable(s: seq<Span>, path: seq<nat>)
  {
    Tree(s) && DistinctChildren(s) && IsPath(s, path)
  }

  /** `sorted` lists children of `n`, each once. */
  predicate ChildList(s: seq<Span>, n: nat, sorted: seq<nat>)
    requires n < |s|
  {
    && Distinct(sorted)
    && (forall x :: x in sorted ==> x in s[n].children)
    && (forall m :: 0 <= m < |sorted| ==> sorted[m] < |s|)
  }

  /** The arena after child `sorted[k]` received its predecessor as `previous`. */
  function LinkPrevious(s: seq<Span>, sorted: seq<nat>, k: nat): (r: seq<Span>)
    requires k < |sorted| && sorted[k] < |s| && (0 < k ==> sorted[k - 1] < |s|)
    requires WellFormed(s)
    ensures OnlyPrevious(s, r) && WellFormed(r)
  {
    var c := sorted[k];
    if 0 < k then
      UpdateKeepsWellFormed(s, c, s[c].(previous := Some(sorted[k - 1])));
      s[c := s[c].(previous := Some(sorted[k - 1]))]
    else s
  }

  /**
   * The loop of `order_children(span)` from position `k` of the sorted children `sorted`
   * of `span` = Last(path): each child after the first gets its predecessor as `previous`,
   * and then its own children are ordered.
   */
  function OrderFrom(s: seq<Span>, path: seq<nat>, sorted: seq<nat>, k: nat): (r: seq<Span>)
    requires Walkable(s, path) && k <= |sorted| && ChildList(s, Last(path), sorted)
    ensures OnlyPrevious(s, r) && WellFormed(r)
    decreases Unvisited(|s|, path), 0, |sorted| - k
  {
    if k == |sorted| then s
    else
      var c := sorted[k];
      ExtendPath(s, path, c);
      var s1 := LinkPrevious(s, sorted, k);
      OnlyPreviousWalkable(s, s1, path + [c]);
      var s2 := Ordered(s1, path + [c]);
      OnlyPreviousTrans(s, s1, s2);
      OnlyPreviousWalkable(s, s2, path);
      OnlyPreviousTrans(s, s2, OrderFrom(s2, path, sorted, k + 1));
      OrderFrom(s2, path, sorted, k + 1)
  }

  /** `order_children(span)` for `span` = Last(path); only `previous` links change. */
  function Ordered(s: seq<Span>, path: seq<nat>): (r: seq<Span>)
    requires Walkable(s, path)
    ensures OnlyPrevious(s, r) && WellFormed(r)
    decreases Unvisited(|s|, path), 1, 0
  {
    SortedChildrenFacts(s, Last(path));
    OrderFrom(s, path, SortedChildren(s, Last(path)), 0)
  }

  lemma ChildOf(s: seq<Span>, p: nat, c: nat)
    requires Tree(s) && p < |s| && c in s[p].children
    ensures c < |s| && s[c].parent == Some(p)
  {
    var j :| 0 <= j < |s[p].children| && s[p].children[j] == c;
  }

  /** The loop from position `k` leaves alone everything outside the subtree of Last(path). */
  lemma {:induction false} OrderFromUntouched(s: seq<Span>, path: seq<nat>, sorted: seq<nat>, k: nat)
    requires Walkable(s, path) && k <= |sorted| && ChildList(s, Last(path), sorted)
    ensures Untouched(s, OrderFrom(s, path, sorted, k), Ancestors(path))
    decreases Unvisited(|s|, path), 0, |sorted| - k
  {
    if k < |sorted| {
      var c := sorted[k];
      ExtendPath(s, path, c);
      var s1 := LinkPrevious(s, sorted, k);
      OnlyPreviousWalkable(s, s1, path + [c]);
      var s2 := Ordered(s1, path + [c]);
      OnlyPreviousWalkable(s, s2, path);
      var r := OrderFrom(s2, path, sorted, k + 1);
      assert r == OrderFrom(s, path, sorted, k);
      OrderChildrenUntouched(s1, path + [c]);
      OrderFromUntouched(s2, path, sorted, k + 1);
      assert Ancestors(path + [c]) == path;
      var p := Last(path);
      ChildOf(s, p, c);
      assert p !in Ancestors(path) by {
        assert path[|path| - 1] == p;
      }
      forall x | 0 <= x < |s| && (s[x].parent.None? || s[x].parent.value in Ancestors(path))
        ensures r[x] == s[x]
      {
        assert x != c;
        assert s1[x] == s[x];
        assert s[x].parent.Some? ==> s[x].parent.value in path;
        assert s2[x] == s1[x];
      }
    }
  }

  /** `order_children(Last(path))` changes nothing outside the subtree of Last(path). */
  lemma {:induction false} OrderChildrenUntouched(s: seq<Span>, path: seq<nat>)
    requires Walkable(s, path)
    ensures Untouched(s, Ordered(s, path), Ancestors(path))
    decreases Unvisited(|s|, path), 1, 0
  {
    SortedChildrenFacts(s, Last(path));
    OrderFromUntouched(s, path, SortedChildren(s, Last(path)), 0);
  }

  /** One turn of the loop of `order_children`. */
  lemma OrderFromStep(s: seq<Span>, path: seq<nat>, sorted: seq<nat>, k: nat)
    requires Walkable(s, path) && k < |sorted| && ChildList(s, Last(path), sorted)
    ensures Unvisited(|s|, path + [sorted[k]]) < Unvisited(|s|, path)
    ensures Walkable(LinkPrevious(s, sorted, k), path + [sorted[k]])
    ensures |LinkPrevious(s, sorted, k)| == |s|
    ensures var s2 := Ordered(LinkPrevious(s, sorted, k), path + [sorted[k]]);
            && Walkable(s2, path) && ChildList(s2, Last(path), sorted) && |s2| == |s|
            && OrderFrom(s, path, sorted, k) == OrderFrom(s2, path, sorted, k + 1)
  {
    var c := sorted[k];
    ExtendPath(s, path, c);
    var s1 := LinkPrevious(s, sorted, k);
    OnlyPreviousWalkable(s, s1, path + [c]);
    var s2 := Ordered(s1, path + [c]);
    OnlyPreviousTrans(s, s1, s2);
    OnlyPreviousWalkable(s, s2, path);
  }

  /** Ordering below a child of `p` leaves every child of `p` as it was. */
  lemma SiblingsUntouched(s1: seq<Span>, path: seq<nat>, c: nat, sorted: seq<nat>)
    requires |path| > 0 && Last(path) < |s1| && Walkable(s1, path + [c]) && ChildList(s1, Last(path), sorted)
    ensures forall m :: 0 <= m < |sorted| ==> Ordered(s1, path + [c])[sorted[m]] == s1[sorted[m]]
  {
    OrderChildrenUntouched(s1, path + [c]);
    assert Ancestors(path + [c]) == path;
    var p := Last(path);
    assert p in path;
    forall m | 0 <= m < |sorted| ensures Ordered(s1, path + [c])[sorted[m]] == s1[sorted[m]] {
      ChildOf(s1, p, sorted[m]);
    }
  }

  /** The loop from position `k`: every later child but the first gets its predecessor, earlier ones keep theirs. */
  lemma {:induction false} OrderFromPrevious(s: seq<Span>, path: seq<nat>, sorted: seq<nat>, k: nat)
    requires Walkable(s, path) && k <= |sorted| && ChildList(s, Last(path), sorted)
    ensures forall m {:trigger OrderFrom(s, path, sorted, k)[sorted[m]]} :: 0 <= m < |sorted| ==>
              OrderFrom(s, path, sorted, k)[sorted[m]].previous
                == (if k <= m && 0 < m then Some(sorted[m - 1]) else s[sorted[m]].previous)
    decreases |sorted| - k
  {
    if k < |sorted| {
      var c := sorted[k];
      OrderFromStep(s, path, sorted, k);
      var s1 := LinkPrevious(s, sorted, k);
      var s2 := Ordered(s1, path + [c]);
      var r := OrderFrom(s2, path, sorted, k + 1);
      OrderFromPrevious(s2, path, sorted, k + 1);
      SiblingsUntouched(s1, path, c, sorted);
      assert OrderFrom(s, path, sorted, k) == r;
      forall m {:trigger r[sorted[m]]} | 0 <= m < |sorted|
        ensures r[sorted[m]].previous == (if k <= m && 0 < m then Some(sorted[m - 1]) else s[sorted[m]].previous)
      {
        assert r[sorted[m]].previous == (if k + 1 <= m && 0 < m then Some(sorted[m - 1]) else s2[sorted[m]].previous);
        if m != k {
          assert sorted[m] != c;
          assert s1[sorted[m]] == s[sorted[m]];
        }
      }
    } else {
      assert OrderFrom(s, path, sorted, k) == s;
    }
  }

  /**
   * `order_children(span)` for `span` = Last(path): its children sorted by start time are
   * chained through `previous`; the first keeps its own.
   */
  lemma OrderChildrenPrevious(s: seq<Span>, path: seq<nat>)
    requires Walkable(s, path)
    ensures var sorted := SortedChildren(s, Last(path));
            var r := Ordered(s, path);
            && (forall m {:trigger r[sorted[m]]} :: 0 < m < |sorted| ==> r[sorted[m]].previous == Some(sorted[m - 1]))
            && (|sorted| > 0 ==> r[sorted[0]].previous == s[sorted[0]].previous)
  {
    var sorted := SortedChildren(s, Last(path));
    SortedChildrenFacts(s, Last(path));
    OrderFromPrevious(s, path, sorted, 0);
    assert Ordered(s, path) == OrderFrom(s, path, sorted, 0);
    if |sorted| > 0 {
      assert OrderFrom(s, path, sorted, 0)[sorted[0]].previous == s[sorted[0]].previous;
    }
  }

  /** Changing only `previous` links does not change the order of any span's children. */
  lemma SortedChildrenKept(s: seq<Span>, r: seq<Span>, n: nat)
    requires WellFormed(s) && WellFormed(r) && OnlyPrevious(s, r) && n < |s|
    ensures SortedChildren(r, n) == SortedChildren(s, n)
  {
    assert r[n].children == s[n].children;
    forall y: nat ensures StartKey(s)(y) == StartKey(r)(y) {
      if y < |s| {
        assert r[y].startTime == s[y].startTime;
      }
    }
    SortByAgree(s[n].children, StartKey(s), StartKey(r));
  }

  /** A span whose parent is `path[i0]` can only sit on `path` right after it. */
  lemma OnPathAfterParent(s: seq<Span>, path: seq<nat>, c: nat, i0: nat)
    requires IsPath(s, path) && i0 < |path| && c < |s| && s[c].parent == Some(path[i0])
    ensures forall i :: 0 <= i < |path| && path[i] == c ==> i == i0 + 1
  {
    forall i | 0 <= i < |path| && path[i] == c ensures i == i0 + 1 {
      assert i > 0;
      assert path[i - 1] == path[i0];
    }
  }

  /**
   * `order_children(Last(path))` leaves alone every span `Last(p)` that Last(path) is not an
   * ancestor of: it only writes below Last(path).
   */
  lemma {:induction false} OrderedOutside(s: seq<Span>, path: seq<nat>, p: seq<nat>)
    requires Walkable(s, path) && IsPath(s, p) && Last(path) !in Ancestors(p)
    ensures Ordered(s, path)[Last(p)] == s[Last(p)]
    decreases Unvisited(|s|, path), 1, 0
  {
    var sorted := SortedChildren(s, Last(path));
    SortedChildrenFacts(s, Last(path));
    forall j | 0 <= j < |sorted| ensures sorted[j] !in p {
      ChildOf(s, Last(path), sorted[j]);
      forall i | 0 <= i < |p| ensures p[i] != sorted[j] {
        if i > 0 {
          assert s[p[i]].parent == Some(p[i - 1]);
          assert p[i - 1] in Ancestors(p);
        }
      }
    }
    OrderFromOutside(s, path, sorted, 0, p);
  }

  /** Linking child `sorted[k]` off `p` leaves the end of `p` alone and the walk below it possible. */
  lemma LinkPreviousOutside(s: seq<Span>, path: seq<nat>, sorted: seq<nat>, k: nat, p: seq<nat>)
    requires Walkable(s, path) && k < |sorted| && ChildList(s, Last(path), sorted) && IsPath(s, p)
    requires sorted[k] !in p
    ensures var s1 := LinkPrevious(s, sorted, k);
            && s1[Last(p)] == s[Last(p)] && IsPath(s1, p) && sorted[k] !in Ancestors(p)
            && Walkable(s1, path + [sorted[k]])
  {
    var c := sorted[k];
    OrderFromStep(s, path, sorted, k);
    var s1 := LinkPrevious(s, sorted, k);
    assert c != Last(p);
    OnlyPreviousWalkable(s, s1, path);
    SameTreeKeepsPath(s, s1, p);
  }

  /** The loop of `order_children` from position `k` leaves alone the spans of `p` when no later child is on `p`. */
  lemma {:induction false} OrderFromOutside(s: seq<Span>, path: seq<nat>, sorted: seq<nat>, k: nat, p: seq<nat>)
    requires Walkable(s, path) && k <= |sorted| && ChildList(s, Last(path), sorted) && IsPath(s, p)
    requires forall j :: k <= j < |sorted| ==> sorted[j] !in p
    ensures OrderFrom(s, path, sorted, k)[Last(p)] == s[Last(p)]
    decreases Unvisited(|s|, path), 0, |sorted| - k
  {
    if k < |sorted| {
      var c := sorted[k];
      OrderFromStep(s, path, sorted, k);
      var s1 := LinkPrevious(s, sorted, k);
      var s2 := Ordered(s1, path + [c]);
      assert OrderFrom(s, path, sorted, k) == OrderFrom(s2, path, sorted, k + 1);
      LinkPreviousOutside(s, path, sorted, k, p);
      OrderedOutside(s1, path + [c], p);
      OnlyPreviousWalkable(s, s2, path);
      SameTreeKeepsPath(s, s2, p);
      OrderFromOutside(s2, path, sorted, k + 1, p);
    }
  }

  /** `p` descends through `children` lists: the recursion of `order_children` from `p[0]` reaches Last(p) along it. */
  predicate ChildChain(s: seq<Span>, p: seq<nat>)
  {
    forall k :: 0 < k < |p| ==> ChildAt(s, p, k)
  }

  /** `p[k]` is one of the children of `p[k - 1]`. */
  predicate ChildAt(s: seq<Span>, p: seq<nat>, k: nat)
  {
    0 < k < |p| && p[k - 1] < |s| && p[k] in s[p[k - 1]].children
  }

  /**
   * In `r`, the children of `n` in start-time order are chained through `previous`, each to
   * the one before it, and the first keeps the link it had in `s`.
   */
  predicate ChainedChildren(s: seq<Span>, r: seq<Span>, n: nat)
    requires WellFormed(s) && n < |s| && |r| == |s|
  {
    var sorted := SortedChildren(s, n);
    && (forall m {:trigger r[sorted[m]]} :: 0 < m < |sorted| ==> r[sorted[m]].previous == Some(sorted[m - 1]))
    && (|sorted| > 0 ==> r[sorted[0]].previous == s[sorted[0]].previous)
  }

  lemma ChainedAt(s: seq<Span>, r: seq<Span>, n: nat, m: nat)
    requires WellFormed(s) && n < |s| && |r| == |s| && ChainedChildren(s, r, n)
    requires m < |SortedChildren(s, n)|
    ensures m > 0 ==> r[SortedChildren(s, n)[m]].previous == Some(SortedChildren(s, n)[m - 1])
    ensures m == 0 ==> r[SortedChildren(s, n)[0]].previous == s[SortedChildren(s, n)[0]].previous
  {
  }

  /**
   * `order_children(Last(q))` chains the sorted children of every span it reaches: of
   * Last(p) for each path `p` that extends `q` through `children` lists.
   */
  lemma {:induction false} OrderedChains(s: seq<Span>, q: seq<nat>, p: seq<nat>)
    requires Walkable(s, q) && IsPath(s, p) && ChildChain(s, p) && |q| <= |p| && p[..|q|] == q
    ensures ChainedChildren(s, Ordered(s, q), Last(p))
    decreases Unvisited(|s|, q), 1, 0
  {
    if |q| == |p| {
      assert q == p;
      OrderChildrenPrevious(s, p);
    } else {
      var sorted := SortedChildren(s, Last(q));
      SortedChildrenFacts(s, Last(q));
      var c := p[|q|];
      assert p[|q| - 1] == Last(q);
      assert ChildAt(s, p, |q|);
      assert c in sorted;
      var j :| 0 <= j < |sorted| && sorted[j] == c;
      OrderFromChains(s, q, sorted, 0, p, j);
    }
  }

  lemma PrefixExtend(p: seq<nat>, q: seq<nat>)
    requires |q| < |p| && p[..|q|] == q
    ensures p[..|q| + 1] == q + [p[|q|]]
  {
  }

  lemma SameTreeKeepsChain(s: seq<Span>, r: seq<Span>, p: seq<nat>)
    requires SameTree(s, r) && ChildChain(s, p)
    ensures ChildChain(r, p)
  {
    forall k | 0 < k < |p| ensures ChildAt(r, p, k) {
      assert ChildAt(s, p, k);
    }
  }

  lemma SortedChildrenMembers(s: seq<Span>, n: nat)
    requires WellFormed(s) && n < |s|
    ensures forall m :: 0 <= m < |SortedChildren(s, n)| ==> SortedChildren(s, n)[m] in s[n].children
  {
  }

  /** The chain is a statement about `previous` links only: it carries over between arenas that agree on them. */
  lemma ChainedMoved(s: seq<Span>, s': seq<Span>, r: seq<Span>, r': seq<Span>, n: nat)
    requires WellFormed(s) && WellFormed(s') && n < |s| && |s'| == |s| && |r| == |s| && |r'| == |s|
    requires SortedChildren(s', n) == SortedChildren(s, n)
    requires forall m :: 0 <= m < |SortedChildren(s, n)| ==>
               s'[SortedChildren(s, n)[m]].previous == s[SortedChildren(s, n)[m]].previous
               && r'[SortedChildren(s, n)[m]].previous == r[SortedChildren(s, n)[m]].previous
    requires ChainedChildren(s', r, n)
    ensures ChainedChildren(s, r', n)
  {
    var sorted := SortedChildren(s, n);
    forall m | 0 < m < |sorted| ensures r'[sorted[m]].previous == Some(sorted[m - 1]) {
      ChainedAt(s', r, n, m);
    }
    if |sorted| > 0 {
      ChainedAt(s', r, n, 0);
    }
  }

  /** A child `x` of the end of `p` extends `p` to a path, in every arena with the same tree. */
  lemma ExtendByChild(s: seq<Span>, r: seq<Span>, p: seq<nat>, x: nat)
    requires Tree(s) && IsPath(s, p) && x in s[Last(p)].children && SameTree(s, r)
    ensures IsPath(r, p + [x]) && Ancestors(p + [x]) == p && Last(p + [x]) == x
  {
    ExtendPath(s, p, x);
    SameTreeKeepsPath(s, r, p + [x]);
  }

  /** A sibling walked before the one on `p` leaves the children of Last(p) alone. */
  lemma EarlierSiblingOutside(s: seq<Span>, q: seq<nat>, sorted: seq<nat>, k: nat, p: seq<nat>, s1: seq<Span>)
    requires Walkable(s, q) && ChildList(s, Last(q), sorted) && IsPath(s, p)
    requires 0 < |q| < |p| && p[..|q|] == q && k < |sorted| && sorted[k] != p[|q|]
    requires s1 == LinkPrevious(s, sorted, k) && Walkable(s1, q + [sorted[k]])
    ensures forall x :: x in s[Last(p)].children ==> Ordered(s1, q + [sorted[k]])[x] == s[x]
  {
    var c := sorted[k];
    ChildOf(s, Last(q), c);
    assert p[|q| - 1] == Last(q);
    OnPathAfterParent(s, p, c, |q| - 1);
    assert c !in p;
    forall x | x in s[Last(p)].children ensures Ordered(s1, q + [c])[x] == s[x] {
      ExtendByChild(s, s, p, x);
      LinkPreviousOutside(s, q, sorted, k, p + [x]);
      OrderedOutside(s1, q + [c], p + [x]);
    }
  }

  /** The siblings after the one on `p` leave the children of Last(p) alone. */
  lemma LaterSiblingsOutside(s: seq<Span>, q: seq<nat>, sorted: seq<nat>, k: nat, p: seq<nat>, j: nat)
    requires Walkable(s, q) && ChildList(s, Last(q), sorted) && IsPath(s, p)
    requires 0 < |q| < |p| && p[..|q|] == q && j < k <= |sorted| && sorted[j] == p[|q|]
    ensures forall x :: x in s[Last(p)].children ==> OrderFrom(s, q, sorted, k)[x] == s[x]
  {
    assert p[|q| - 1] == Last(q);
    forall x | x in s[Last(p)].children ensures OrderFrom(s, q, sorted, k)[x] == s[x] {
      ExtendByChild(s, s, p, x);
      forall j' | k <= j' < |sorted| ensures sorted[j'] !in p + [x] {
        ChildOf(s, Last(q), sorted[j']);
        OnPathAfterParent(s, p + [x], sorted[j'], |q| - 1);
        assert sorted[j'] != sorted[j];
      }
      OrderFromOutside(s, q, sorted, k, p + [x]);
    }
  }

  /** The loop from position `k <= j`, where `sorted[j]` is the next span of `p` after `q`. */
  lemma {:induction false} OrderFromChains(s: seq<Span>, q: seq<nat>, sorted: seq<nat>, k: nat, p: seq<nat>, j: nat)
    requires Walkable(s, q) && ChildList(s, Last(q), sorted) && IsPath(s, p) && ChildChain(s, p)
    requires |q| < |p| && p[..|q|] == q && k <= j < |sorted| && sorted[j] == p[|q|]
    ensures ChainedChildren(s, OrderFrom(s, q, sorted, k), Last(p))
    decreases Unvisited(|s|, q), 0, |sorted| - k, 1
  {
    if k < j {
      OrderFromSiblingStep(s, q, sorted, k, p, j);
    } else {
      OrderFromOnPathStep(s, q, sorted, k, p);
    }
  }

  /** Linking a child of Last(q) leaves the children of a deeper span of `p` alone. */
  lemma LinkSkipsDeeper(s: seq<Span>, q: seq<nat>, sorted: seq<nat>, k: nat, p: seq<nat>)
    requires Walkable(s, q) && ChildList(s, Last(q), sorted) && IsPath(s, p)
    requires 0 < |q| < |p| && p[..|q|] == q && k < |sorted|
    ensures forall x :: x in s[Last(p)].children ==> LinkPrevious(s, sorted, k)[x] == s[x]
  {
    var c := sorted[k];
    ChildOf(s, Last(q), c);
    assert p[|q| - 1] == Last(q);
    assert Last(p) != Last(q);
    forall x | x in s[Last(p)].children ensures LinkPrevious(s, sorted, k)[x] == s[x] {
      ChildOf(s, Last(p), x);
    }
  }

  /** The turn of the loop for the sibling on `p`: its walk chains the children of Last(p). */
  lemma {:induction false} OrderFromOnPathStep(s: seq<Span>, q: seq<nat>, sorted: seq<nat>, k: nat, p: seq<nat>)
    requires Walkable(s, q) && ChildList(s, Last(q), sorted) && IsPath(s, p) && ChildChain(s, p)
    requires |q| < |p| && p[..|q|] == q && k < |sorted| && sorted[k] == p[|q|]
    ensures ChainedChildren(s, OrderFrom(s, q, sorted, k), Last(p))
    decreases Unvisited(|s|, q), 0, |sorted| - k, 0
  {
    var c := sorted[k];
    var n := Last(p);
    OrderFromStep(s, q, sorted, k);
    var s1 := LinkPrevious(s, sorted, k);
    var s2 := Ordered(s1, q + [c]);
    var r := OrderFrom(s2, q, sorted, k + 1);
    assert OrderFrom(s, q, sorted, k) == r;
    SameTreeKeepsPath(s, s1, p);
    SameTreeKeepsChain(s, s1, p);
    PrefixExtend(p, q);
    OrderedChains(s1, q + [c], p);
    LinkSkipsDeeper(s, q, sorted, k, p);
    OnlyPreviousWalkable(s, s2, q);
    SameTreeKeepsPath(s, s2, p);
    LaterSiblingsOutside(s2, q, sorted, k + 1, p, k);
    SortedChildrenKept(s, s1, n);
    SortedChildrenMembers(s, n);
    ChainedMoved(s, s1, s2, r, n);
  }

  /** A turn of the loop for a sibling before the one on `p`. */
  lemma {:induction false} OrderFromSiblingStep(s: seq<Span>, q: seq<nat>, sorted: seq<nat>, k: nat, p: seq<nat>, j: nat)
    requires Walkable(s, q) && ChildList(s, Last(q), sorted) && IsPath(s, p) && ChildChain(s, p)
    requires |q| < |p| && p[..|q|] == q && k < j < |sorted| && sorted[j] == p[|q|]
    ensures ChainedChildren(s, OrderFrom(s, q, sorted, k), Last(p))
    decreases Unvisited(|s|, q), 0, |sorted| - k, 0
  {
    var c := sorted[k];
    var n := Last(p);
    OrderFromStep(s, q, sorted, k);
    var s1 := LinkPrevious(s, sorted, k);
    var s2 := Ordered(s1, q + [c]);
    var r := OrderFrom(s2, q, sorted, k + 1);
    OnlyPreviousWalkable(s, s2, q);
    SortedChildrenKept(s, s2, n);
    SameTreeKeepsPath(s, s2, p);
    SameTreeKeepsChain(s, s2, p);
    EarlierSiblingOutside(s, q, sorted, k, p, s1);
    OrderFromChains(s2, q, sorted, k + 1, p, j);
    SortedChildrenMembers(s, n);
    ChainedMoved(s, s2, r, r, n);
  }

  /**
   * `order_children(root)` chains, for every span it reaches, that span's children in
   * start-time order through `previous`; the first child keeps the link it had.
   */
  lemma OrderedFromRootChains(s: seq<Span>, root: nat, p: seq<nat>, n: nat, m: nat)
    requires Walkable(s, [root]) && IsPath(s, p) && ChildChain(s, p) && p[0] == root && n == Last(p)
    requires m < |SortedChildren(s, n)|
    ensures m > 0 ==> Ordered(s, [root])[SortedChildren(s, n)[m]].previous == Some(SortedChildren(s, n)[m - 1])
    ensures m == 0 ==> Ordered(s, [root])[SortedChildren(s, n)[0]].previous == s[SortedChildren(s, n)[0]].previous
  {
    assert p[..1] == [root];
    OrderedChains(s, [root], p);
    ChainedAt(s, Ordered(s, [root]), n, m);
  }

  // ---------------------------------------------------------------- get_error_strands

  /** The span `n` steps along the `caused` links from `x`, if the chain is that long. */
  function Follow(s: seq<Span>, x: nat, n: nat): (r: Option<nat>)
    requires WellFormed(s) && x < |s|
    ensures r.Some? ==> r.value < |s|
  {
    if n == 0 then Some(x)
    else match Follow(s, x, n - 1)
      case None => None
      case Some(y) => s[y].caused
  }

  /**
   * `get_caused_strand` of `x`, whose chain so far is `trail`: the last span of the `caused`
   * chain, or `None` when the chain comes back to a span it passed (the source then recurses
   * until Python's recursion limit).
   */
  function CausedTail(s: seq<Span>, x: nat, trail: seq<nat>): (r: Option<nat>)
    requires WellFormed(s) && x < |s|
    ensures r.Some? ==> r.value < |s| && s[r.value].caused.None?
    decreases Unvisited(|s|, trail)
  {
    if x in trail then None
    else if s[x].caused.None? then Some(x)
    else
      assert x in Unvisited(|s|, trail) - Unvisited(|s|, trail + [x]);
      CausedTail(s, s[x].caused.value, trail + [x])
  }

  /**
   * The tail found is where the chain from `x0` ends; no tail means the chain revisits a
   * span, so it never ends.
   */
  lemma {:induction false} CausedTailMeaning(s: seq<Span>, x0: nat, trail: seq<nat>, x: nat)
    requires WellFormed(s) && x0 < |s| && x < |s|
    requires forall j :: 0 <= j < |trail| ==> Follow(s, x0, j) == Some(trail[j])
    requires Follow(s, x0, |trail|) == Some(x)
    ensures CausedTail(s, x, trail).Some? ==>
              exists n :: |trail| <= n && Follow(s, x0, n) == CausedTail(s, x, trail)
                          && Follow(s, x0, n + 1).None?
    ensures CausedTail(s, x, trail).None? ==>
              exists i, j :: 0 <= i < j && Follow(s, x0, j).Some? && Follow(s, x0, i) == Follow(s, x0, j)
    decreases Unvisited(|s|, trail)
  {
    if x in trail {
      var i :| 0 <= i < |trail| && trail[i] == x;
      assert Follow(s, x0, i) == Follow(s, x0, |trail|);
    } else if s[x].caused.None? {
      assert Follow(s, x0, |trail| + 1).None?;
    } else {
      var y := s[x].caused.value;
      var trail' := trail + [x];
      assert x in Unvisited(|s|, trail) - Unvisited(|s|, trail');
      assert Follow(s, x0, |trail'|) == Some(y);
      CausedTailMeaning(s, x0, trail', y);
    }
  }

  /** The strand of a root-cause candidate: the span, and the end of its `caused` chain if that is another span. */
  function StrandOf(s: seq<Span>, c: nat): (r: Option<seq<nat>>)
    requires WellFormed(s) && c < |s|
    ensures r.Some? ==>
              (1 <= |r.value| <= 2 && r.value[0] == c
               && (|r.value| == 1 <==> s[c].caused.None?)
               && Some(r.value[|r.value| - 1]) == CausedTail(s, c, []))
    ensures r.None? <==> CausedTail(s, c, []).None?
  {
    match CausedTail(s, c, [])
    case None => None
    case Some(t) =>
      if t == c then Some([c]) else Some([c, t])
  }

  /** The root-cause candidates: errored spans that no other span caused, in arena order. */
  function Candidates(s: seq<Span>): (r: seq<nat>)
    ensures forall k :: 0 <= k < |r| ==> r[k] < |s| && s[r[k]].error && s[r[k]].causedBy.None?
    ensures forall i :: 0 <= i < |s| && s[i].error && s[i].causedBy.None? ==> i in r
    ensures forall a, b :: 0 <= a < b < |r| ==> r[a] < r[b]
    decreases |s|
  {
    if s == [] then []
    else Candidates(s[..|s| - 1]) + (if s[|s| - 1].error && s[|s| - 1].causedBy.None? then [|s| - 1] else [])
  }

  /** Why `get_error_strands` does not return. */
  datatype StrandError = RecursionError(spanId: string)

  /** The strands of the candidates `cs`, in their order; the first cyclic chain aborts. */
  function StrandsOf(s: seq<Span>, cs: seq<nat>): (r: Result<seq<seq<nat>>, StrandError>)
    requires WellFormed(s) && forall k :: 0 <= k < |cs| ==> cs[k] < |s|
    ensures r.Ok? <==> forall k :: 0 <= k < |cs| ==> StrandOf(s, cs[k]).Some?
    ensures r.Ok? ==> |r.value| == |cs| && forall k :: 0 <= k < |cs| ==> Some(r.value[k]) == StrandOf(s, cs[k])
    ensures r.Err? ==> exists k :: 0 <= k < |cs| && StrandOf(s, cs[k]).None?
                                   && r.error == RecursionError(s[cs[k]].spanId)
    decreases |cs|
  {
    if cs == [] then Ok([])
    else
      match StrandOf(s, cs[0])
      case None => Err(RecursionError(s[cs[0]].spanId))
      case Some(st) =>
        match StrandsOf(s, cs[1..])
        case Err(e) => Err(e)
        case Ok(rest) => Ok([st] + rest)
  }

  /** `get_error_strands`. */
  function ErrorStrands(s: seq<Span>): Result<seq<seq<nat>>, StrandError>
    requires WellFormed(s)
  {
    StrandsOf(s, Candidates(s))
  }

  // ---------------------------------------------------------------- error counts

  lemma {:induction false} ErrorCountPointwise(s: seq<Span>, r: seq<Span>)
    requires |s| == |r| && forall i :: 0 <= i < |s| ==> r[i].error == s[i].error
    ensures ErrorCount(r) == ErrorCount(s)
    decreases |s|
  {
    if s != [] {
      ErrorCountPointwise(s[..|s| - 1], r[..|r| - 1]);
    }
  }

  /** Resolving a reference keeps the error tally equal to the number of errored spans. */
  lemma ResolveReferenceCounts(traceId: string, b: Build, i: nat, ref: Reference, storage: map<string, SpanData>)
    requires i < |b.spans| && b.errorCount == ErrorCount(b.spans)
    requires Resolved(traceId, b, i, ref, storage).Ok?
    ensures var r := Resolved(traceId, b, i, ref, storage).value;
            r.errorCount == ErrorCount(r.spans)
  {
    var (b1, target) := Locate(traceId, b, ref.spanId, storage).value;
    if |IndicesWithId(b.spans, ref.spanId)| == 0 {
      ErrorCountAppend(b.spans, NewSpan(traceId, ref.spanId, storage[ref.spanId]).value);
    }
    match AttachKind(ref.refType)
    case None =>
    case Some(kind) =>
      var s := Attach(b1.spans, target, i, kind).value;
      ErrorCountPointwise(b1.spans, s);
  }

  /** After `resolve_relations`, `error_count` still counts the errored spans, fetched ones included. */
  lemma {:induction false} ResolveRelationsCounts(traceId: string, b: Build, storage: map<string, SpanData>, i: nat, j: nat)
    requires Building(b.spans) && i <= |b.spans| && j <= |RefsOf(b.spans, i)|
    requires b.errorCount == ErrorCount(b.spans)
    requires ResolveRelationsFrom(traceId, b, storage, i, j).Ok?
    ensures ResolveRelationsFrom(traceId, b, storage, i, j).value.errorCount
            == ErrorCount(ResolveRelationsFrom(traceId, b, storage, i, j).value.spans)
    decreases storage.Keys - Ids(b.spans), |b.spans| - i, |RefsOf(b.spans, i)| - j
  {
    ResolveRelationsUnfold(traceId, b, storage, i, j);
    if i < |b.spans| && j == |b.spans[i].references| {
      ResolveRelationsCounts(traceId, b, storage, i + 1, 0);
    } else if i < |b.spans| {
      var ref := b.spans[i].references[j];
      var b1 := Resolved(traceId, b, i, ref, storage).value;
      ResolveRelationsAfter(traceId, b, b1, storage, i, j);
      ResolveReferenceCounts(traceId, b, i, ref, storage);
      ResolveRelationsCounts(traceId, b1, storage, i, j + 1);
    }
  }

  // ---------------------------------------------------------------- Trace.__init__

  /** The fields of a trace once `__init__` has finished. */
  datatype Built = Built(spans: seq<Span>, errorCount: int, rootSpan: nat, startTime: int, filename: string)

  function TraceFileName(traceId: string): string
  {
    "trace_" + traceId + ".html"
  }

  /**
   * `Trace(trace_id, spans)`: spans from the records, references resolved, the single root
   * found, its start time taken and the children ordered from the root down.
   */
  function BuildTrace(traceId: string, records: seq<(string, SpanData)>, storage: map<string, SpanData>): Result<Built, TraceError>
    requires DistinctKeys(records)
  {
    match SpansOf(traceId, records)
    case Err(e) => Err(e)
    case Ok(s0) =>
      InitSpansBuilding(traceId, records);
      BuildFrom(traceId, Build(s0, ErrorCount(s0)), storage)
  }

  /** Once the spans exist, `BuildTrace` continues with `BuildFrom`. */
  lemma BuildTraceInitialised(traceId: string, records: seq<(string, SpanData)>, storage: map<string, SpanData>, s0: seq<Span>)
    requires DistinctKeys(records) && SpansOf(traceId, records) == Ok(s0)
    ensures Building(s0)
    ensures BuildTrace(traceId, records, storage) == BuildFrom(traceId, Build(s0, ErrorCount(s0)), storage)
  {
    InitSpansBuilding(traceId, records);
  }

  /** The rest of `__init__` once the spans exist: references resolved, then `Finish`. */
  function BuildFrom(traceId: string, b0: Build, storage: map<string, SpanData>): Result<Built, TraceError>
    requires Building(b0.spans)
  {
    match ResolveRelationsFrom(traceId, b0, storage, 0, 0)
    case Err(e) => Err(e)
    case Ok(b1) => Finish(traceId, b1)
  }

  /** The end of `__init__`: the single root found, its start time taken, the children ordered. */
  function Finish(traceId: string, b1: Build): Result<Built, TraceError>
    requires Building(b1.spans)
  {
    match RootSpan(b1.spans)
    case Err(e) => Err(e)
    case Ok(root) =>
      RootWalkable(b1.spans, root);
      Ok(Built(Ordered(b1.spans, [root]), b1.errorCount, root, b1.spans[root].startTime, TraceFileName(traceId)))
  }

  /** The walk of `order_children` can start at the root. */
  lemma RootWalkable(s: seq<Span>, root: nat)
    requires Building(s) && root < |s| && s[root].kind == Root
    ensures Walkable(s, [root])
  {
  }

  /**
   * The end of `__init__` keeps the tree and the error tally and leaves exactly one root, the
   * span without parent.
   */
  lemma FinishFacts(traceId: string, b1: Build)
    requires Building(b1.spans) && Finish(traceId, b1).Ok?
    ensures var t := Finish(traceId, b1).value;
            && Tree(t.spans) && UniqueIds(t.spans) && DistinctChildren(t.spans)
            && |t.spans| == |b1.spans| && t.rootSpan < |t.spans|
            && t.spans[t.rootSpan].kind == Root && t.spans[t.rootSpan].parent.None?
            && (forall i :: 0 <= i < |t.spans| && i != t.rootSpan ==>
                  t.spans[i].kind != Root && t.spans[i].parent.Some?)
            && t.startTime == t.spans[t.rootSpan].startTime
            && t.errorCount == b1.errorCount && ErrorCount(t.spans) == ErrorCount(b1.spans)
            && t.filename == TraceFileName(traceId)
  {
    var root := RootSpan(b1.spans).value;
    RootWalkable(b1.spans, root);
    var s2 := Ordered(b1.spans, [root]);
    OnlyPreviousWalkable(b1.spans, s2, [root]);
    ErrorCountPointwise(b1.spans, s2);
    assert forall i :: 0 <= i < |s2| ==> s2[i].kind == b1.spans[i].kind && s2[i].spanId == b1.spans[i].spanId;
  }

  /**
   * A built trace is a tree with exactly one root, the span without parent; its error count
   * is the number of errored spans; it holds every input record, in input order, ahead of the
   * spans fetched from storage.
   */
  lemma BuildTraceFacts(traceId: string, records: seq<(string, SpanData)>, storage: map<string, SpanData>)
    requires DistinctKeys(records) && BuildTrace(traceId, records, storage).Ok?
    ensures var t := BuildTrace(traceId, records, storage).value;
            && Tree(t.spans) && UniqueIds(t.spans) && DistinctChildren(t.spans)
            && t.rootSpan < |t.spans|
            && t.spans[t.rootSpan].kind == Root && t.spans[t.rootSpan].parent.None?
            && (forall i :: 0 <= i < |t.spans| && i != t.rootSpan ==>
                  t.spans[i].kind != Root && t.spans[i].parent.Some?)
            && t.startTime == t.spans[t.rootSpan].startTime
            && t.errorCount == ErrorCount(t.spans)
            && |records| <= |t.spans|
            && (forall i :: 0 <= i < |records| ==> t.spans[i].spanId == records[i].0)
            && t.filename == TraceFileName(traceId)
  {
    var s0 := SpansOf(traceId, records).value;
    BuildTraceInitialised(traceId, records, storage, s0);
    var b0 := Build(s0, ErrorCount(s0));
    var b1 := ResolveRelationsFrom(traceId, b0, storage, 0, 0).value;
    ResolveRelationsCounts(traceId, b0, storage, 0, 0);
    assert BuildTrace(traceId, records, storage) == Finish(traceId, b1);
    FinishFacts(traceId, b1);
  }

  // ---------------------------------------------------------------- the Trace object

  /** A trace under construction and, once built, under analysis. */
  class Trace {
    var traceId: string
    var spans: seq<Span>
    var errorCount: int
    var rootSpan: nat
    var startTime: int
    var filename: string

    /** The first two statements of `__init__`. */
    constructor (traceId: string)
      ensures this.traceId == traceId && spans == [] && errorCount == 0
    {
      this.traceId := traceId;
      spans := [];
      errorCount := 0;
      rootSpan := 0;
      startTime := 0;
      filename := "";
    }

    /** `self.spans = self.init_spans(spans)`; `error_count` grows by each errored span. */
    method InitSpans(records: seq<(string, SpanData)>) returns (r: Result<(), TraceError>)
      modifies this
      ensures traceId == old(traceId)
      ensures r.Err? ==> SpansOf(traceId, records) == Err(r.error)
      ensures r.Ok? ==> SpansOf(traceId, records) == Ok(spans)
                        && errorCount == old(errorCount) + ErrorCount(spans)
    {
      var result: seq<Span> := [];
      var count := errorCount;
      var k := 0;
      assert records[..0] == [];
      while k < |records|
        invariant traceId == old(traceId) && InitLoop(traceId, records, k, result, count, old(errorCount))
      {
        var obj := NewSpan(traceId, records[k].0, records[k].1);
        if obj.Err? {
          InitLoopErr(traceId, records, k, result, count, old(errorCount), obj.error);
          return Err(SpanRecordError(records[k].0, obj.error));
        }
        InitLoopStep(traceId, records, k, result, count, old(errorCount), obj.value);
        if obj.value.error {
          count := count + 1;
        }
        result := result + [obj.value];
        k := k + 1;
      }
      InitLoopEnd(traceId, records, k, result, count, old(errorCount));
      spans := result;
      errorCount := count;
      return Ok(());
    }

    /** `add_span`: the new span goes to the end of the list; its index is returned. */
    method AddSpan(spanId: string, data: SpanData) returns (r: Result<nat, SpanError>)
      modifies this
      ensures r.Err? ==> NewSpan(traceId, spanId, data) == Err(r.error)
                         && spans == old(spans) && errorCount == old(errorCount)
      ensures r.Ok? ==> NewSpan(traceId, spanId, data).Ok?
                        && spans == old(spans) + [NewSpan(traceId, spanId, data).value]
                        && r.value == |old(spans)|
                        && errorCount == old(errorCount) + (if spans[r.value].error then 1 else 0)
      ensures traceId == old(traceId)
    {
      match NewSpan(traceId, spanId, data)
      case Err(e) => return Err(e);
      case Ok(x) =>
        if x.error {
          errorCount := errorCount + 1;
        }
        spans := spans + [x];
        return Ok(|spans| - 1);
    }

    /** `child.set_parent(parent)`: the parent slot is written once. */
    method SetParent(child: nat, parent: nat) returns (r: Result<(), TraceError>)
      requires child < |spans| && parent < |spans|
      modifies this
      ensures r.Err? <==> old(spans)[child].parent.Some?
      ensures r.Err? ==> r.error == CircularDependency(old(spans)[child].spanId) && spans == old(spans)
      ensures r.Ok? ==> spans == old(spans)[child := old(spans)[child].(parent := Some(parent))]
      ensures traceId == old(traceId) && errorCount == old(errorCount)
    {
      if spans[child].parent.Some? {
        return Err(CircularDependency(spans[child].spanId));
      }
      spans := spans[child := spans[child].(parent := Some(parent))];
      return Ok(());
    }

    /** `parent.add_child(child)` (kind Child) and `parent.add_follower(child)` (kind Follower). */
    method AddChild(parent: nat, child: nat, kind: SpanKind) returns (r: Result<(), TraceError>)
      requires child < |spans| && parent < |spans|
      modifies this
      ensures r.Err? ==> Attach(old(spans), parent, child, kind) == Err(r.error) && spans == old(spans)
      ensures r.Ok? ==> Attach(old(spans), parent, child, kind) == Ok(spans)
      ensures traceId == old(traceId) && errorCount == old(errorCount)
    {
      r := SetParent(child, parent);
      if r.Err? {
        return;
      }
      ghost var s0 := old(spans);
      spans := spans[child := spans[child].(kind := kind)];
      assert spans == s0[child := s0[child].(parent := Some(parent), kind := kind)];
      spans := spans[parent := spans[parent].(children := spans[parent].children + [child])];
    }

    /** `resolve_reference(spans[i], ref)`. */
    method ResolveReference(i: nat, ref: Reference, storage: map<string, SpanData>) returns (r: Result<(), TraceError>)
      requires i < |spans|
      modifies this
      ensures traceId == old(traceId)
      ensures r.Err? ==> Resolved(traceId, old(Build(spans, errorCount)), i, ref, storage) == Err(r.error)
      ensures r.Ok? ==> Resolved(traceId, old(Build(spans, errorCount)), i, ref, storage)
                        == Ok(Build(spans, errorCount))
    {
      ghost var b := Build(spans, errorCount);
      var located := LocateSpan(ref.spanId, storage);
      if located.Err? {
        assert Locate(traceId, b, ref.spanId, storage) == Err(located.error);
        return Err(located.error);
      }
      var target := located.value;
      ghost var b1 := Build(spans, errorCount);
      assert Locate(traceId, b, ref.spanId, storage) == Ok((b1, target));
      assert i < |spans|;
      match AttachKind(ref.refType)
      case None =>
        return Ok(());
      case Some(kind) =>
        r := AddChild(target, i, kind);
        assert r.Err? ==> Resolved(traceId, b, i, ref, storage) == Err(r.error);
        assert r.Ok? ==> Resolved(traceId, b, i, ref, storage) == Ok(Build(spans, errorCount));
    }

    /** The first half of `resolve_reference`: the span `id` names, fetched from `storage` if need be. */
    method LocateSpan(id: string, storage: map<string, SpanData>) returns (r: Result<nat, TraceError>)
      modifies this
      ensures traceId == old(traceId)
      ensures r.Err? ==> Locate(traceId, old(Build(spans, errorCount)), id, storage) == Err(r.error)
      ensures r.Ok? ==> Locate(traceId, old(Build(spans, errorCount)), id, storage)
                        == Ok((Build(spans, errorCount), r.value))
    {
      ghost var b := Build(spans, errorCount);
      var found := IndicesWithId(spans, id);
      if |found| > 1 {
        return Err(DuplicateSpanId(id));
      }
      if |found| == 1 {
        return Ok(found[0]);
      }
      if id !in storage {
        return Err(UnresolvedReference(id));
      }
      var added := AddSpan(id, storage[id]);
      if added.Err? {
        assert Fetch(traceId, b, id, storage) == Err(UnresolvedReference(id));
        return Err(UnresolvedReference(id));
      }
      ghost var x := NewSpan(traceId, id, storage[id]).value;
      assert spans == b.spans + [x] && added.value == |b.spans|;
      assert errorCount == b.errorCount + (if x.error then 1 else 0);
      assert Fetch(traceId, b, id, storage) == Ok((Build(spans, errorCount), added.value));
      return Ok(added.value);
    }

    /**
     * `resolve_relations`: every reference of every span, spans fetched on the way
     * included (the loop over `self.spans` sees the spans appended to it).
     */
    method ResolveRelations(storage: map<string, SpanData>) returns (r: Result<(), TraceError>)
      requires Building(spans)
      modifies this
      ensures traceId == old(traceId)
      ensures r.Err? ==> ResolveRelationsFrom(traceId, old(Build(spans, errorCount)), storage, 0, 0) == Err(r.error)
      ensures r.Ok? ==> ResolveRelationsFrom(traceId, old(Build(spans, errorCount)), storage, 0, 0)
                        == Ok(Build(spans, errorCount))
    {
      ghost var target := ResolveRelationsFrom(traceId, Build(spans, errorCount), storage, 0, 0);
      var i := 0;
      while i < |spans|
        invariant traceId == old(traceId)
        invariant Building(spans) && i <= |spans|
        invariant ResolveRelationsFrom(traceId, Build(spans, errorCount), storage, i, 0) == target
        decreases storage.Keys - Ids(spans), |spans| - i
      {
        r := ResolveReferencesOf(i, storage);
        if r.Err? {
          return;
        }
        i := i + 1;
      }
      ResolveRelationsUnfold(traceId, Build(spans, errorCount), storage, i, 0);
      return Ok(());
    }

    /** The inner loop of `resolve_relations`: the references of span `i`, in order. */
    method ResolveReferencesOf(i: nat, storage: map<string, SpanData>) returns (r: Result<(), TraceError>)
      requires Building(spans) && i < |spans|
      modifies this
      ensures traceId == old(traceId)
      ensures r.Err? ==> ResolveRelationsFrom(traceId, old(Build(spans, errorCount)), storage, i, 0) == Err(r.error)
      ensures r.Ok? ==> Building(spans) && i < |spans|
                        && ResolveRelationsFrom(traceId, old(Build(spans, errorCount)), storage, i, 0)
                           == ResolveRelationsFrom(traceId, Build(spans, errorCount), storage, i + 1, 0)
      ensures r.Ok? ==> storage.Keys - Ids(spans) < old(storage.Keys - Ids(spans))
                        || (storage.Keys - Ids(spans) == old(storage.Keys - Ids(spans)) && |spans| == old(|spans|))
    {
      ghost var target := ResolveRelationsFrom(traceId, Build(spans, errorCount), storage, i, 0);
      ghost var unseen, n := storage.Keys - Ids(spans), |spans|;
      var j := 0;
      while j < |spans[i].references|
        invariant traceId == old(traceId)
        invariant RefsLoop(traceId, Build(spans, errorCount), storage, i, j, target, unseen, n)
        decreases storage.Keys - Ids(spans), |RefsOf(spans, i)| - j
      {
        ghost var before := Build(spans, errorCount);
        var ref := spans[i].references[j];
        r := ResolveReference(i, ref, storage);
        if r.Err? {
          RefsLoopErr(traceId, before, storage, i, j, target, unseen, n, r.error);
          return;
        }
        RefsLoopStep(traceId, before, Build(spans, errorCount), storage, i, j, target, unseen, n);
        j := j + 1;
      }
      RefsLoopEnd(traceId, Build(spans, errorCount), storage, i, j, target, unseen, n);
      return Ok(());
    }

    /** `set_error_count`: the number of errored spans. */
    method SetErrorCount()
      modifies this
      ensures errorCount == ErrorCount(spans) && spans == old(spans) && traceId == old(traceId)
    {
      var n := 0;
      var k := 0;
      while k < |spans|
        invariant k <= |spans| && n == ErrorCount(spans[..k])
        invariant spans == old(spans) && traceId == old(traceId)
      {
        assert spans[..k + 1] == spans[..k] + [spans[k]];
        ErrorCountAppend(spans[..k], spans[k]);
        if spans[k].error {
          n := n + 1;
        }
        k := k + 1;
      }
      assert spans[..k] == spans;
      errorCount := n;
    }

    /** The rest of `__init__` once the spans exist: `resolve_relations`, then `Finish`. */
    method Complete(storage: map<string, SpanData>) returns (r: Result<(), TraceError>)
      requires Building(spans)
      modifies this
      ensures traceId == old(traceId)
      ensures r.Err? ==> BuildFrom(traceId, old(Build(spans, errorCount)), storage) == Err(r.error)
      ensures r.Ok? ==> BuildFrom(traceId, old(Build(spans, errorCount)), storage)
                        == Ok(Built(spans, errorCount, rootSpan, startTime, filename))
    {
      var ok := ResolveRelations(storage);
      if ok.Err? {
        return ok;
      }
      r := FindRoot();
    }

    /** `get_root_span`, the start time of the root, `order_children` from the root and the file name. */
    method FindRoot() returns (r: Result<(), TraceError>)
      requires Building(spans)
      modifies this
      ensures traceId == old(traceId)
      ensures r.Err? ==> Finish(traceId, old(Build(spans, errorCount))) == Err(r.error)
      ensures r.Ok? ==> Finish(traceId, old(Build(spans, errorCount)))
                        == Ok(Built(spans, errorCount, rootSpan, startTime, filename))
    {
      match RootSpan(spans)
      case Err(e) =>
        return Err(e);
      case Ok(root) =>
        ghost var b1 := Build(spans, errorCount);
        rootSpan := root;
        startTime := spans[root].startTime;
        RootWalkable(spans, root);
        OrderChildren(root, [root]);
        filename := "trace_" + traceId + ".html";
        assert spans == Ordered(b1.spans, [root]) && errorCount == b1.errorCount;
        assert startTime == b1.spans[root].startTime && filename == TraceFileName(traceId);
        return Ok(());
    }

    /** `order_children(spans[n])`, for `n` = Last(path) reached from the root along `path`. */
    method OrderChildren(n: nat, ghost path: seq<nat>)
      requires Walkable(spans, path) && Last(path) == n
      modifies this
      ensures spans == Ordered(old(spans), path)
      ensures traceId == old(traceId) && errorCount == old(errorCount)
      ensures rootSpan == old(rootSpan) && startTime == old(startTime) && filename == old(filename)
      decreases Unvisited(|spans|, path), 1
    {
      var sorted := SortedChildren(spans, n);
      SortedChildrenFacts(spans, n);
      assert Ordered(spans, path) == OrderFrom(spans, path, sorted, 0);
      var k := 0;
      while k < |sorted|
        invariant k <= |sorted| && |spans| == |old(spans)|
        invariant Walkable(spans, path) && ChildList(spans, n, sorted)
        invariant OrderFrom(spans, path, sorted, k) == Ordered(old(spans), path)
        invariant traceId == old(traceId) && errorCount == old(errorCount)
        invariant rootSpan == old(rootSpan) && startTime == old(startTime) && filename == old(filename)
      {
        OrderFromStep(spans, path, sorted, k);
        OrderChild(sorted, k, path);
        k := k + 1;
      }
      assert OrderFrom(spans, path, sorted, k) == spans;
    }

    /** One turn of the loop of `order_children`: link `sorted[k]` to its predecessor, then order below it. */
    method OrderChild(sorted: seq<nat>, k: nat, ghost path: seq<nat>)
      requires Walkable(spans, path) && k < |sorted| && ChildList(spans, Last(path), sorted)
      requires Walkable(LinkPrevious(spans, sorted, k), path + [sorted[k]])
      modifies this
      ensures spans == Ordered(LinkPrevious(old(spans), sorted, k), path + [sorted[k]])
      ensures traceId == old(traceId) && errorCount == old(errorCount)
      ensures rootSpan == old(rootSpan) && startTime == old(startTime) && filename == old(filename)
      decreases Unvisited(|spans|, path), 0
    {
      var c := sorted[k];
      ExtendPath(spans, path, c);
      spans := LinkPrevious(spans, sorted, k);
      OrderChildren(c, path + [c]);
    }
  }

  /**
   * `Trace(trace_id, spans)` with the spans of `storage` available to resolve references
   * to spans the records do not hold.
   */
  method NewTrace(traceId: string, records: seq<(string, SpanData)>, storage: map<string, SpanData>)
    returns (r: Result<Trace, TraceError>)
    requires DistinctKeys(records)
    ensures r.Err? ==> BuildTrace(traceId, records, storage) == Err(r.error)
    ensures r.Ok? ==>
              (fresh(r.value) && r.value.traceId == traceId
               && BuildTrace(traceId, records, storage)
                  == Ok(Built(r.value.spans, r.value.errorCount, r.value.rootSpan, r.value.startTime, r.value.filename)))
  {
    var t := new Trace(traceId);
    var ok := t.InitSpans(records);
    if ok.Err? {
      assert SpansOf(traceId, records) == Err(ok.error);
      return Err(ok.error);
    }
    ghost var s0, e0 := t.spans, t.errorCount;
    assert t.traceId == traceId && e0 == ErrorCount(s0);
    BuildTraceInitialised(traceId, records, storage, s0);
    ok := t.Complete(storage);
    ghost var built := BuildFrom(traceId, Build(s0, e0), storage);
    if ok.Err? {
      assert built == Err(ok.error);
      return Err(ok.error);
    }
    assert built == Ok(Built(t.spans, t.errorCount, t.rootSpan, t.startTime, t.filename));
    return Ok(t);
  }
}
