/**
 * The Elasticsearch helpers of src/trace_explorer/queries/elasticsearch_helper.py and
 * src/queries/elasticsearch_helper.py: the query bodies sent to the span index, and the
 * flattening of the result pages into the stored span records.
 */
module Elasticsearch {
  import opened Wrappers
  import opened Values
  import opened Jaeger

  /** A JSON value; an object keeps its members in the order they are written. */
  datatype Json =
    | JNull
    | JBool(b: bool)
    | JInt(i: int)
    | JStr(s: string)
    | JArr(items: seq<Json>)
    | JObj(members: seq<(string, Json)>)

  // ---------------------------------------------------------------------------
  // Query bodies

  function Range(gte: int, lte: int): Json
  {
    JObj([("range", JObj([("startTime", JObj([("gte", JInt(gte)), ("lte", JInt(lte))]))]))])
  }

  function MustAll(qs: seq<Json>): Json
  {
    JObj([("bool", JObj([("must", JArr(qs))]))])
  }

  function MatchField(field: string, v: Json): Json
  {
    JObj([("match", JObj([(field, v)]))])
  }

  function ErrorTagClause(): Json
  {
    JObj([("nested", JObj([
      ("path", JStr("tags")),
      ("score_mode", JStr("avg")),
      ("query", ErrorTagMatch())]))])
  }

  /** `get_span_query` of the trace_explorer package. */
  function SpanQuery(gte: int, lte: int): Json
  {
    Range(gte, lte)
  }

  /** `get_error_query` of the trace_explorer package. */
  function ErrorQuery(gte: int, lte: int): Json
  {
    MustAll([Range(gte, lte), ErrorTagClause()])
  }

  /** `get_single_span_query`. */
  function SingleSpanQuery(spanId: string): Json
  {
    MustAll([MatchField("spanID", JStr(spanId))])
  }

  /** `get_span_query` of the older package: the same clause as a request body. */
  function LegacySpanQuery(gte: int, lte: int): Json
  {
    JObj([("query", Range(gte, lte))])
  }

  /** `get_error_query` of the older package. */
  function LegacyErrorQuery(gte: int, lte: int): Json
  {
    JObj([("query", MustAll([Range(gte, lte), ErrorTagClause()]))])
  }

  // ---------------------------------------------------------------------------
  // What a query selects

  /** The first member called `key` of an object. */
  function Member(j: Json, key: string): Option<Json>
  {
    if !j.JObj? then None else Lookup(j.members, key)
  }

  function Lookup(ms: seq<(string, Json)>, key: string): (r: Option<Json>)
    ensures r.Some? ==> exists k :: 0 <= k < |ms| && ms[k] == (key, r.value)
    ensures r.None? ==> forall k :: 0 <= k < |ms| ==> ms[k].0 != key
    decreases |ms|
  {
    if ms == [] then None
    else if ms[0].0 == key then Some(ms[0].1)
    else
      var r := Lookup(ms[1..], key);
      assert r.Some? ==> exists k :: 0 <= k < |ms[1..]| && ms[1..][k] == (key, r.value);
      assert forall k :: 0 < k < |ms| ==> ms[k] == ms[1..][k - 1];
      r
  }

  /** The only member of a one-member object. */
  predicate Single(j: Json)
  {
    j.JObj? && |j.members| == 1
  }

  /** A JSON scalar against a tag value, as a `match` on a keyword field compares them. */
  predicate SameScalar(j: Json, v: Value)
  {
    match j
    case JNull => v == VNone
    case JBool(b) => v == VBool(b)
    case JInt(i) => v == VInt(i)
    case JStr(s) => v == VStr(s)
    case _ => false
  }

  /**
   * Whether a stored record satisfies a query, for the clauses these helpers use:
   * `range` on `startTime`, `match` on `spanID`, `bool` with `must`, `nested` on `tags`
   * and a `query` request body around them. `None` for any other query.
   */
  function Selects(q: Json, x: RawSpan): Option<bool>
    decreases q
  {
    if !Single(q) then None
    else
      var key := q.members[0].0;
      var body := q.members[0].1;
      assert body < q;
      if key == "query" then Selects(body, x)
      else if key == "bool" && Member(body, "must").Some? && Member(body, "must").value.JArr? then
        var must := Member(body, "must").value;
        assert must < body;
        var qs := must.items;
        if exists i :: 0 <= i < |qs| && Selects(qs[i], x).None? then None
        else Some(forall i :: 0 <= i < |qs| ==> Selects(qs[i], x).value)
      else if key == "range" then RangeHolds(body, x)
      else if key == "match" then MatchHolds(body, x)
      else if key == "nested" then NestedHolds(body, x)
      else None
  }

  /** A `range` clause on `startTime`; either bound may be absent, and both are inclusive. */
  function RangeHolds(body: Json, x: RawSpan): Option<bool>
  {
    if !(Single(body) && body.members[0].0 == "startTime") then None
    else
      var bounds := body.members[0].1;
      var lo := Member(bounds, "gte");
      var hi := Member(bounds, "lte");
      if (lo.Some? && !lo.value.JInt?) || (hi.Some? && !hi.value.JInt?) then None
      else Some((lo.None? || lo.value.i <= x.startTime) && (hi.None? || x.startTime <= hi.value.i))
  }

  /** A `match` clause on `spanID`. */
  function MatchHolds(body: Json, x: RawSpan): Option<bool>
  {
    if Single(body) && body.members[0].0 == "spanID" && body.members[0].1.JStr? then
      Some(x.spanId == Some(body.members[0].1.s))
    else None
  }

  /** A `nested` clause on `tags`: some tag satisfies the inner query. */
  function NestedHolds(body: Json, x: RawSpan): Option<bool>
  {
    if Member(body, "path") == Some(JStr("tags")) && Member(body, "query").Some? && TagQuery(Member(body, "query").value) then
      Some(exists k :: 0 <= k < |x.tags| && TagSelects(Member(body, "query").value, x.tags[k]))
    else None
  }

  /** One clause inside a nested `tags` query: a `match` on `tags.key` or `tags.value`. */
  predicate TagClause(q: Json)
  {
    && Single(q) && q.members[0].0 == "match" && Single(q.members[0].1)
    && (q.members[0].1.members[0].0 == "tags.key" || q.members[0].1.members[0].0 == "tags.value")
  }

  predicate TagQuery(q: Json)
  {
    && Single(q) && q.members[0].0 == "bool"
    && Member(q.members[0].1, "must").Some? && Member(q.members[0].1, "must").value.JArr?
    && forall c :: c in Member(q.members[0].1, "must").value.items ==> TagClause(c)
  }

  predicate TagClauseSelects(c: Json, t: Tag)
    requires TagClause(c)
  {
    var field := c.members[0].1.members[0].0;
    var v := c.members[0].1.members[0].1;
    if field == "tags.key" then v == JStr(t.key) else SameScalar(v, t.value)
  }

  /** A tag satisfies every clause of a nested `tags` query. */
  predicate TagSelects(q: Json, t: Tag)
    requires TagQuery(q)
  {
    forall c :: c in Member(q.members[0].1, "must").value.items ==> TagClauseSelects(c, t)
  }

  /** A `query` request body selects what its clause selects. */
  lemma RequestBodySelects(q: Json, x: RawSpan)
    ensures Selects(JObj([("query", q)]), x) == Selects(q, x)
  {
  }

  lemma RangeSelects(gte: int, lte: int, x: RawSpan)
    ensures Selects(Range(gte, lte), x) == Some(gte <= x.startTime <= lte)
  {
    var bounds := JObj([("gte", JInt(gte)), ("lte", JInt(lte))]);
    assert Member(bounds, "gte") == Some(JInt(gte));
    assert "gte" != "lte" by { assert "gte"[0] != "lte"[0]; }
    LookupSecond("gte", "lte", JInt(gte), JInt(lte));
  }

  /** `get_span_query` selects the records whose start time lies in `[gte, lte]`, bounds included. */
  lemma SpanQuerySelects(gte: int, lte: int, x: RawSpan)
    ensures Selects(SpanQuery(gte, lte), x) == Some(gte <= x.startTime <= lte)
    ensures Selects(LegacySpanQuery(gte, lte), x) == Selects(SpanQuery(gte, lte), x)
  {
    RangeSelects(gte, lte, x);
    RequestBodySelects(Range(gte, lte), x);
  }

  /** Two distinct keys: the object's second member is found under its own key. */
  lemma LookupSecond(a: string, b: string, va: Json, vb: Json)
    requires a != b
    ensures Lookup([(a, va), (b, vb)], b) == Some(vb)
  {
    assert [(a, va), (b, vb)][1..] == [(b, vb)];
  }

  /** `must` with two clauses selects what both select. */
  lemma MustTwoSelects(a: Json, b: Json, x: RawSpan)
    ensures Selects(MustAll([a, b]), x)
            == if Selects(a, x).Some? && Selects(b, x).Some? then Some(Selects(a, x).value && Selects(b, x).value) else None
  {
    var body := JObj([("must", JArr([a, b]))]);
    assert Member(body, "must") == Some(JArr([a, b]));
    var qs := [a, b];
    assert qs[0] == a && qs[1] == b;
  }

  function ErrorTagMatch(): Json
  {
    MustAll([MatchField("tags.key", JStr("error")), MatchField("tags.value", JBool(true))])
  }

  /** The inner query of the nested clause holds for exactly the tag `error` = `true`. */
  lemma ErrorTagMatchSelects(t: Tag)
    ensures TagQuery(ErrorTagMatch())
    ensures TagSelects(ErrorTagMatch(), t) <==> t == Tag("error", VBool(true))
  {
    var clauses := [MatchField("tags.key", JStr("error")), MatchField("tags.value", JBool(true))];
    assert Member(JObj([("must", JArr(clauses))]), "must") == Some(JArr(clauses));
    assert "tags.key" != "tags.value" by { assert "tags.key"[5] != "tags.value"[5]; }
    assert clauses[0] in clauses && clauses[1] in clauses;
    assert forall c :: c in clauses ==> c == clauses[0] || c == clauses[1];
  }

  lemma ErrorTagClauseSelects(x: RawSpan)
    ensures Selects(ErrorTagClause(), x) == Some(exists k :: 0 <= k < |x.tags| && x.tags[k] == Tag("error", VBool(true)))
  {
    var inner := ErrorTagMatch();
    var members := [("path", JStr("tags")), ("score_mode", JStr("avg")), ("query", inner)];
    assert ErrorTagClause() == JObj([("nested", JObj(members))]);
    assert Member(JObj(members), "path") == Some(JStr("tags"));
    assert "path" != "query" by { assert "path"[0] != "query"[0]; }
    assert "score_mode" != "query" by { assert "score_mode"[0] != "query"[0]; }
    assert members[1..] == [("score_mode", JStr("avg")), ("query", inner)];
    LookupSecond("score_mode", "query", JStr("avg"), inner);
    forall k | 0 <= k < |x.tags| ensures TagSelects(inner, x.tags[k]) <==> x.tags[k] == Tag("error", VBool(true)) {
      ErrorTagMatchSelects(x.tags[k]);
    }
    ErrorTagMatchSelects(Tag("error", VBool(true)));
    assert NestedHolds(JObj(members), x) == Some(exists k :: 0 <= k < |x.tags| && x.tags[k] == Tag("error", VBool(true)));
  }

  /** `get_error_query` adds that some tag is `error` with the value `true`. */
  lemma ErrorQuerySelects(gte: int, lte: int, x: RawSpan)
    ensures Selects(ErrorQuery(gte, lte), x)
            == Some(gte <= x.startTime <= lte && exists k :: 0 <= k < |x.tags| && x.tags[k] == Tag("error", VBool(true)))
    ensures Selects(LegacyErrorQuery(gte, lte), x) == Selects(ErrorQuery(gte, lte), x)
  {
    MustTwoSelects(Range(gte, lte), ErrorTagClause(), x);
    RangeSelects(gte, lte, x);
    ErrorTagClauseSelects(x);
    RequestBodySelects(ErrorQuery(gte, lte), x);
  }

  /** `get_single_span_query` selects the records with that span id. */
  lemma SingleSpanQuerySelects(spanId: string, x: RawSpan)
    ensures Selects(SingleSpanQuery(spanId), x) == Some(x.spanId == Some(spanId))
  {
    var m := MatchField("spanID", JStr(spanId));
    assert Member(JObj([("must", JArr([m]))]), "must") == Some(JArr([m]));
    assert [m][0] == m;
  }

  // ---------------------------------------------------------------------------
  // Result pages

  /** `hits.total`: a count, the `{"value": …, "relation": …}` object of newer servers, or absent. */
  datatype Total = Count(n: int) | Described(value: int, relation: string) | NoTotal

  /** `if not hits.get('total')`: an absent total and a count of 0 are falsy, an object is not. */
  predicate TotalTruthy(t: Total)
  {
    match t
    case Count(n) => n != 0
    case Described(_, _) => true
    case NoTotal => false
  }

  /** One hit: its `_type`, absent in `None`, and its `_source`. */
  datatype Hit = Hit(docType: Option<string>, source: RawSpan)

  datatype Page = Page(total: Total, hits: seq<Hit>)

  datatype MetadataError = UnexpectedType(docType: Option<string>)  // 'Dataset is of type: …'

  /** The `_type` values each package accepts. */
  const DOC_TYPES: set<string> := {"span", "_doc"}
  const LEGACY_DOC_TYPES: set<string> := {"span"}

  predicate Accepted(h: Hit, accepted: set<string>)
  {
    h.docType.Some? && h.docType.value in accepted
  }

  /** The sources of one page's hits, or the first hit of a type not accepted. */
  function PageSources(hits: seq<Hit>, accepted: set<string>): (r: Result<seq<RawSpan>, MetadataError>)
    ensures r.Ok? <==> forall k :: 0 <= k < |hits| ==> Accepted(hits[k], accepted)
    ensures r.Ok? ==> |r.value| == |hits| && forall k :: 0 <= k < |hits| ==> r.value[k] == hits[k].source
    decreases |hits|
  {
    if hits == [] then Ok([])
    else if !Accepted(hits[0], accepted) then Err(UnexpectedType(hits[0].docType))
    else
      match PageSources(hits[1..], accepted)
      case Err(e) => Err(e)
      case Ok(rest) => Ok([hits[0].source] + rest)
  }

  /**
   * The pages walked in order: `Ok(None)` once a page with a falsy total is reached,
   * `Err` at the first hit of a type not accepted, otherwise the sources collected.
   */
  function Walk(pages: seq<Page>, accepted: set<string>): Result<Option<seq<RawSpan>>, MetadataError>
    decreases |pages|
  {
    if pages == [] then Ok(Some([]))
    else if !TotalTruthy(pages[0].total) then Ok(None)
    else
      match PageSources(pages[0].hits, accepted)
      case Err(e) => Err(e)
      case Ok(here) =>
        match Walk(pages[1..], accepted)
        case Err(e) => Err(e)
        case Ok(None) => Ok(None)
        case Ok(Some(rest)) => Ok(Some(here + rest))
  }

  /** `remove_elasticsearch_metadata`: a falsy total anywhere gives `[]`. */
  function Flattened(pages: seq<Page>, accepted: set<string>): Result<seq<RawSpan>, MetadataError>
  {
    match Walk(pages, accepted)
    case Err(e) => Err(e)
    case Ok(None) => Ok([])
    case Ok(Some(r)) => Ok(r)
  }

  /** Every source of every page, page by page and hit by hit. */
  function AllSources(pages: seq<Page>): seq<RawSpan>
    decreases |pages|
  {
    if pages == [] then [] else Sources(pages[0].hits) + AllSources(pages[1..])
  }

  function Sources(hits: seq<Hit>): (r: seq<RawSpan>)
    ensures |r| == |hits| && forall k :: 0 <= k < |hits| ==> r[k] == hits[k].source
  {
    seq(|hits|, k requires 0 <= k < |hits| => hits[k].source)
  }

  predicate AllTruthy(pages: seq<Page>)
  {
    forall p :: 0 <= p < |pages| ==> TotalTruthy(pages[p].total)
  }

  predicate PageAccepted(page: Page, accepted: set<string>)
  {
    forall k :: 0 <= k < |page.hits| ==> Accepted(page.hits[k], accepted)
  }

  lemma PageSourcesAll(page: Page, accepted: set<string>)
    requires PageAccepted(page, accepted)
    ensures PageSources(page.hits, accepted) == Ok(Sources(page.hits))
  {
    var r := PageSources(page.hits, accepted);
    assert r.Ok?;
    assert r.value == Sources(page.hits);
  }

  predicate AllAccepted(pages: seq<Page>, accepted: set<string>)
  {
    forall p :: 0 <= p < |pages| ==> PageAccepted(pages[p], accepted)
  }

  /** With every total truthy and every type accepted, the result is every source, in order. */
  lemma {:induction false} FlattenedConcatenates(pages: seq<Page>, accepted: set<string>)
    requires AllTruthy(pages) && AllAccepted(pages, accepted)
    ensures Flattened(pages, accepted) == Ok(AllSources(pages))
    ensures Walk(pages, accepted) == Ok(Some(AllSources(pages)))
    decreases |pages|
  {
    if pages != [] {
      var rest := pages[1..];
      assert forall p :: 0 <= p < |rest| ==> rest[p] == pages[p + 1];
      FlattenedConcatenates(rest, accepted);
      assert PageAccepted(pages[0], accepted);
      PageSourcesAll(pages[0], accepted);
    }
  }

  /**
   * A page with a falsy total discards everything, the pages before it included, as long
   * as no earlier hit has a type that is not accepted.
   */
  lemma {:induction false} FalsyTotalDiscards(pages: seq<Page>, accepted: set<string>, f: nat)
    requires f < |pages| && !TotalTruthy(pages[f].total)
    requires AllAccepted(pages[..f], accepted)
    ensures Flattened(pages, accepted) == Ok([])
    ensures Walk(pages, accepted).Ok? && Walk(pages, accepted).value.None?
    decreases |pages|
  {
    if f > 0 && TotalTruthy(pages[0].total) {
      var rest := pages[1..];
      var before := rest[..f - 1];
      forall p | 0 <= p < |before| ensures PageAccepted(before[p], accepted) {
        assert before[p] == pages[..f][p + 1];
      }
      assert pages[..f][0] == pages[0];
      FalsyTotalDiscards(rest, accepted, f - 1);
    }
  }

  /** A hit of a type not accepted fails the call, unless an earlier page has a falsy total. */
  lemma {:induction false} UnexpectedTypeFails(pages: seq<Page>, accepted: set<string>, p: nat, k: nat)
    requires p < |pages| && k < |pages[p].hits| && !Accepted(pages[p].hits[k], accepted)
    requires AllTruthy(pages[..p + 1])
    ensures Flattened(pages, accepted).Err?
    decreases |pages|
  {
    assert pages[..p + 1][0] == pages[0];
    if p > 0 {
      var rest := pages[1..];
      assert rest[..p] == pages[1..p + 1];
      assert AllTruthy(rest[..p]) by {
        forall q | 0 <= q < p ensures TotalTruthy(rest[..p][q].total) {
          assert rest[..p][q] == pages[..p + 1][q + 1];
        }
      }
      UnexpectedTypeFails(rest, accepted, p - 1, k);
      WalkFails(pages, accepted);
    }
  }

  lemma WalkFails(pages: seq<Page>, accepted: set<string>)
    requires pages != [] && TotalTruthy(pages[0].total) && Walk(pages[1..], accepted).Err?
    ensures Walk(pages, accepted).Err?
  {
  }

  /**
   * Accepting more types changes nothing where the narrower set succeeds: the older
   * package (`span` only) and the newer (`span` and `_doc`) agree wherever the older
   * one returns.
   */
  lemma {:induction false} WiderAcceptanceAgrees(pages: seq<Page>, narrow: set<string>, wide: set<string>)
    requires narrow <= wide && Flattened(pages, narrow).Ok?
    ensures Flattened(pages, wide) == Flattened(pages, narrow)
    ensures Walk(pages, wide) == Walk(pages, narrow)
    decreases |pages|
  {
    if pages != [] && TotalTruthy(pages[0].total) {
      PageSourcesWider(pages[0].hits, narrow, wide);
      WiderAcceptanceAgrees(pages[1..], narrow, wide);
    }
  }

  lemma PageSourcesWider(hits: seq<Hit>, narrow: set<string>, wide: set<string>)
    requires narrow <= wide && PageSources(hits, narrow).Ok?
    ensures PageSources(hits, wide) == PageSources(hits, narrow)
  {
    assert forall k :: 0 <= k < |hits| ==> Accepted(hits[k], narrow) ==> Accepted(hits[k], wide);
  }

  /** A `_doc` hit, which the newer package accepts, fails the older one. */
  lemma DocTypeOnlyNewer(total: Total, x: RawSpan)
    requires TotalTruthy(total)
    ensures Flattened([Page(total, [Hit(Some("_doc"), x)])], DOC_TYPES) == Ok([x])
    ensures Flattened([Page(total, [Hit(Some("_doc"), x)])], LEGACY_DOC_TYPES).Err?
  {
    var h := Hit(Some("_doc"), x);
    var pages := [Page(total, [h])];
    assert "_doc" != "span" by { assert "_doc"[0] != "span"[0]; }
    assert "_doc" in DOC_TYPES;
    assert "_doc" !in LEGACY_DOC_TYPES;
    assert Accepted(h, DOC_TYPES) && !Accepted(h, LEGACY_DOC_TYPES);
    assert [h][1..] == [];
    assert PageSources([h][1..], DOC_TYPES) == Ok([]);
    assert [x] + [] == [x];
    assert PageSources([h], DOC_TYPES) == Ok([x]);
    assert pages[1..] == [];
    assert Walk(pages, DOC_TYPES) == Ok(Some([x] + []));
  }

  /** The sources collected so far, put before what the rest of the walk gives. */
  function Continue(done: seq<RawSpan>, w: Result<Option<seq<RawSpan>>, MetadataError>): Result<Option<seq<RawSpan>>, MetadataError>
  {
    match w
    case Ok(Some(rest)) => Ok(Some(done + rest))
    case _ => w
  }

  lemma ContinueNothing(w: Result<Option<seq<RawSpan>>, MetadataError>)
    ensures Continue([], w) == w
  {
    if w.Ok? && w.value.Some? {
      assert [] + w.value.value == w.value.value;
    }
  }

  /** The rest of one page, then the pages after it. */
  function ThenPages(page: Result<seq<RawSpan>, MetadataError>, w: Result<Option<seq<RawSpan>>, MetadataError>): Result<Option<seq<RawSpan>>, MetadataError>
  {
    match page
    case Err(e) => Err(e)
    case Ok(here) => Continue(here, w)
  }

  /** One accepted hit, taken off the front of a page. */
  lemma HitTaken(done: seq<RawSpan>, spans: seq<Hit>, j: nat, accepted: set<string>, w: Result<Option<seq<RawSpan>>, MetadataError>)
    requires j < |spans| && Accepted(spans[j], accepted)
    ensures Continue(done, ThenPages(PageSources(spans[j..], accepted), w))
            == Continue(done + [spans[j].source], ThenPages(PageSources(spans[j + 1..], accepted), w))
  {
    assert spans[j..][1..] == spans[j + 1..];
    assert spans[j..][0] == spans[j];
    var s := spans[j].source;
    match PageSources(spans[j + 1..], accepted)
    case Err(_) =>
    case Ok(rest) =>
      match w
      case Ok(Some(later)) =>
        assert done + (([s] + rest) + later) == (done + [s]) + (rest + later);
      case _ =>
  }

  /** One page with a truthy total, taken off the front of the walk. */
  lemma PageTaken(data: seq<Page>, i: nat, accepted: set<string>)
    requires i < |data| && TotalTruthy(data[i].total)
    ensures Walk(data[i..], accepted) == ThenPages(PageSources(data[i].hits, accepted), Walk(data[i + 1..], accepted))
  {
    var d := data[i..];
    assert d[1..] == data[i + 1..];
    assert d[0] == data[i];
    assert TotalTruthy(d[0].total);
    match PageSources(d[0].hits, accepted)
    case Err(e) =>
      assert Walk(d, accepted) == Err(e);
    case Ok(here) =>
      match Walk(d[1..], accepted)
      case Err(e) =>
        assert Walk(d, accepted) == Err(e);
      case Ok(None) =>
        assert Walk(d, accepted) == Ok(None);
      case Ok(Some(rest)) =>
        assert Walk(d, accepted) == Ok(Some(here + rest));
  }

  /** `remove_elasticsearch_metadata`, loop by loop with its early returns. */
  method RemoveMetadata(data: seq<Page>, accepted: set<string>) returns (r: Result<seq<RawSpan>, MetadataError>)
    ensures r == Flattened(data, accepted)
  {
    var result: seq<RawSpan> := [];
    var i := 0;
    assert data[i..] == data;
    ContinueNothing(Walk(data, accepted));
    while i < |data|
      invariant 0 <= i <= |data|
      invariant Walk(data, accepted) == Continue(result, Walk(data[i..], accepted))
      decreases |data| - i
    {
      var entry := data[i];
      if !TotalTruthy(entry.total) {
        assert data[i..][0] == entry;
        assert Walk(data[i..], accepted) == Ok(None);
        return Ok([]);
      }
      PageTaken(data, i, accepted);
      var spans := entry.hits;
      var j := 0;
      assert spans[j..] == spans;
      while j < |spans|
        invariant 0 <= j <= |spans|
        invariant Walk(data, accepted)
                  == Continue(result, ThenPages(PageSources(spans[j..], accepted), Walk(data[i + 1..], accepted)))
        decreases |spans| - j
      {
        var span := spans[j];
        if !(span.docType.Some? && span.docType.value in accepted) {
          assert spans[j..][0] == span;
          return Err(UnexpectedType(span.docType));
        }
        HitTaken(result, spans, j, accepted, Walk(data[i + 1..], accepted));
        result := result + [span.source];
        j := j + 1;
      }
      assert spans[j..] == [];
      ContinueNothing(Walk(data[i + 1..], accepted));
      i := i + 1;
    }
    assert data[i..] == [];
    assert result + [] == result;
    r := Ok(result);
  }
}
