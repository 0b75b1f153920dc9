/**
 * The rule-based analysis of src/rules/models.py. A rule whose conditions all hold on a
 * span runs its actions in order; each action marks spans as errored, with a cause built
 * from the action's template: the span's descendants, its parent, the span itself, or
 * the span when it has no children. Spans live in the arena of a `Trace`.
 *
 * Conditions and templates read only tags, logs and the tree structure, and actions only
 * ever write `error` and `cause`. The model makes that explicit: the specification
 * functions compute, from the arena as it is when the rule starts, the list of writes an
 * action performs in the source's order, and the methods, which evaluate everything on
 * the arena as they go, are proved to perform exactly those writes.
 */
module Rules {
  import opened Wrappers
  import opened Values
  import opened Spans
  import opened Arena
  import opened Traces

  /** `re.match(pattern, text)` is truthy; the regular expression engine is a parameter. */
  type Matcher = (string, string) -> bool

  /** `Condition`: `location` is "tags" or "logs", `pattern` the regular expression. */
  datatype Condition = Condition(location: string, field: string, pattern: string)

  /** `Action`: `kind` is its `type`, `conditions` its `match` list, `cause` the template. */
  datatype Action = Action(kind: string, conditions: seq<Condition>, cause: string)

  datatype Rule = Rule(name: string, category: string, conditions: seq<Condition>, actions: seq<Action>)

  /** The exceptions a rule can raise. */
  datatype RuleError =
    | MalformedField(field: string)   // ValueError: a placeholder that is not `type:field`
    | LogsHaveNoGet(field: string)    // AttributeError: `span.logs.get` on the list of logs
    | BadFormat                       // str.format: a stray brace, `{}`, or fewer values than fields
    | NoParent                        // AttributeError: a condition read on the missing parent
    | Reentered(span: nat)            // RecursionError: check_children re-enters a span of its own call stack

  // ---------------------------------------------------------------- conditions

  /** `str(fields.get(field, ''))`. */
  function FieldText(fields: map<string, Value>, field: string): string
  {
    Str(GetOr(fields, field, VStr("")))
  }

  /** `Condition.check`: a tag, or some log field, matches; any other location fails. */
  predicate Holds(m: Matcher, c: Condition, x: Span)
  {
    if c.location == "tags" then m(c.pattern, FieldText(x.tags, c.field))
    else if c.location == "logs" then
      exists k :: 0 <= k < |x.logs| && m(c.pattern, FieldText(x.logs[k].fields, c.field))
    else false
  }

  predicate AllHold(m: Matcher, cs: seq<Condition>, x: Span)
  {
    forall i :: 0 <= i < |cs| ==> Holds(m, cs[i], x)
  }

  /** `Condition.check`: the loop over the logs stops at the first match. */
  method CheckCondition(m: Matcher, c: Condition, x: Span) returns (b: bool)
    ensures b == Holds(m, c, x)
  {
    b := false;
    if c.location == "tags" {
      b := m(c.pattern, FieldText(x.tags, c.field));
    } else if c.location == "logs" {
      var k := 0;
      while k < |x.logs|
        invariant 0 <= k <= |x.logs| && !b
        invariant forall j :: 0 <= j < k ==> !m(c.pattern, FieldText(x.logs[j].fields, c.field))
        decreases |x.logs| - k
      {
        b := m(c.pattern, FieldText(x.logs[k].fields, c.field));
        if b {
          break;
        }
        k := k + 1;
      }
    }
  }

  /** The `matched` loop of the actions and the condition loop of `Rule.perform`. */
  method ConditionsMatch(m: Matcher, cs: seq<Condition>, x: Span) returns (matched: bool)
    ensures matched == AllHold(m, cs, x)
  {
    matched := true;
    var i := 0;
    while i < |cs|
      invariant 0 <= i <= |cs| && matched
      invariant forall j :: 0 <= j < i ==> Holds(m, cs[j], x)
      decreases |cs| - i
    {
      var ok := CheckCondition(m, cs[i], x);
      if !ok {
        matched := false;
        break;
      }
      i := i + 1;
    }
  }

  /** Conditions read only the tags and the logs of a span. */
  lemma {:induction false} HoldsReadsTagsAndLogs(m: Matcher, cs: seq<Condition>, x: Span, y: Span)
    requires x.tags == y.tags && x.logs == y.logs
    ensures AllHold(m, cs, x) == AllHold(m, cs, y)
  {
    forall i | 0 <= i < |cs|
      ensures Holds(m, cs[i], x) == Holds(m, cs[i], y)
    {
    }
  }

  /** A condition on the logs holds exactly when one log's field matches; none on a span without logs. */
  lemma LogConditionHolds(m: Matcher, c: Condition, x: Span)
    requires c.location == "logs"
    ensures Holds(m, c, x) <==> exists k :: 0 <= k < |x.logs| && m(c.pattern, FieldText(x.logs[k].fields, c.field))
    ensures x.logs == [] ==> !Holds(m, c, x)
  {
  }

  // ---------------------------------------------------------------- cause templates

  /** A piece of a template: a literal character, a placeholder `{text}`, or a brace `str.format` refuses. */
  datatype Piece = Lit(c: char) | Field(text: string) | Stray

  /** The first position at or after `i` holding `ch`. */
  function IndexOf(s: string, ch: char, i: nat): (r: Option<nat>)
    requires i <= |s|
    ensures r.Some? ==> i <= r.value < |s| && s[r.value] == ch
    ensures forall k :: i <= k < |s| && (r.None? || k < r.value) ==> s[k] != ch
    decreases |s| - i
  {
    if i == |s| then None else if s[i] == ch then Some(i) else IndexOf(s, ch, i + 1)
  }

  /**
   * The template as `re.findall(r"{([^}]+)}", ...)` and `str.format` see it: an opening
   * brace followed by at least one character before the next closing brace is a
   * placeholder; any other brace is one `str.format` rejects.
   */
  function Scan(s: string): (r: seq<Piece>)
    decreases |s|
  {
    if s == [] then []
    else if s[0] == '{' then
      match IndexOf(s, '}', 1)
      case Some(j) => if j == 1 then [Stray] + Scan(s[1..]) else [Field(s[1..j])] + Scan(s[j + 1..])
      case None => [Stray] + Scan(s[1..])
    else if s[0] == '}' then [Stray] + Scan(s[1..])
    else [Lit(s[0])] + Scan(s[1..])
  }

  /** The placeholders of a scanned template, in order. */
  function Fields(ps: seq<Piece>): (r: seq<string>)
    decreases |ps|
  {
    if ps == [] then []
    else if ps[0].Field? then [ps[0].text] + Fields(ps[1..])
    else Fields(ps[1..])
  }

  /** `f_type, f_field = field.split(':')`: exactly one colon. */
  function SplitField(text: string): (r: Option<(string, string)>)
    ensures r.Some? ==> text == r.value.0 + ":" + r.value.1 && ':' !in r.value.0 && ':' !in r.value.1
    ensures r.None? ==> (forall k :: 0 <= k < |text| ==> text[k] != ':')
                        || exists a, b :: 0 <= a < b < |text| && text[a] == ':' && text[b] == ':'
  {
    match IndexOf(text, ':', 0)
    case None => None
    case Some(j) =>
      match IndexOf(text, ':', j + 1)
      case Some(_) => None
      case None =>
        assert text == text[..j] + ":" + text[j + 1..];
        Some((text[..j], text[j + 1..]))
  }

  /**
   * One placeholder of `prepare_cause`: the tag value for `tags`, an AttributeError for
   * `logs`, nothing appended for any other type.
   */
  function FieldResult(text: string, tags: map<string, Value>): Result<Option<string>, RuleError>
  {
    match SplitField(text)
    case None => Err(MalformedField(text))
    case Some((kind, field)) =>
      if kind == "tags" then Ok(Some(FieldText(tags, field)))
      else if kind == "logs" then Err(LogsHaveNoGet(field))
      else Ok(None)
  }

  /** `results` after the loop over the placeholders, or the first placeholder's exception. */
  function FieldValues(fs: seq<string>, tags: map<string, Value>): (r: Result<seq<string>, RuleError>)
    ensures r.Ok? ==> |r.value| <= |fs|
    decreases |fs|
  {
    if fs == [] then Ok([])
    else
      match FieldResult(fs[0], tags)
      case Err(e) => Err(e)
      case Ok(o) =>
        match FieldValues(fs[1..], tags)
        case Err(e) => Err(e)
        case Ok(rest) => Ok(if o.Some? then [o.value] + rest else rest)
  }

  /** The template with its placeholders filled from `vs`, in order. */
  function Render(ps: seq<Piece>, vs: seq<string>): string
    requires |vs| == |Fields(ps)|
    decreases |ps|
  {
    if ps == [] then []
    else if ps[0].Field? then vs[0] + Render(ps[1..], vs[1..])
    else if ps[0].Lit? then [ps[0].c] + Render(ps[1..], vs)
    else Render(ps[1..], vs)
  }

  /** The placeholder loop first, then `str.format`. */
  function Format(ps: seq<Piece>, tags: map<string, Value>): Result<string, RuleError>
  {
    match FieldValues(Fields(ps), tags)
    case Err(e) => Err(e)
    case Ok(vs) => if Stray in ps || |vs| != |Fields(ps)| then Err(BadFormat) else Ok(Render(ps, vs))
  }

  /** `prepare_cause`, of the span with these tags. */
  function PrepareCause(template: string, tags: map<string, Value>): Result<string, RuleError>
  {
    Format(Scan(template), tags)
  }

  /** `prepare_cause`: the placeholder loop appends to `results`. */
  method PrepareCauseOf(a: Action, x: Span) returns (r: Result<string, RuleError>)
    ensures r == PrepareCause(a.cause, x.tags)
  {
    var pieces := Scan(a.cause);
    var fields := Fields(pieces);
    var results: seq<string> := [];
    var k := 0;
    assert fields[k..] == fields;
    PrefixedNothing(FieldValues(fields, x.tags));
    while k < |fields|
      invariant 0 <= k <= |fields|
      invariant FieldValues(fields, x.tags) == Prefixed(results, FieldValues(fields[k..], x.tags))
      decreases |fields| - k
    {
      assert fields[k..][0] == fields[k] && fields[k..][1..] == fields[k + 1..];
      match FieldResult(fields[k], x.tags)
      case Err(e) =>
        FieldValuesFails(results, fields[k..], x.tags);
        return Err(e);
      case Ok(o) =>
        FieldValuesNext(results, fields[k..], x.tags, o);
        if o.Some? {
          results := results + [o.value];
        }
      k := k + 1;
    }
    assert fields[k..] == [] && results + [] == results;
    if Stray in pieces || |results| != |fields| {
      return Err(BadFormat);
    }
    return Ok(Render(pieces, results));
  }

  /** `r` with `pre` in front of its value. */
  function Prefixed<T, E>(pre: seq<T>, r: Result<seq<T>, E>): Result<seq<T>, E>
  {
    if r.Ok? then Ok(pre + r.value) else r
  }

  lemma PrefixedNothing<T, E>(r: Result<seq<T>, E>)
    ensures Prefixed([], r) == r
  {
    if r.Ok? {
      assert [] + r.value == r.value;
    }
  }

  /** A turn of the placeholder loop that raises ends it. */
  lemma FieldValuesFails(pre: seq<string>, fs: seq<string>, tags: map<string, Value>)
    requires fs != [] && FieldResult(fs[0], tags).Err?
    ensures Prefixed(pre, FieldValues(fs, tags)) == Err(FieldResult(fs[0], tags).error)
  {
  }

  /** A turn of the placeholder loop that succeeds appends its value, if any. */
  lemma FieldValuesNext(pre: seq<string>, fs: seq<string>, tags: map<string, Value>, o: Option<string>)
    requires fs != [] && FieldResult(fs[0], tags) == Ok(o)
    ensures Prefixed(pre, FieldValues(fs, tags)) == Prefixed(if o.Some? then pre + [o.value] else pre, FieldValues(fs[1..], tags))
  {
    var rest := FieldValues(fs[1..], tags);
    if rest.Ok? && o.Some? {
      assert pre + ([o.value] + rest.value) == pre + [o.value] + rest.value;
    }
  }

  predicate NoBraces(s: string)
  {
    forall k :: 0 <= k < |s| ==> s[k] != '{' && s[k] != '}'
  }

  function LitPieces(s: string): (r: seq<Piece>)
    ensures |r| == |s| && Stray !in r && Fields(r) == []
    decreases |s|
  {
    if s == [] then [] else [Lit(s[0])] + LitPieces(s[1..])
  }

  lemma {:induction false} ScanLiteral(p: string, q: string)
    requires NoBraces(p)
    ensures Scan(p + q) == LitPieces(p) + Scan(q)
    decreases |p|
  {
    if p != [] {
      assert (p + q)[0] == p[0] && (p + q)[1..] == p[1..] + q;
      ScanLiteral(p[1..], q);
      assert LitPieces(p) + Scan(q) == [Lit(p[0])] + (LitPieces(p[1..]) + Scan(q));
    } else {
      assert p + q == q;
    }
  }

  lemma ScanPlaceholder(inner: string, q: string)
    requires |inner| > 0 && forall k :: 0 <= k < |inner| ==> inner[k] != '}'
    ensures Scan("{" + inner + "}" + q) == [Field(inner)] + Scan(q)
  {
    var s := "{" + inner + "}" + q;
    var j := |inner| + 1;
    assert s[j] == '}';
    assert forall k :: 1 <= k < j ==> s[k] == inner[k - 1];
    assert IndexOf(s, '}', 1) == Some(j);
    assert s[1..j] == inner && s[j + 1..] == q;
  }

  lemma {:induction false} FieldsAppend(a: seq<Piece>, b: seq<Piece>)
    ensures Fields(a + b) == Fields(a) + Fields(b)
    decreases |a|
  {
    if a != [] {
      assert (a + b)[0] == a[0] && (a + b)[1..] == a[1..] + b;
      FieldsAppend(a[1..], b);
    } else {
      assert a + b == b;
    }
  }

  lemma {:induction false} RenderLiteral(p: string, ps: seq<Piece>, vs: seq<string>)
    requires |vs| == |Fields(ps)|
    ensures Fields(LitPieces(p) + ps) == Fields(ps)
    ensures Render(LitPieces(p) + ps, vs) == p + Render(ps, vs)
    decreases |p|
  {
    if p != [] {
      var all := LitPieces(p) + ps;
      assert all[0] == Lit(p[0]) && all[1..] == LitPieces(p[1..]) + ps;
      RenderLiteral(p[1..], ps, vs);
      assert p == [p[0]] + p[1..];
    } else {
      assert LitPieces(p) + ps == ps;
    }
  }

  /** Literal text in front of a template passes through unchanged. */
  lemma FormatLiteral(p: string, ps: seq<Piece>, tags: map<string, Value>)
    ensures Format(LitPieces(p) + ps, tags) == Prefixed(p, Format(ps, tags))
  {
    FieldsAppend(LitPieces(p), ps);
    var fs := Fields(ps);
    assert Fields(LitPieces(p) + ps) == fs;
    assert Stray in LitPieces(p) + ps <==> Stray in ps;
    match FieldValues(fs, tags)
    case Err(e) =>
    case Ok(vs) =>
      if |vs| == |fs| {
        RenderLiteral(p, ps, vs);
      }
  }

  /** A template without braces is its own cause. */
  lemma CauseWithoutPlaceholders(p: string, tags: map<string, Value>)
    requires NoBraces(p)
    ensures PrepareCause(p, tags) == Ok(p)
  {
    ScanLiteral(p, []);
    assert p + [] == p;
    FormatLiteral(p, [], tags);
  }

  /** A placeholder whose value is `v` puts `v` in front of the rest of the cause. */
  lemma FormatField(inner: string, v: string, ps: seq<Piece>, tags: map<string, Value>)
    requires FieldResult(inner, tags) == Ok(Some(v))
    ensures Format([Field(inner)] + ps, tags) == Prefixed(v, Format(ps, tags))
  {
    var all := [Field(inner)] + ps;
    assert all[0] == Field(inner) && all[1..] == ps;
    var fs := Fields(ps);
    assert Fields(all) == [inner] + fs;
    assert ([inner] + fs)[0] == inner && ([inner] + fs)[1..] == fs;
    assert Stray in all <==> Stray in ps;
    match FieldValues(fs, tags)
    case Err(e) =>
    case Ok(vs) =>
      assert FieldValues([inner] + fs, tags) == Ok([v] + vs);
      if |vs| == |fs| {
        assert ([v] + vs)[0] == v && ([v] + vs)[1..] == vs;
        assert Render(all, [v] + vs) == v + Render(ps, vs);
      }
  }

  /** A placeholder that raises ends the loop with its exception. */
  lemma FormatFieldFails(inner: string, e: RuleError, ps: seq<Piece>, tags: map<string, Value>)
    requires FieldResult(inner, tags) == Err(e)
    ensures Format([Field(inner)] + ps, tags) == Err(e)
  {
    var all := [Field(inner)] + ps;
    assert all[0] == Field(inner) && all[1..] == ps;
    assert Fields(all) == [inner] + Fields(ps);
    assert ([inner] + Fields(ps))[0] == inner;
  }

  /**
   * A `{tags:FIELD}` placeholder after literal text is replaced by the tag value, or by
   * the empty string when the tag is missing; the rest of the template is formatted on.
   */
  lemma CauseTagPlaceholder(p: string, f: string, q: string, tags: map<string, Value>)
    requires NoBraces(p) && ':' !in f && '}' !in f
    ensures PrepareCause(p + "{tags:" + f + "}" + q, tags) == Prefixed(p + FieldText(tags, f), PrepareCause(q, tags))
  {
    var x := [Field("tags:" + f)] + Scan(q);
    calc {
      PrepareCause(p + "{tags:" + f + "}" + q, tags);
      { TagTemplateScanned(p, f, q); }
      Format(LitPieces(p) + x, tags);
      { FormatLiteral(p, x, tags); }
      Prefixed(p, Format(x, tags));
      { TagFieldFormatted(f, q, tags); }
      Prefixed(p, Prefixed(FieldText(tags, f), PrepareCause(q, tags)));
      { PrefixedTwice(p, FieldText(tags, f), PrepareCause(q, tags)); }
      Prefixed(p + FieldText(tags, f), PrepareCause(q, tags));
    }
  }

  lemma PrefixedTwice<T, E>(a: seq<T>, b: seq<T>, r: Result<seq<T>, E>)
    ensures Prefixed(a, Prefixed(b, r)) == Prefixed(a + b, r)
  {
    if r.Ok? {
      assert a + (b + r.value) == a + b + r.value;
    }
  }

  lemma TagTemplateScanned(p: string, f: string, q: string)
    requires NoBraces(p) && ':' !in f && '}' !in f
    ensures Scan(p + "{tags:" + f + "}" + q) == LitPieces(p) + ([Field("tags:" + f)] + Scan(q))
  {
    assert "tags" + ":" + f == "tags:" + f;
    assert p + "{" + "tags" + ":" + f + "}" + q == p + "{tags:" + f + "}" + q;
    KindScanned(p, "tags", f, q);
  }

  lemma TagFieldFormatted(f: string, q: string, tags: map<string, Value>)
    requires ':' !in f
    ensures Format([Field("tags:" + f)] + Scan(q), tags) == Prefixed(FieldText(tags, f), PrepareCause(q, tags))
  {
    assert "tags" + ":" + f == "tags:" + f;
    KindResult("tags", f, tags);
    FormatField("tags:" + f, FieldText(tags, f), Scan(q), tags);
  }

  /** A placeholder that reads the logs raises, unless an earlier placeholder did. */
  lemma CauseLogPlaceholder(p: string, f: string, q: string, tags: map<string, Value>)
    requires NoBraces(p) && ':' !in f && '}' !in f
    ensures PrepareCause(p + "{logs:" + f + "}" + q, tags) == Err(LogsHaveNoGet(f))
  {
    var x := [Field("logs:" + f)] + Scan(q);
    assert "logs" + ":" + f == "logs:" + f;
    assert p + "{" + "logs" + ":" + f + "}" + q == p + "{logs:" + f + "}" + q;
    KindScanned(p, "logs", f, q);
    KindResult("logs", f, tags);
    FormatLiteral(p, x, tags);
    FormatFieldFails("logs:" + f, LogsHaveNoGet(f), Scan(q), tags);
  }

  lemma KindScanned(p: string, kind: string, f: string, q: string)
    requires NoBraces(p) && |kind| > 0 && '}' !in kind && '}' !in f
    ensures Scan(p + "{" + kind + ":" + f + "}" + q) == LitPieces(p) + ([Field(kind + ":" + f)] + Scan(q))
  {
    var inner := kind + ":" + f;
    assert p + "{" + kind + ":" + f + "}" + q == p + "{" + inner + "}" + q;
    PlaceholderScanned(p, inner, q);
  }

  lemma KindResult(kind: string, f: string, tags: map<string, Value>)
    requires ':' !in kind && ':' !in f
    ensures kind == "tags" ==> FieldResult(kind + ":" + f, tags) == Ok(Some(FieldText(tags, f)))
    ensures kind == "logs" ==> FieldResult(kind + ":" + f, tags) == Err(LogsHaveNoGet(f))
  {
    KindSplit(kind, f);
  }

  lemma PlaceholderScanned(p: string, inner: string, q: string)
    requires NoBraces(p) && |inner| > 0 && '}' !in inner
    ensures Scan(p + "{" + inner + "}" + q) == LitPieces(p) + [Field(inner)] + Scan(q)
  {
    assert p + "{" + inner + "}" + q == p + ("{" + inner + "}" + q);
    ScanLiteral(p, "{" + inner + "}" + q);
    ScanPlaceholder(inner, q);
  }

  lemma IndexOfAt(s: string, ch: char, i: nat, j: nat)
    requires i <= j < |s| && s[j] == ch && forall k :: i <= k < j ==> s[k] != ch
    ensures IndexOf(s, ch, i) == Some(j)
  {
  }

  lemma IndexOfNone(s: string, ch: char, i: nat)
    requires i <= |s| && forall k :: i <= k < |s| ==> s[k] != ch
    ensures IndexOf(s, ch, i) == None
  {
  }

  lemma KindSplit(kind: string, f: string)
    requires ':' !in kind && ':' !in f
    ensures SplitField(kind + ":" + f) == Some((kind, f))
  {
    var t := kind + ":" + f;
    var j := |kind|;
    assert forall k :: 0 <= k < j ==> t[k] == kind[k];
    assert forall k :: j < k < |t| ==> t[k] == f[k - j - 1];
    IndexOfAt(t, ':', 0, j);
    IndexOfNone(t, ':', j + 1);
    assert t[..j] == kind && t[j + 1..] == f;
  }

  // ---------------------------------------------------------------- writes

  /** One mark an action makes: `error = True` and `cause` on span `target`. */
  datatype Write = Write(target: nat, cause: string)

  predicate TargetsIn(ws: seq<Write>, n: nat)
  {
    forall k :: 0 <= k < |ws| ==> ws[k].target < n
  }

  function Mark(s: seq<Span>, w: Write): seq<Span>
    requires w.target < |s|
  {
    s[w.target := s[w.target].(error := true, cause := VStr(w.cause))]
  }

  /** The marks performed one after the other. */
  function Apply(s: seq<Span>, ws: seq<Write>): (r: seq<Span>)
    requires TargetsIn(ws, |s|)
    ensures |r| == |s|
    decreases |ws|
  {
    if ws == [] then s else Apply(Mark(s, ws[0]), ws[1..])
  }

  /** `r` differs from `s` at most in `error` and `cause`. */
  predicate SameShape(s: seq<Span>, r: seq<Span>)
  {
    |s| == |r| && forall i :: 0 <= i < |s| ==> r[i] == s[i].(error := r[i].error, cause := r[i].cause)
  }

  /** The cause of the last write to span `i`, if any. */
  function LastCause(ws: seq<Write>, i: nat): Option<string>
    decreases |ws|
  {
    if ws == [] then None
    else
      match LastCause(ws[1..], i)
      case Some(c) => Some(c)
      case None => if ws[0].target == i then Some(ws[0].cause) else None
  }

  function Overwrite(x: Span, o: Option<string>): Span
  {
    if o.Some? then x.(error := true, cause := VStr(o.value)) else x
  }

  /** After the writes, a span is as the last write to it left it. */
  lemma {:induction false} ApplyAt(s: seq<Span>, ws: seq<Write>, i: nat)
    requires TargetsIn(ws, |s|) && i < |s|
    ensures Apply(s, ws)[i] == Overwrite(s[i], LastCause(ws, i))
    decreases |ws|
  {
    if ws != [] {
      ApplyAt(Mark(s, ws[0]), ws[1..], i);
    }
  }

  lemma {:induction false} LastCauseWritten(ws: seq<Write>, i: nat)
    ensures LastCause(ws, i).Some? <==> exists k :: 0 <= k < |ws| && ws[k].target == i
    decreases |ws|
  {
    if ws != [] {
      LastCauseWritten(ws[1..], i);
      assert forall k :: 0 < k < |ws| ==> ws[k] == ws[1..][k - 1];
      if LastCause(ws[1..], i).Some? {
        var k :| 0 <= k < |ws[1..]| && ws[1..][k].target == i;
        assert ws[k + 1].target == i;
      }
    }
  }

  /**
   * Marks only ever set `error` and `cause`: the shape is kept, no error is cleared, and
   * a span that changed was the target of a write and is now errored.
   */
  lemma ApplyOnlyMarks(s: seq<Span>, ws: seq<Write>)
    requires TargetsIn(ws, |s|)
    ensures SameShape(s, Apply(s, ws))
    ensures forall i :: 0 <= i < |s| && s[i].error ==> Apply(s, ws)[i].error
    ensures forall i :: 0 <= i < |s| && Apply(s, ws)[i] != s[i] ==>
              Apply(s, ws)[i].error && exists k :: 0 <= k < |ws| && ws[k].target == i
  {
    forall i | 0 <= i < |s|
      ensures Apply(s, ws)[i] == s[i].(error := Apply(s, ws)[i].error, cause := Apply(s, ws)[i].cause)
      ensures s[i].error ==> Apply(s, ws)[i].error
      ensures Apply(s, ws)[i] != s[i] ==> Apply(s, ws)[i].error && exists k :: 0 <= k < |ws| && ws[k].target == i
    {
      ApplyAt(s, ws, i);
      LastCauseWritten(ws, i);
    }
  }

  /** Performing the same writes again changes nothing. */
  lemma ApplyTwice(s: seq<Span>, ws: seq<Write>)
    requires TargetsIn(ws, |s|)
    ensures Apply(Apply(s, ws), ws) == Apply(s, ws)
  {
    var r := Apply(s, ws);
    forall i | 0 <= i < |s|
      ensures Apply(r, ws)[i] == r[i]
    {
      ApplyAt(s, ws, i);
      ApplyAt(r, ws, i);
    }
  }

  lemma {:induction false} ApplyAppend(s: seq<Span>, a: seq<Write>, b: seq<Write>)
    requires TargetsIn(a, |s|) && TargetsIn(b, |s|)
    ensures TargetsIn(a + b, |s|)
    ensures Apply(s, a + b) == Apply(Apply(s, a), b)
    decreases |a|
  {
    if a != [] {
      assert (a + b)[0] == a[0] && (a + b)[1..] == a[1..] + b;
      ApplyAppend(Mark(s, a[0]), a[1..], b);
    } else {
      assert a + b == b;
    }
  }

  lemma SameShapeWellFormed(s: seq<Span>, r: seq<Span>)
    requires WellFormed(s) && SameShape(s, r)
    ensures WellFormed(r) && SameShape(r, s)
  {
    assert forall i :: 0 <= i < |s| ==>
      r[i].children == s[i].children && r[i].parent == s[i].parent && r[i].previous == s[i].previous
      && r[i].caused == s[i].caused && r[i].causedBy == s[i].causedBy;
  }

  // ---------------------------------------------------------------- actions

  /** A write to span `i` justified by the action: its conditions hold there and its cause is the template's. */
  predicate Justified(m: Matcher, a: Action, s: seq<Span>, w: Write)
  {
    w.target < |s| && PrepareCause(a.cause, s[w.target].tags) == Ok(w.cause)
  }

  /** Span `i` marked with the action's cause, conditions unchecked. */
  function MarkWith(a: Action, s: seq<Span>, i: nat): (r: Result<seq<Write>, RuleError>)
    requires i < |s|
    ensures r.Ok? ==> |r.value| == 1 && r.value[0].target == i && PrepareCause(a.cause, s[i].tags) == Ok(r.value[0].cause)
    ensures r.Err? ==> PrepareCause(a.cause, s[i].tags) == Err(r.error)
  {
    match PrepareCause(a.cause, s[i].tags)
    case Err(e) => Err(e)
    case Ok(c) => Ok([Write(i, c)])
  }

  /** The `matched` loop and its mark. */
  function MarkIfMatched(m: Matcher, a: Action, s: seq<Span>, i: nat): Result<seq<Write>, RuleError>
    requires i < |s|
  {
    if AllHold(m, a.conditions, s[i]) then MarkWith(a, s, i) else Ok([])
  }

  /** The recursion stack of `check_children`: the spans whose calls are still running. */
  predicate OnStack(s: seq<Span>, stack: seq<nat>)
  {
    |stack| > 0 && forall k :: 0 <= k < |stack| ==> stack[k] < |s|
  }

  /**
   * `check_children` from child `k` of the span on top of `stack`: each child is marked
   * if it matches, then its own children are checked. Re-entering a span already on the
   * stack would recurse forever, which Python ends with a RecursionError.
   */
  function ChildrenFrom(m: Matcher, a: Action, s: seq<Span>, stack: seq<nat>, k: nat): (r: Result<seq<Write>, RuleError>)
    requires WellFormed(s) && OnStack(s, stack) && k <= |s[Last(stack)].children|
    decreases Unvisited(|s|, stack), |s[Last(stack)].children| - k, 1
  {
    if k == |s[Last(stack)].children| then Ok([])
    else
      match ChildStep(m, a, s, stack, k)
      case Err(e) => Err(e)
      case Ok(w) => Prefixed(w, ChildrenFrom(m, a, s, stack, k + 1))
  }

  /** The body of the loop in `check_children`, for child `k`. */
  function ChildStep(m: Matcher, a: Action, s: seq<Span>, stack: seq<nat>, k: nat): (r: Result<seq<Write>, RuleError>)
    requires WellFormed(s) && OnStack(s, stack) && k < |s[Last(stack)].children|
    decreases Unvisited(|s|, stack), |s[Last(stack)].children| - k, 0
  {
    assert SpanInRange(s[Last(stack)], |s|);
    var c := s[Last(stack)].children[k];
    match MarkIfMatched(m, a, s, c)
    case Err(e) => Err(e)
    case Ok(w) =>
      if c in stack then Err(Reentered(c))
      else
        UnvisitedShrinks(|s|, stack, c);
        Prefixed(w, ChildrenFrom(m, a, s, stack + [c], 0))
  }

  /** `check_parent`: only a span with a parent acts, on the parent. */
  function ParentWrites(m: Matcher, a: Action, s: seq<Span>, n: nat): Result<seq<Write>, RuleError>
    requires WellFormed(s) && n < |s|
  {
    match s[n].parent
    case None => Ok([])
    case Some(p) => assert SpanInRange(s[n], |s|); MarkIfMatched(m, a, s, p)
  }

  /** `check_no_children`: a span without children is marked, with no condition checked. */
  function NoChildrenWrites(a: Action, s: seq<Span>, n: nat): Result<seq<Write>, RuleError>
    requires n < |s|
  {
    if |s[n].children| == 0 then MarkWith(a, s, n) else Ok([])
  }

  /** `execute`: the writes of one action run on span `n`; an unknown type does nothing. */
  function ActionWrites(m: Matcher, a: Action, s: seq<Span>, n: nat): Result<seq<Write>, RuleError>
    requires WellFormed(s) && n < |s|
  {
    if a.kind == "children" then ChildrenFrom(m, a, s, [n], 0)
    else if a.kind == "parent" then ParentWrites(m, a, s, n)
    else if a.kind == "self" then MarkIfMatched(m, a, s, n)
    else if a.kind == "no-children" then NoChildrenWrites(a, s, n)
    else Ok([])
  }

  /** The actions from the `k`-th on, in order; the first exception ends the rule. */
  function ActionsFrom(m: Matcher, acts: seq<Action>, s: seq<Span>, n: nat, k: nat): Result<seq<Write>, RuleError>
    requires WellFormed(s) && n < |s| && k <= |acts|
    decreases |acts| - k
  {
    if k == |acts| then Ok([])
    else
      match ActionWrites(m, acts[k], s, n)
      case Err(e) => Err(e)
      case Ok(w) => Prefixed(w, ActionsFrom(m, acts, s, n, k + 1))
  }

  /** `Rule.perform` on span `n`: nothing unless every condition holds on the span. */
  function RuleWrites(m: Matcher, rule: Rule, s: seq<Span>, n: nat): Result<seq<Write>, RuleError>
    requires WellFormed(s) && n < |s|
  {
    if AllHold(m, rule.conditions, s[n]) then ActionsFrom(m, rule.actions, s, n, 0) else Ok([])
  }

  // ---------------------------------------------------------------- what the writes are

  /** Every write of `check_children` marks a matching span that is not on the stack. */
  lemma {:induction false} ChildrenFromTargets(m: Matcher, a: Action, s: seq<Span>, stack: seq<nat>, k: nat)
    requires WellFormed(s) && OnStack(s, stack) && k <= |s[Last(stack)].children|
    requires ChildrenFrom(m, a, s, stack, k).Ok?
    ensures forall w :: w in ChildrenFrom(m, a, s, stack, k).value ==>
              Justified(m, a, s, w) && AllHold(m, a.conditions, s[w.target]) && w.target !in stack
    decreases Unvisited(|s|, stack), |s[Last(stack)].children| - k, 1
  {
    if k < |s[Last(stack)].children| {
      ChildStepTargets(m, a, s, stack, k);
      ChildrenFromTargets(m, a, s, stack, k + 1);
    }
  }

  lemma {:induction false} ChildStepTargets(m: Matcher, a: Action, s: seq<Span>, stack: seq<nat>, k: nat)
    requires WellFormed(s) && OnStack(s, stack) && k < |s[Last(stack)].children|
    requires ChildStep(m, a, s, stack, k).Ok?
    ensures forall w :: w in ChildStep(m, a, s, stack, k).value ==>
              Justified(m, a, s, w) && AllHold(m, a.conditions, s[w.target]) && w.target !in stack
    decreases Unvisited(|s|, stack), |s[Last(stack)].children| - k, 0
  {
    assert SpanInRange(s[Last(stack)], |s|);
    var c := s[Last(stack)].children[k];
    UnvisitedShrinks(|s|, stack, c);
    ChildrenFromTargets(m, a, s, stack + [c], 0);
  }

  /** Every matching child of the span is marked. */
  lemma {:induction false} ChildrenFromMarksMatches(m: Matcher, a: Action, s: seq<Span>, stack: seq<nat>, k: nat)
    requires WellFormed(s) && OnStack(s, stack) && k <= |s[Last(stack)].children|
    requires ChildrenFrom(m, a, s, stack, k).Ok?
    ensures forall j :: k <= j < |s[Last(stack)].children| && AllHold(m, a.conditions, s[s[Last(stack)].children[j]]) ==>
              exists w :: w in ChildrenFrom(m, a, s, stack, k).value && w.target == s[Last(stack)].children[j]
    decreases |s[Last(stack)].children| - k
  {
    var n := Last(stack);
    if k < |s[n].children| {
      assert SpanInRange(s[n], |s|);
      var c := s[n].children[k];
      var w := ChildStep(m, a, s, stack, k).value;
      ChildrenFromMarksMatches(m, a, s, stack, k + 1);
      var all := ChildrenFrom(m, a, s, stack, k).value;
      assert all == w + ChildrenFrom(m, a, s, stack, k + 1).value;
      if AllHold(m, a.conditions, s[c]) {
        assert w[0] == Write(c, w[0].cause);
        assert w[0] in all;
      }
    }
  }

  /**
   * Which spans each kind of action marks: `children` marks matching spans below the
   * span and never the span itself, `parent` only the parent, `self` and `no-children`
   * only the span, an unknown kind nothing. Every mark carries the template's cause.
   */
  lemma ActionTargets(m: Matcher, a: Action, s: seq<Span>, n: nat)
    requires WellFormed(s) && n < |s| && ActionWrites(m, a, s, n).Ok?
    ensures forall w :: w in ActionWrites(m, a, s, n).value ==> Justified(m, a, s, w)
    ensures a.kind == "children" ==> forall w :: w in ActionWrites(m, a, s, n).value ==>
              w.target != n && w.target < |s| && AllHold(m, a.conditions, s[w.target])
    ensures a.kind == "parent" ==> forall w :: w in ActionWrites(m, a, s, n).value ==>
              s[n].parent == Some(w.target) && w.target < |s| && AllHold(m, a.conditions, s[w.target])
    ensures a.kind == "self" ==>
              (ActionWrites(m, a, s, n).value != [] <==> AllHold(m, a.conditions, s[n]))
              && forall w :: w in ActionWrites(m, a, s, n).value ==> w.target == n
    ensures a.kind == "no-children" ==>
              (ActionWrites(m, a, s, n).value != [] <==> s[n].children == [])
              && forall w :: w in ActionWrites(m, a, s, n).value ==> w.target == n
    ensures a.kind !in {"children", "parent", "self", "no-children"} ==> ActionWrites(m, a, s, n).value == []
  {
    if a.kind == "children" {
      ChildrenFromTargets(m, a, s, [n], 0);
    }
  }

  /** A rule whose conditions do not all hold on the span changes nothing. */
  lemma RuleNeedsAllConditions(m: Matcher, rule: Rule, s: seq<Span>, n: nat)
    requires WellFormed(s) && n < |s|
    ensures !AllHold(m, rule.conditions, s[n]) ==> RuleWrites(m, rule, s, n) == Ok([])
    ensures AllHold(m, rule.conditions, s[n]) ==> RuleWrites(m, rule, s, n) == ActionsFrom(m, rule.actions, s, n, 0)
  {
  }

  // ---------------------------------------------------------------- writes read only the shape

  lemma {:induction false} ChildrenFromShape(m: Matcher, a: Action, s: seq<Span>, r: seq<Span>, stack: seq<nat>, k: nat)
    requires WellFormed(s) && SameShape(s, r) && OnStack(s, stack) && k <= |s[Last(stack)].children|
    ensures WellFormed(r) && r[Last(stack)].children == s[Last(stack)].children
    ensures ChildrenFrom(m, a, r, stack, k) == ChildrenFrom(m, a, s, stack, k)
    decreases Unvisited(|s|, stack), |s[Last(stack)].children| - k, 1
  {
    SameShapeWellFormed(s, r);
    assert r[Last(stack)].children == s[Last(stack)].children;
    if k < |s[Last(stack)].children| {
      ChildStepShape(m, a, s, r, stack, k);
      ChildrenFromShape(m, a, s, r, stack, k + 1);
    }
  }

  lemma {:induction false} ChildStepShape(m: Matcher, a: Action, s: seq<Span>, r: seq<Span>, stack: seq<nat>, k: nat)
    requires WellFormed(s) && SameShape(s, r) && OnStack(s, stack) && k < |s[Last(stack)].children|
    ensures WellFormed(r) && r[Last(stack)].children == s[Last(stack)].children
    ensures ChildStep(m, a, r, stack, k) == ChildStep(m, a, s, stack, k)
    decreases Unvisited(|s|, stack), |s[Last(stack)].children| - k, 0
  {
    SameShapeWellFormed(s, r);
    assert r[Last(stack)].children == s[Last(stack)].children;
    assert SpanInRange(s[Last(stack)], |s|);
    var c := s[Last(stack)].children[k];
    assert r[c].tags == s[c].tags && r[c].logs == s[c].logs;
    HoldsReadsTagsAndLogs(m, a.conditions, s[c], r[c]);
    if c !in stack {
      UnvisitedShrinks(|s|, stack, c);
      ChildrenFromShape(m, a, s, r, stack + [c], 0);
    }
  }

  lemma ActionWritesShape(m: Matcher, a: Action, s: seq<Span>, r: seq<Span>, n: nat)
    requires WellFormed(s) && SameShape(s, r) && n < |s|
    ensures WellFormed(r) && ActionWrites(m, a, r, n) == ActionWrites(m, a, s, n)
  {
    SameShapeWellFormed(s, r);
    assert r[n] == s[n].(error := r[n].error, cause := r[n].cause);
    HoldsReadsTagsAndLogs(m, a.conditions, s[n], r[n]);
    if a.kind == "children" {
      ChildrenFromShape(m, a, s, r, [n], 0);
    } else if a.kind == "parent" && s[n].parent.Some? {
      assert SpanInRange(s[n], |s|);
      var p := s[n].parent.value;
      assert r[p] == s[p].(error := r[p].error, cause := r[p].cause);
      HoldsReadsTagsAndLogs(m, a.conditions, s[p], r[p]);
    }
  }

  lemma {:induction false} ActionsFromShape(m: Matcher, acts: seq<Action>, s: seq<Span>, r: seq<Span>, n: nat, k: nat)
    requires WellFormed(s) && SameShape(s, r) && n < |s| && k <= |acts|
    ensures WellFormed(r) && ActionsFrom(m, acts, r, n, k) == ActionsFrom(m, acts, s, n, k)
    decreases |acts| - k
  {
    SameShapeWellFormed(s, r);
    if k < |acts| {
      ActionWritesShape(m, acts[k], s, r, n);
      ActionsFromShape(m, acts, s, r, n, k + 1);
    }
  }

  lemma RuleWritesShape(m: Matcher, rule: Rule, s: seq<Span>, r: seq<Span>, n: nat)
    requires WellFormed(s) && SameShape(s, r) && n < |s|
    ensures WellFormed(r) && RuleWrites(m, rule, r, n) == RuleWrites(m, rule, s, n)
  {
    SameShapeWellFormed(s, r);
    assert r[n] == s[n].(error := r[n].error, cause := r[n].cause);
    HoldsReadsTagsAndLogs(m, rule.conditions, s[n], r[n]);
    ActionsFromShape(m, rule.actions, s, r, n, 0);
  }

  lemma {:induction false} ActionsFromInRange(m: Matcher, acts: seq<Action>, s: seq<Span>, n: nat, k: nat)
    requires WellFormed(s) && n < |s| && k <= |acts| && ActionsFrom(m, acts, s, n, k).Ok?
    ensures TargetsIn(ActionsFrom(m, acts, s, n, k).value, |s|)
    decreases |acts| - k
  {
    if k < |acts| {
      ActionTargets(m, acts[k], s, n);
      ActionsFromInRange(m, acts, s, n, k + 1);
    }
  }

  /** `Rule.perform` on the arena: the writes performed, or the exception raised. */
  function Performed(m: Matcher, rule: Rule, s: seq<Span>, n: nat): (r: Result<seq<Span>, RuleError>)
    requires WellFormed(s) && n < |s|
  {
    match RuleWrites(m, rule, s, n)
    case Err(e) => Err(e)
    case Ok(ws) => ActionsInRange(m, rule, s, n); Ok(Apply(s, ws))
  }

  lemma ActionsInRange(m: Matcher, rule: Rule, s: seq<Span>, n: nat)
    requires WellFormed(s) && n < |s| && RuleWrites(m, rule, s, n).Ok?
    ensures TargetsIn(RuleWrites(m, rule, s, n).value, |s|)
  {
    if AllHold(m, rule.conditions, s[n]) {
      ActionsFromInRange(m, rule.actions, s, n, 0);
    }
  }

  /**
   * Performing a rule marks spans and nothing else: the tree, tags and logs are kept and
   * no span's error flag goes from true to false.
   */
  lemma PerformOnlyMarks(m: Matcher, rule: Rule, s: seq<Span>, n: nat)
    requires WellFormed(s) && n < |s| && Performed(m, rule, s, n).Ok?
    ensures SameShape(s, Performed(m, rule, s, n).value)
    ensures forall i :: 0 <= i < |s| && s[i].error ==> Performed(m, rule, s, n).value[i].error
    ensures forall i :: 0 <= i < |s| && Performed(m, rule, s, n).value[i] != s[i] ==> Performed(m, rule, s, n).value[i].error
  {
    ActionsInRange(m, rule, s, n);
    ApplyOnlyMarks(s, RuleWrites(m, rule, s, n).value);
  }

  /** Performing a rule a second time on the same span changes nothing. */
  lemma PerformIdempotent(m: Matcher, rule: Rule, s: seq<Span>, n: nat)
    requires WellFormed(s) && n < |s| && Performed(m, rule, s, n).Ok?
    ensures WellFormed(Performed(m, rule, s, n).value)
    ensures Performed(m, rule, Performed(m, rule, s, n).value, n) == Performed(m, rule, s, n)
  {
    var ws := RuleWrites(m, rule, s, n).value;
    ActionsInRange(m, rule, s, n);
    var r := Apply(s, ws);
    ApplyOnlyMarks(s, ws);
    RuleWritesShape(m, rule, s, r, n);
    ApplyTwice(s, ws);
  }

  // ---------------------------------------------------------------- the actions on a trace

  /** `r` is how a run that should perform `w` on `s` ended, and `s'` what it left when it succeeded. */
  predicate Performs(s: seq<Span>, w: Result<seq<Write>, RuleError>, r: Result<(), RuleError>, s': seq<Span>)
  {
    && (r.Err? ==> w == Err(r.error))
    && (r.Ok? ==> w.Ok? && TargetsIn(w.value, |s|) && s' == Apply(s, w.value))
  }

  lemma ApplyOne(s: seq<Span>, w: Write)
    requires w.target < |s|
    ensures TargetsIn([w], |s|) && Apply(s, [w]) == Mark(s, w) && Apply(s, []) == s
  {
    assert [w][1..] == [];
  }

  lemma PerformedShape(s: seq<Span>, w: Result<seq<Write>, RuleError>, r: Result<(), RuleError>, s': seq<Span>)
    requires WellFormed(s) && Performs(s, w, r, s') && r.Ok?
    ensures WellFormed(s') && SameShape(s, s')
  {
    ApplyOnlyMarks(s, w.value);
    SameShapeWellFormed(s, s');
  }

  /** Marks span `i` with the action's cause. */
  method MarkAt(t: Trace, a: Action, i: nat) returns (r: Result<(), RuleError>)
    requires i < |t.spans|
    modifies t`spans
    ensures Performs(old(t.spans), MarkWith(a, old(t.spans), i), r, t.spans)
  {
    var cause := PrepareCauseOf(a, t.spans[i]);
    if cause.Err? {
      return Err(cause.error);
    }
    ApplyOne(t.spans, Write(i, cause.value));
    t.spans := Mark(t.spans, Write(i, cause.value));
    return Ok(());
  }

  /** The `matched` loop on span `i`, then its mark. */
  method MarkIfMatchedAt(t: Trace, m: Matcher, a: Action, i: nat) returns (r: Result<(), RuleError>)
    requires i < |t.spans|
    modifies t`spans
    ensures Performs(old(t.spans), MarkIfMatched(m, a, old(t.spans), i), r, t.spans)
  {
    var matched := ConditionsMatch(m, a.conditions, t.spans[i]);
    if matched {
      r := MarkAt(t, a, i);
    } else {
      ApplyOne(t.spans, Write(i, ""));
      r := Ok(());
    }
  }

  /** `check_no_children`. */
  method CheckNoChildren(t: Trace, a: Action, n: nat) returns (r: Result<(), RuleError>)
    requires n < |t.spans|
    modifies t`spans
    ensures Performs(old(t.spans), NoChildrenWrites(a, old(t.spans), n), r, t.spans)
  {
    if |t.spans[n].children| == 0 {
      r := MarkAt(t, a, n);
    } else {
      ApplyOne(t.spans, Write(n, ""));
      r := Ok(());
    }
  }

  /** `check_parent`. */
  method CheckParent(t: Trace, m: Matcher, a: Action, n: nat) returns (r: Result<(), RuleError>)
    requires WellFormed(t.spans) && n < |t.spans|
    modifies t`spans
    ensures Performs(old(t.spans), ParentWrites(m, a, old(t.spans), n), r, t.spans)
  {
    match t.spans[n].parent
    case None =>
      ApplyOne(t.spans, Write(n, ""));
      r := Ok(());
    case Some(p) =>
      assert SpanInRange(t.spans[n], |t.spans|);
      r := MarkIfMatchedAt(t, m, a, p);
  }

  /** `check_self`, with its conditions evaluated on the span itself. */
  method CheckSelf(t: Trace, m: Matcher, a: Action, n: nat) returns (r: Result<(), RuleError>)
    requires n < |t.spans|
    modifies t`spans
    ensures Performs(old(t.spans), MarkIfMatched(m, a, old(t.spans), n), r, t.spans)
  {
    r := MarkIfMatchedAt(t, m, a, n);
  }

  /** The state of the loop in `check_children` after its first `k` children. */
  ghost predicate ChildLoop(m: Matcher, a: Action, s0: seq<Span>, stack: seq<nat>, k: nat, done: seq<Write>, cur: seq<Span>)
  {
    && WellFormed(s0) && OnStack(s0, stack) && k <= |s0[Last(stack)].children|
    && TargetsIn(done, |s0|) && cur == Apply(s0, done) && WellFormed(cur) && SameShape(s0, cur)
    && ChildrenFrom(m, a, s0, stack, 0) == Prefixed(done, ChildrenFrom(m, a, s0, stack, k))
  }

  lemma ChildLoopStart(m: Matcher, a: Action, s0: seq<Span>, stack: seq<nat>)
    requires WellFormed(s0) && OnStack(s0, stack)
    ensures ChildLoop(m, a, s0, stack, 0, [], s0)
  {
    ApplyOnlyMarks(s0, []);
    PrefixedNothing(ChildrenFrom(m, a, s0, stack, 0));
  }

  /** After child `k` the loop either stops with the error of the whole walk or goes on. */
  lemma ChildLoopNext(m: Matcher, a: Action, s0: seq<Span>, s: seq<Span>, s': seq<Span>, stack: seq<nat>, k: nat,
                      done: seq<Write>, r: Result<(), RuleError>)
    requires ChildLoop(m, a, s0, stack, k, done, s) && k < |s0[Last(stack)].children|
    requires OnStack(s, stack) && k < |s[Last(stack)].children|
    requires Performs(s, ChildStep(m, a, s, stack, k), r, s')
    ensures r.Err? ==> ChildrenFrom(m, a, s0, stack, 0) == Err(r.error)
    ensures r.Ok? ==> ChildStep(m, a, s0, stack, k).Ok?
                      && ChildLoop(m, a, s0, stack, k + 1, done + ChildStep(m, a, s0, stack, k).value, s')
  {
    ChildStepShape(m, a, s0, s, stack, k);
    if r.Ok? {
      var w := ChildStep(m, a, s0, stack, k).value;
      ApplyAppend(s0, done, w);
      ApplyOnlyMarks(s0, done + w);
      SameShapeWellFormed(s0, s');
      PrefixedTwice(done, w, ChildrenFrom(m, a, s0, stack, k + 1));
    }
  }

  lemma ChildLoopEnd(m: Matcher, a: Action, s0: seq<Span>, stack: seq<nat>, done: seq<Write>, cur: seq<Span>)
    requires OnStack(s0, stack) && ChildLoop(m, a, s0, stack, |s0[Last(stack)].children|, done, cur)
    ensures Performs(s0, ChildrenFrom(m, a, s0, stack, 0), Ok(()), cur)
  {
    assert done + [] == done;
  }

  /**
   * `check_children` on the span on top of `stack`, which holds the spans whose calls
   * are running; entering one of them again is where Python's recursion never ends.
   */
  method CheckChildren(t: Trace, m: Matcher, a: Action, stack: seq<nat>) returns (r: Result<(), RuleError>)
    requires WellFormed(t.spans) && OnStack(t.spans, stack)
    modifies t`spans
    ensures Performs(old(t.spans), ChildrenFrom(m, a, old(t.spans), stack, 0), r, t.spans)
    decreases Unvisited(|t.spans|, stack), 1
  {
    var children := t.spans[stack[|stack| - 1]].children;
    ghost var s0 := t.spans;
    ghost var done: seq<Write> := [];
    ChildLoopStart(m, a, s0, stack);
    var k := 0;
    while k < |children|
      invariant ChildLoop(m, a, s0, stack, k, done, t.spans) && children == s0[Last(stack)].children
      decreases |children| - k
    {
      ghost var s := t.spans;
      r := VisitChild(t, m, a, stack, k);
      ChildLoopNext(m, a, s0, s, t.spans, stack, k, done, r);
      if r.Err? {
        return;
      }
      done := done + ChildStep(m, a, s0, stack, k).value;
      k := k + 1;
    }
    ChildLoopEnd(m, a, s0, stack, done, t.spans);
    return Ok(());
  }

  /** One turn of the loop in `check_children`: mark child `k` if it matches, then recurse into it. */
  method VisitChild(t: Trace, m: Matcher, a: Action, stack: seq<nat>, k: nat) returns (r: Result<(), RuleError>)
    requires WellFormed(t.spans) && OnStack(t.spans, stack) && k < |t.spans[Last(stack)].children|
    modifies t`spans
    ensures Performs(old(t.spans), ChildStep(m, a, old(t.spans), stack, k), r, t.spans)
    decreases Unvisited(|t.spans|, stack), 0
  {
    assert SpanInRange(t.spans[Last(stack)], |t.spans|);
    var c := t.spans[stack[|stack| - 1]].children[k];
    ghost var s := t.spans;
    r := MarkIfMatchedAt(t, m, a, c);
    if r.Err? {
      return;
    }
    if c in stack {
      return Err(Reentered(c));
    }
    PerformedShape(s, MarkIfMatched(m, a, s, c), r, t.spans);
    ghost var s1 := t.spans;
    UnvisitedShrinks(|t.spans|, stack, c);
    r := CheckChildren(t, m, a, stack + [c]);
    VisitChildDone(m, a, s, s1, t.spans, stack, k, r);
  }

  lemma VisitChildDone(m: Matcher, a: Action, s: seq<Span>, s1: seq<Span>, s2: seq<Span>, stack: seq<nat>, k: nat,
                       r: Result<(), RuleError>)
    requires WellFormed(s) && OnStack(s, stack) && k < |s[Last(stack)].children|
    requires s[Last(stack)].children[k] < |s| && s[Last(stack)].children[k] !in stack
    requires Performs(s, MarkIfMatched(m, a, s, s[Last(stack)].children[k]), Ok(()), s1)
    requires WellFormed(s1) && SameShape(s, s1)
    requires Performs(s1, ChildrenFrom(m, a, s1, stack + [s[Last(stack)].children[k]], 0), r, s2)
    ensures Performs(s, ChildStep(m, a, s, stack, k), r, s2)
  {
    var c := s[Last(stack)].children[k];
    ChildrenFromShape(m, a, s, s1, stack + [c], 0);
    if r.Ok? {
      var w1 := MarkIfMatched(m, a, s, c).value;
      var w2 := ChildrenFrom(m, a, s, stack + [c], 0).value;
      ChildrenFromInRange(m, a, s, stack + [c]);
      ApplyAppend(s, w1, w2);
    }
  }

  lemma ChildrenFromInRange(m: Matcher, a: Action, s: seq<Span>, stack: seq<nat>)
    requires WellFormed(s) && OnStack(s, stack) && ChildrenFrom(m, a, s, stack, 0).Ok?
    ensures TargetsIn(ChildrenFrom(m, a, s, stack, 0).value, |s|)
  {
    ChildrenFromTargets(m, a, s, stack, 0);
    var ws := ChildrenFrom(m, a, s, stack, 0).value;
    assert forall j :: 0 <= j < |ws| ==> ws[j] in ws;
  }

  /** `execute`. */
  method Execute(t: Trace, m: Matcher, a: Action, n: nat) returns (r: Result<(), RuleError>)
    requires WellFormed(t.spans) && n < |t.spans|
    modifies t`spans
    ensures Performs(old(t.spans), ActionWrites(m, a, old(t.spans), n), r, t.spans)
  {
    if a.kind == "children" {
      r := CheckChildren(t, m, a, [n]);
    } else if a.kind == "parent" {
      r := CheckParent(t, m, a, n);
    } else if a.kind == "self" {
      r := CheckSelf(t, m, a, n);
    } else if a.kind == "no-children" {
      r := CheckNoChildren(t, a, n);
    } else {
      ApplyOne(t.spans, Write(n, ""));
      r := Ok(());
    }
  }

  /** The state of the action loop of `Rule.perform` after its first `k` actions. */
  ghost predicate ActionLoop(m: Matcher, rule: Rule, s0: seq<Span>, n: nat, k: nat, done: seq<Write>, cur: seq<Span>)
  {
    && WellFormed(s0) && n < |s0| && k <= |rule.actions|
    && TargetsIn(done, |s0|) && cur == Apply(s0, done) && WellFormed(cur) && SameShape(s0, cur)
    && ActionsFrom(m, rule.actions, s0, n, 0) == Prefixed(done, ActionsFrom(m, rule.actions, s0, n, k))
  }

  lemma ActionLoopStart(m: Matcher, rule: Rule, s0: seq<Span>, n: nat)
    requires WellFormed(s0) && n < |s0|
    ensures ActionLoop(m, rule, s0, n, 0, [], s0)
  {
    ApplyOnlyMarks(s0, []);
    PrefixedNothing(ActionsFrom(m, rule.actions, s0, n, 0));
  }

  lemma ActionLoopNext(m: Matcher, rule: Rule, s0: seq<Span>, s: seq<Span>, s': seq<Span>, n: nat, k: nat,
                       done: seq<Write>, r: Result<(), RuleError>)
    requires ActionLoop(m, rule, s0, n, k, done, s) && k < |rule.actions|
    requires Performs(s, ActionWrites(m, rule.actions[k], s, n), r, s')
    ensures r.Err? ==> ActionsFrom(m, rule.actions, s0, n, 0) == Err(r.error)
    ensures r.Ok? ==> ActionWrites(m, rule.actions[k], s0, n).Ok?
                      && ActionLoop(m, rule, s0, n, k + 1, done + ActionWrites(m, rule.actions[k], s0, n).value, s')
  {
    ActionWritesShape(m, rule.actions[k], s0, s, n);
    if r.Ok? {
      var w := ActionWrites(m, rule.actions[k], s0, n).value;
      ApplyAppend(s0, done, w);
      ApplyOnlyMarks(s0, done + w);
      SameShapeWellFormed(s0, s');
      PrefixedTwice(done, w, ActionsFrom(m, rule.actions, s0, n, k + 1));
    }
  }

  lemma ActionLoopEnd(m: Matcher, rule: Rule, s0: seq<Span>, n: nat, done: seq<Write>, cur: seq<Span>)
    requires ActionLoop(m, rule, s0, n, |rule.actions|, done, cur)
    ensures AllHold(m, rule.conditions, s0[n]) ==> Performs(s0, RuleWrites(m, rule, s0, n), Ok(()), cur)
  {
    assert done + [] == done;
  }

  /** `Rule.perform` on span `n`: every condition is checked on it, then the actions run in order. */
  method Perform(t: Trace, m: Matcher, rule: Rule, n: nat) returns (r: Result<(), RuleError>)
    requires WellFormed(t.spans) && n < |t.spans|
    modifies t`spans
    ensures Performs(old(t.spans), RuleWrites(m, rule, old(t.spans), n), r, t.spans)
  {
    var matched := ConditionsMatch(m, rule.conditions, t.spans[n]);
    if !matched {
      ApplyOne(t.spans, Write(n, ""));
      return Ok(());
    }
    ghost var s0 := t.spans;
    ghost var done: seq<Write> := [];
    ActionLoopStart(m, rule, s0, n);
    var k := 0;
    while k < |rule.actions|
      invariant ActionLoop(m, rule, s0, n, k, done, t.spans)
      decreases |rule.actions| - k
    {
      ghost var s := t.spans;
      r := Execute(t, m, rule.actions[k], n);
      ActionLoopNext(m, rule, s0, s, t.spans, n, k, done, r);
      if r.Err? {
        return;
      }
      done := done + ActionWrites(m, rule.actions[k], s0, n).value;
      k := k + 1;
    }
    ActionLoopEnd(m, rule, s0, n, done, t.spans);
    return Ok(());
  }

  // ---------------------------------------------------------------- every rule on every span

  /** The rules from the `j`-th on, performed on span `n`. */
  function RulesOn(m: Matcher, rules: seq<Rule>, s: seq<Span>, n: nat, j: nat): Result<seq<Write>, RuleError>
    requires WellFormed(s) && n < |s| && j <= |rules|
    decreases |rules| - j
  {
    if j == |rules| then Ok([])
    else
      match RuleWrites(m, rules[j], s, n)
      case Err(e) => Err(e)
      case Ok(w) => Prefixed(w, RulesOn(m, rules, s, n, j + 1))
  }

  /** Every rule on every span from the `i`-th on, in the order of the trace's spans. */
  function RulesFrom(m: Matcher, rules: seq<Rule>, s: seq<Span>, i: nat): Result<seq<Write>, RuleError>
    requires WellFormed(s) && i <= |s|
    decreases |s| - i
  {
    if i == |s| then Ok([])
    else
      match RulesOn(m, rules, s, i, 0)
      case Err(e) => Err(e)
      case Ok(w) => Prefixed(w, RulesFrom(m, rules, s, i + 1))
  }

  lemma {:induction false} RulesOnShape(m: Matcher, rules: seq<Rule>, s: seq<Span>, r: seq<Span>, n: nat, j: nat)
    requires WellFormed(s) && SameShape(s, r) && n < |s| && j <= |rules|
    ensures WellFormed(r) && RulesOn(m, rules, r, n, j) == RulesOn(m, rules, s, n, j)
    decreases |rules| - j
  {
    SameShapeWellFormed(s, r);
    if j < |rules| {
      RuleWritesShape(m, rules[j], s, r, n);
      RulesOnShape(m, rules, s, r, n, j + 1);
    }
  }

  lemma RulesFromShape(m: Matcher, rules: seq<Rule>, s: seq<Span>, r: seq<Span>)
    requires WellFormed(s) && WellFormed(r) && SameShape(s, r)
    ensures RulesFrom(m, rules, r, 0) == RulesFrom(m, rules, s, 0)
  {
    forall n | 0 <= n < |s|
      ensures RulesOn(m, rules, r, n, 0) == RulesOn(m, rules, s, n, 0)
    {
      RulesOnShape(m, rules, s, r, n, 0);
    }
    RulesFromAgree(m, rules, s, r, 0);
  }

  /** Arenas of the same size on which every span's rules write the same agree on the whole pass. */
  lemma {:induction false} RulesFromAgree(m: Matcher, rules: seq<Rule>, s: seq<Span>, r: seq<Span>, i: nat)
    requires WellFormed(s) && WellFormed(r) && |s| == |r| && i <= |s|
    requires forall n :: i <= n < |s| ==> RulesOn(m, rules, r, n, 0) == RulesOn(m, rules, s, n, 0)
    ensures RulesFrom(m, rules, r, i) == RulesFrom(m, rules, s, i)
    decreases |s| - i
  {
    if i < |s| {
      RulesFromAgree(m, rules, s, r, i + 1);
    }
  }

  lemma {:induction false} RulesOnInRange(m: Matcher, rules: seq<Rule>, s: seq<Span>, n: nat, j: nat)
    requires WellFormed(s) && n < |s| && j <= |rules| && RulesOn(m, rules, s, n, j).Ok?
    ensures TargetsIn(RulesOn(m, rules, s, n, j).value, |s|)
    decreases |rules| - j
  {
    if j < |rules| {
      ActionsInRange(m, rules[j], s, n);
      RulesOnInRange(m, rules, s, n, j + 1);
    }
  }

  lemma {:induction false} RulesFromInRange(m: Matcher, rules: seq<Rule>, s: seq<Span>, i: nat)
    requires WellFormed(s) && i <= |s| && RulesFrom(m, rules, s, i).Ok?
    ensures TargetsIn(RulesFrom(m, rules, s, i).value, |s|)
    decreases |s| - i
  {
    if i < |s| {
      RulesOnInRange(m, rules, s, i, 0);
      RulesFromInRange(m, rules, s, i + 1);
    }
  }

  /**
   * Running every rule on every span a second time changes nothing, and the first run
   * only marks: the tree, tags and logs are kept and no error flag is cleared.
   */
  lemma RulesIdempotent(m: Matcher, rules: seq<Rule>, s: seq<Span>)
    requires WellFormed(s) && RulesFrom(m, rules, s, 0).Ok?
    ensures TargetsIn(RulesFrom(m, rules, s, 0).value, |s|)
    ensures var r := Apply(s, RulesFrom(m, rules, s, 0).value);
            && SameShape(s, r) && WellFormed(r)
            && (forall i :: 0 <= i < |s| && s[i].error ==> r[i].error)
            && RulesFrom(m, rules, r, 0) == RulesFrom(m, rules, s, 0)
            && Apply(r, RulesFrom(m, rules, r, 0).value) == r
  {
    var ws := RulesFrom(m, rules, s, 0).value;
    RulesFromInRange(m, rules, s, 0);
    var r := Apply(s, ws);
    ApplyOnlyMarks(s, ws);
    SameShapeWellFormed(s, r);
    RulesFromShape(m, rules, s, r);
    ApplyTwice(s, ws);
  }

  ghost predicate RuleLoop(m: Matcher, rules: seq<Rule>, s0: seq<Span>, n: nat, j: nat, done: seq<Write>, cur: seq<Span>)
  {
    && WellFormed(s0) && n < |s0| && j <= |rules|
    && TargetsIn(done, |s0|) && cur == Apply(s0, done) && WellFormed(cur) && SameShape(s0, cur)
    && RulesOn(m, rules, s0, n, 0) == Prefixed(done, RulesOn(m, rules, s0, n, j))
  }

  lemma RuleLoopNext(m: Matcher, rules: seq<Rule>, s0: seq<Span>, s: seq<Span>, s': seq<Span>, n: nat, j: nat,
                     done: seq<Write>, r: Result<(), RuleError>)
    requires RuleLoop(m, rules, s0, n, j, done, s) && j < |rules|
    requires Performs(s, RuleWrites(m, rules[j], s, n), r, s')
    ensures r.Err? ==> RulesOn(m, rules, s0, n, 0) == Err(r.error)
    ensures r.Ok? ==> RuleWrites(m, rules[j], s0, n).Ok?
                      && RuleLoop(m, rules, s0, n, j + 1, done + RuleWrites(m, rules[j], s0, n).value, s')
  {
    RuleWritesShape(m, rules[j], s0, s, n);
    if r.Ok? {
      var w := RuleWrites(m, rules[j], s0, n).value;
      ApplyAppend(s0, done, w);
      ApplyOnlyMarks(s0, done + w);
      SameShapeWellFormed(s0, s');
      PrefixedTwice(done, w, RulesOn(m, rules, s0, n, j + 1));
    }
  }

  /** The loop over the rules for one span. */
  method PerformAll(t: Trace, m: Matcher, rules: seq<Rule>, n: nat) returns (r: Result<(), RuleError>)
    requires WellFormed(t.spans) && n < |t.spans|
    modifies t`spans
    ensures Performs(old(t.spans), RulesOn(m, rules, old(t.spans), n, 0), r, t.spans)
  {
    ghost var s0 := t.spans;
    ghost var done: seq<Write> := [];
    ApplyOnlyMarks(s0, []);
    PrefixedNothing(RulesOn(m, rules, s0, n, 0));
    var j := 0;
    while j < |rules|
      invariant RuleLoop(m, rules, s0, n, j, done, t.spans)
      decreases |rules| - j
    {
      ghost var s := t.spans;
      r := Perform(t, m, rules[j], n);
      RuleLoopNext(m, rules, s0, s, t.spans, n, j, done, r);
      if r.Err? {
        return;
      }
      done := done + RuleWrites(m, rules[j], s0, n).value;
      j := j + 1;
    }
    assert done + [] == done;
    return Ok(());
  }

  ghost predicate SpanLoop(m: Matcher, rules: seq<Rule>, s0: seq<Span>, i: nat, done: seq<Write>, cur: seq<Span>)
  {
    && WellFormed(s0) && i <= |s0|
    && TargetsIn(done, |s0|) && cur == Apply(s0, done) && WellFormed(cur) && SameShape(s0, cur)
    && RulesFrom(m, rules, s0, 0) == Prefixed(done, RulesFrom(m, rules, s0, i))
  }

  lemma SpanLoopNext(m: Matcher, rules: seq<Rule>, s0: seq<Span>, s: seq<Span>, s': seq<Span>, i: nat,
                     done: seq<Write>, r: Result<(), RuleError>)
    requires SpanLoop(m, rules, s0, i, done, s) && i < |s0|
    requires Performs(s, RulesOn(m, rules, s, i, 0), r, s')
    ensures r.Err? ==> RulesFrom(m, rules, s0, 0) == Err(r.error)
    ensures r.Ok? ==> RulesOn(m, rules, s0, i, 0).Ok?
                      && SpanLoop(m, rules, s0, i + 1, done + RulesOn(m, rules, s0, i, 0).value, s')
  {
    RulesOnShape(m, rules, s0, s, i, 0);
    if r.Ok? {
      var w := RulesOn(m, rules, s0, i, 0).value;
      ApplyAppend(s0, done, w);
      ApplyOnlyMarks(s0, done + w);
      SameShapeWellFormed(s0, s');
      PrefixedTwice(done, w, RulesFrom(m, rules, s0, i + 1));
    }
  }

  /** Every rule performed on every span of the trace, span by span. */
  method ApplyRules(t: Trace, m: Matcher, rules: seq<Rule>) returns (r: Result<(), RuleError>)
    requires WellFormed(t.spans)
    modifies t`spans
    ensures Performs(old(t.spans), RulesFrom(m, rules, old(t.spans), 0), r, t.spans)
  {
    ghost var s0 := t.spans;
    ghost var done: seq<Write> := [];
    ApplyOnlyMarks(s0, []);
    PrefixedNothing(RulesFrom(m, rules, s0, 0));
    var i := 0;
    while i < |t.spans|
      invariant SpanLoop(m, rules, s0, i, done, t.spans)
      decreases |s0| - i
    {
      ghost var s := t.spans;
      r := PerformAll(t, m, rules, i);
      SpanLoopNext(m, rules, s0, s, t.spans, i, done, r);
      if r.Err? {
        return;
      }
      done := done + RulesOn(m, rules, s0, i, 0).value;
      i := i + 1;
    }
    assert done + [] == done;
    return Ok(());
  }

  // ---------------------------------------------------------------- check_self as written

  /**
   * The condition loop of `check_self` as written: each condition is checked on
   * `span.parent`. On a span without parent, a tags or logs condition reads an attribute
   * of `None`; a condition on any other location is false without reading anything.
   */
  function MatchedOnParent(m: Matcher, cs: seq<Condition>, s: seq<Span>, n: nat): (r: Result<bool, RuleError>)
    requires WellFormed(s) && n < |s|
    decreases |cs|
  {
    if cs == [] then Ok(true)
    else
      match s[n].parent
      case None => if cs[0].location == "tags" || cs[0].location == "logs" then Err(NoParent) else Ok(false)
      case Some(p) =>
        assert SpanInRange(s[n], |s|);
        if Holds(m, cs[0], s[p]) then MatchedOnParent(m, cs[1..], s, n) else Ok(false)
  }

  /** `check_self` as written: the span is marked when its parent matches. */
  function SelfWritesAsWritten(m: Matcher, a: Action, s: seq<Span>, n: nat): Result<seq<Write>, RuleError>
    requires WellFormed(s) && n < |s|
  {
    match MatchedOnParent(m, a.conditions, s, n)
    case Err(e) => Err(e)
    case Ok(b) => if b then MarkWith(a, s, n) else Ok([])
  }

  /**
   * As written, `check_self` decides on the parent's tags and logs: a span with a parent
   * is marked exactly when the parent matches, and a span without one either raises or,
   * with no conditions, is marked unconditionally.
   */
  lemma {:induction false} SelfAsWrittenReadsParent(m: Matcher, a: Action, s: seq<Span>, n: nat)
    requires WellFormed(s) && n < |s|
    ensures s[n].parent.Some? && s[n].parent.value < |s| ==>
              SelfWritesAsWritten(m, a, s, n)
              == if AllHold(m, a.conditions, s[s[n].parent.value]) then MarkWith(a, s, n) else Ok([])
    ensures a.conditions == [] ==> SelfWritesAsWritten(m, a, s, n) == MarkWith(a, s, n)
    ensures s[n].parent.None? && a.conditions != [] && a.conditions[0].location in {"tags", "logs"} ==>
              SelfWritesAsWritten(m, a, s, n) == Err(NoParent)
  {
    if s[n].parent.Some? {
      MatchedOnParentHolds(m, a.conditions, s, n);
    }
  }

  lemma {:induction false} MatchedOnParentHolds(m: Matcher, cs: seq<Condition>, s: seq<Span>, n: nat)
    requires WellFormed(s) && n < |s| && s[n].parent.Some? && s[n].parent.value < |s|
    ensures MatchedOnParent(m, cs, s, n) == Ok(AllHold(m, cs, s[s[n].parent.value]))
    decreases |cs|
  {
    if cs != [] {
      MatchedOnParentHolds(m, cs[1..], s, n);
      var p := s[n].parent.value;
      assert forall i :: 1 <= i < |cs| ==> cs[i] == cs[1..][i - 1];
      assert AllHold(m, cs, s[p]) <==> Holds(m, cs[0], s[p]) && AllHold(m, cs[1..], s[p]);
    }
  }

  /** A span with the given tags and tree links and nothing else. */
  function Bare(tags: map<string, Value>, parent: Option<nat>, children: seq<nat>): Span
  {
    Span("", "", "", 0, 0, 0, map[], tags, [], [], false, VNone, None, VNone, 0.0, Root, children, parent,
         None, None, None)
  }

  /**
   * A child whose tag matches a `self` action is not marked as written, because its
   * parent's tag does not match; the same action on the root raises. With the conditions
   * evaluated on the span itself, the child is marked.
   */
  lemma SelfCheckReadsParent()
    ensures var m: Matcher := (pattern: string, text: string) => pattern == text;
            var s := [Bare(map["x" := VStr("up")], None, [1]), Bare(map["x" := VStr("down")], Some(0), [])];
            var a := Action("self", [Condition("tags", "x", "down")], "broken");
            && WellFormed(s)
            && SelfWritesAsWritten(m, a, s, 1) == Ok([])
            && SelfWritesAsWritten(m, a, s, 0) == Err(NoParent)
            && ActionWrites(m, a, s, 1) == Ok([Write(1, "broken")])
  {
    var m: Matcher := (pattern: string, text: string) => pattern == text;
    var s := [Bare(map["x" := VStr("up")], None, [1]), Bare(map["x" := VStr("down")], Some(0), [])];
    var a := Action("self", [Condition("tags", "x", "down")], "broken");
    assert WellFormed(s);
    assert FieldText(s[0].tags, "x") == "up" && FieldText(s[1].tags, "x") == "down";
    assert !Holds(m, a.conditions[0], s[0]) && Holds(m, a.conditions[0], s[1]);
    assert !AllHold(m, a.conditions, s[0]) && AllHold(m, a.conditions, s[1]);
    SelfAsWrittenReadsParent(m, a, s, 1);
    SelfAsWrittenReadsParent(m, a, s, 0);
    CauseWithoutPlaceholders("broken", s[1].tags);
  }
}
