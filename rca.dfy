/**
 * The root-cause rater: `get_root_cause` walks the span tree from the root, rates the
 * errors at each hierarchy level and links spans through `caused`/`caused_by`. Two
 * versions exist and differ in two places, captured by `Engine`:
 *   - trace_explorer/analysis/rca.py (`Splicing`) splices an existing cause into the chain
 *     and averages two ratings whose error timestamps lie closer than a clock deviation;
 *   - tracing_rca/analysis/rca.py (`WriteOnce`) writes each link slot at most once and
 *     never averages.
 */
module Rca {
  import opened Wrappers
  import opened Spans
  import opened Arena
  import opened Traces

  /** Which of the two raters runs; `maxClockDeviation` is MAX_CLOCK_DEVIATION in microseconds. */
  datatype Engine = Splicing(maxClockDeviation: int) | WriteOnce

  /** AttributeError: a span without an error log has no `cause_timestamp`. */
  datatype RcaError = MissingCauseTimestamp(spanId: string)

  /** `r` agrees with `s` except in ratings and cause links. */
  predicate OnlyRatingsAndLinks(s: seq<Span>, r: seq<Span>)
  {
    |r| == |s| && forall i :: 0 <= i < |s| ==>
      r[i] == s[i].(rating := r[i].rating, caused := r[i].caused, causedBy := r[i].causedBy)
  }

  predicate NonNegative(s: seq<Span>)
  {
    forall i :: 0 <= i < |s| ==> s[i].rating >= 0.0
  }

  predicate RatingsGrow(s: seq<Span>, r: seq<Span>)
    requires |r| == |s|
  {
    forall i :: 0 <= i < |s| ==> s[i].rating <= r[i].rating
  }

  /** A link slot that holds a span keeps it. */
  predicate LinksKept(s: seq<Span>, r: seq<Span>)
    requires |r| == |s|
  {
    forall i :: 0 <= i < |s| ==>
      (s[i].caused.Some? ==> r[i].caused == s[i].caused) && (s[i].causedBy.Some? ==> r[i].causedBy == s[i].causedBy)
  }

  /**
   * What a rating step may do to the arena: change ratings and cause links only, keep
   * every index in range and non-negative ratings non-negative; the write-once rater
   * moreover only raises ratings (from non-negative ones) and never overwrites a link.
   */
  predicate Rated(e: Engine, s: seq<Span>, r: seq<Span>)
  {
    && OnlyRatingsAndLinks(s, r) && WellFormed(r)
    && (NonNegative(s) ==> NonNegative(r) && (e.WriteOnce? ==> RatingsGrow(s, r)))
    && (e.WriteOnce? ==> LinksKept(s, r))
  }

  lemma RatedTrans(e: Engine, s: seq<Span>, s1: seq<Span>, s2: seq<Span>)
    requires Rated(e, s, s1) && Rated(e, s1, s2)
    ensures Rated(e, s, s2)
  {
  }

  lemma RatedRefl(e: Engine, s: seq<Span>)
    requires WellFormed(s)
    ensures Rated(e, s, s)
  {
  }

  /** The walk below Last(path) stays a walk below it in an arena rated from `s`. */
  lemma RatedDescending(e: Engine, s: seq<Span>, r: seq<Span>, path: seq<nat>)
    requires Tree(s) && IsPath(s, path) && Rated(e, s, r)
    ensures Tree(r) && IsPath(r, path)
  {
    assert SameTree(s, r);
    SameTreeKeepsTree(s, r);
    SameTreeKeepsPath(s, r, path);
  }

  // ---------------------------------------------------------------- single updates

  /** `span.rating += x`. */
  function AddRating(s: seq<Span>, i: nat, x: real): (r: seq<Span>)
    requires i < |s|
    ensures |r| == |s| && r[i].rating == s[i].rating + x
    ensures forall j :: 0 <= j < |s| && j != i ==> r[j] == s[j]
  {
    s[i := s[i].(rating := s[i].rating + x)]
  }

  /** Adding an amount that is non-negative whenever the ratings are is a rating step. */
  lemma AddRatingRated(e: Engine, s: seq<Span>, i: nat, x: real)
    requires WellFormed(s) && i < |s| && (NonNegative(s) ==> x >= 0.0)
    ensures Rated(e, s, AddRating(s, i, x))
  {
    UpdateKeepsWellFormed(s, i, s[i].(rating := s[i].rating + x));
  }

  /** Setting a rating to a value that is non-negative whenever the new ratings are. */
  lemma SetRatingRated(dev: int, s: seq<Span>, i: nat, x: real)
    requires WellFormed(s) && i < |s| && (NonNegative(s) ==> x >= 0.0)
    ensures Rated(Splicing(dev), s, s[i := s[i].(rating := x)])
  {
    UpdateKeepsWellFormed(s, i, s[i].(rating := x));
  }

  function Abs(x: int): nat
  {
    if x < 0 then -x else x
  }

  /** `span.cause_timestamp`, which exists only when the span has an error log. */
  function Stamp(s: seq<Span>, i: nat): (r: Result<int, RcaError>)
    requires i < |s|
    ensures r.Ok? <==> s[i].causeTimestamp.Some?
    ensures r.Ok? ==> s[i].causeTimestamp == Some(r.value)
    ensures r.Err? ==> r.error == MissingCauseTimestamp(s[i].spanId)
  {
    match s[i].causeTimestamp
    case None => Err(MissingCauseTimestamp(s[i].spanId))
    case Some(ts) => Ok(ts)
  }

  /** Both ratings become their mean, so their sum is kept. */
  function Averaged(dev: int, s: seq<Span>, a: nat, b: nat): (r: seq<Span>)
    requires WellFormed(s) && a < |s| && b < |s|
    ensures Rated(Splicing(dev), s, r)
    ensures r[a].rating == r[b].rating == (s[a].rating + s[b].rating) / 2.0
    ensures a != b ==> r[a].rating + r[b].rating == s[a].rating + s[b].rating
    ensures forall i :: 0 <= i < |s| && i != a && i != b ==> r[i] == s[i]
  {
    var mean := (s[a].rating + s[b].rating) / 2.0;
    var s1 := s[a := s[a].(rating := mean)];
    SetRatingRated(dev, s, a, mean);
    SetRatingRated(dev, s1, b, mean);
    RatedTrans(Splicing(dev), s, s1, s1[b := s1[b].(rating := mean)]);
    s1[b := s1[b].(rating := mean)]
  }

  /**
   * `compare_log_timestamps(a, b)`: error timestamps closer than the deviation make both
   * ratings their mean; otherwise nothing changes. Reading a missing timestamp fails.
   */
  function Compared(dev: int, s: seq<Span>, a: nat, b: nat): (r: Result<seq<Span>, RcaError>)
    requires WellFormed(s) && a < |s| && b < |s|
    ensures r.Err? <==> s[a].causeTimestamp.None? || s[b].causeTimestamp.None?
    ensures r.Err? ==> r.error == MissingCauseTimestamp(if s[a].causeTimestamp.None? then s[a].spanId else s[b].spanId)
    ensures r.Ok? ==> Rated(Splicing(dev), s, r.value)
    ensures r.Ok? ==>
              r.value == if Abs(s[a].causeTimestamp.value - s[b].causeTimestamp.value) < dev
                         then Averaged(dev, s, a, b) else s
  {
    match Stamp(s, a)
    case Err(x) => Err(x)
    case Ok(ta) =>
      match Stamp(s, b)
      case Err(x) => Err(x)
      case Ok(tb) =>
        if Abs(ta - tb) < dev then Ok(Averaged(dev, s, a, b))
        else RatedRefl(Splicing(dev), s); Ok(s)
  }

  /**
   * `resolve_cause_relation(c, f)` of the splicing rater: `c` causes `f`, and a span `t`
   * that caused `f` before now causes `c`.
   */
  function Splice(s: seq<Span>, c: nat, f: nat): (r: seq<Span>)
    requires WellFormed(s) && c < |s| && f < |s|
  {
    var tmp := s[f].causedBy;
    var s1 := s[c := s[c].(caused := Some(f))];
    var s2 := s1[f := s1[f].(causedBy := Some(c))];
    if tmp.Some? then
      var s3 := s2[tmp.value := s2[tmp.value].(caused := Some(c))];
      s3[c := s3[c].(causedBy := tmp)]
    else s2
  }

  /** `resolve_cause_relation(c, f)` of the write-once rater: each empty slot is filled. */
  function LinkOnce(s: seq<Span>, c: nat, f: nat): (r: seq<Span>)
    requires c < |s| && f < |s|
  {
    var s1 := if s[c].caused.None? then s[c := s[c].(caused := Some(f))] else s;
    if s1[f].causedBy.None? then s1[f := s1[f].(causedBy := Some(c))] else s1
  }

  function Link(e: Engine, s: seq<Span>, c: nat, f: nat): (r: seq<Span>)
    requires WellFormed(s) && c < |s| && f < |s|
    ensures Rated(e, s, r) && LinksOnly(s, r)
  {
    if e.Splicing? then SpliceRated(e, s, c, f); Splice(s, c, f)
    else LinkOnceRated(e, s, c, f); LinkOnce(s, c, f)
  }

  /** `r` differs from `s` in cause links only. */
  predicate LinksOnly(s: seq<Span>, r: seq<Span>)
  {
    |r| == |s| && forall i :: 0 <= i < |s| ==> r[i] == s[i].(caused := r[i].caused, causedBy := r[i].causedBy)
  }

  /** Setting the cause links of one span to spans of the arena. */
  lemma SetLinks(s: seq<Span>, i: nat, caused: Option<nat>, causedBy: Option<nat>)
    requires WellFormed(s) && i < |s| && InRange(caused, |s|) && InRange(causedBy, |s|)
    ensures var r := s[i := s[i].(caused := caused, causedBy := causedBy)];
            LinksOnly(s, r) && WellFormed(r)
  {
    UpdateKeepsWellFormed(s, i, s[i].(caused := caused, causedBy := causedBy));
  }

  lemma LinksOnlyTrans(s: seq<Span>, s1: seq<Span>, s2: seq<Span>)
    requires LinksOnly(s, s1) && LinksOnly(s1, s2)
    ensures LinksOnly(s, s2)
  {
  }

  lemma LinksOnlyRated(e: Engine, s: seq<Span>, r: seq<Span>)
    requires LinksOnly(s, r) && WellFormed(r) && (e.WriteOnce? ==> LinksKept(s, r))
    ensures Rated(e, s, r)
  {
  }

  lemma LinksKeptTrans(s: seq<Span>, s1: seq<Span>, s2: seq<Span>)
    requires |s1| == |s| && |s2| == |s| && LinksKept(s, s1) && LinksKept(s1, s2)
    ensures LinksKept(s, s2)
  {
  }

  /** The splice changes cause links only. */
  lemma SpliceRated(e: Engine, s: seq<Span>, c: nat, f: nat)
    requires e.Splicing? && WellFormed(s) && c < |s| && f < |s|
    ensures Rated(e, s, Splice(s, c, f)) && LinksOnly(s, Splice(s, c, f))
  {
    var tmp := s[f].causedBy;
    var s1 := s[c := s[c].(caused := Some(f))];
    SetLinks(s, c, Some(f), s[c].causedBy);
    var s2 := s1[f := s1[f].(causedBy := Some(c))];
    SetLinks(s1, f, s1[f].caused, Some(c));
    LinksOnlyTrans(s, s1, s2);
    if tmp.Some? {
      var s3 := s2[tmp.value := s2[tmp.value].(caused := Some(c))];
      SetLinks(s2, tmp.value, Some(c), s2[tmp.value].causedBy);
      LinksOnlyTrans(s, s2, s3);
      SetLinks(s3, c, s3[c].caused, tmp);
      LinksOnlyTrans(s, s3, Splice(s, c, f));
    }
    LinksOnlyRated(e, s, Splice(s, c, f));
  }

  /**
   * What the splice leaves: `c.caused == f` and `f.caused_by == c`, except that a former
   * cause `t` of `f` becomes the cause of `c` (`t.caused == c`, `c.caused_by == t`), which
   * for `t == c` turns `c` into its own cause. Only these slots change.
   */
  lemma SpliceFacts(s: seq<Span>, c: nat, f: nat)
    requires WellFormed(s) && c < |s| && f < |s|
    ensures var r := Splice(s, c, f);
            match s[f].causedBy
            case None =>
              && r[c].caused == Some(f) && r[f].causedBy == Some(c)
              && forall i :: 0 <= i < |s| && i != c && i != f ==> r[i] == s[i]
            case Some(t) =>
              && r[t].caused == Some(c) && r[c].causedBy == Some(t)
              && (t != c ==> r[c].caused == Some(f))
              && (c != f ==> r[f].causedBy == Some(c))
              && forall i :: 0 <= i < |s| && i != c && i != f && i != t ==> r[i] == s[i]
  {
  }

  /** The write-once link changes empty cause links only. */
  lemma LinkOnceRated(e: Engine, s: seq<Span>, c: nat, f: nat)
    requires WellFormed(s) && c < |s| && f < |s|
    ensures Rated(e, s, LinkOnce(s, c, f)) && LinksOnly(s, LinkOnce(s, c, f))
  {
    var s1 := if s[c].caused.None? then s[c := s[c].(caused := Some(f))] else s;
    if s[c].caused.None? {
      SetLinks(s, c, Some(f), s[c].causedBy);
    }
    assert LinksKept(s, s1);
    var r := LinkOnce(s, c, f);
    if s1[f].causedBy.None? {
      SetLinks(s1, f, s1[f].caused, Some(c));
    }
    assert LinksKept(s1, r);
    LinksOnlyTrans(s, s1, r);
    LinksKeptTrans(s, s1, r);
    LinksOnlyRated(e, s, r);
  }

  /**
   * The write-once link fills `c.caused` and `f.caused_by` only where they are empty, so
   * no link is overwritten, and a second call changes nothing.
   */
  lemma LinkOnceFacts(s: seq<Span>, c: nat, f: nat)
    requires WellFormed(s) && c < |s| && f < |s|
    ensures var r := LinkOnce(s, c, f);
            && r[c].caused == (if s[c].caused.None? then Some(f) else s[c].caused)
            && r[f].causedBy == (if s[f].causedBy.None? then Some(c) else s[f].causedBy)
            && (forall i :: 0 <= i < |s| && i != c && i != f ==> r[i] == s[i])
            && LinkOnce(r, c, f) == r
  {
  }

  // ---------------------------------------------------------------- rating_hierarchy_level

  /**
   * The sibling rule for the span `c`: an errored `previous` that ended before the errored
   * `c` started becomes its cause and gains 1; the splicing rater then compares their
   * error timestamps. Every other span is left as it is.
   */
  function SiblingRule(e: Engine, s: seq<Span>, c: nat): (r: Result<seq<Span>, RcaError>)
    requires WellFormed(s) && c < |s|
    ensures r.Ok? ==> Rated(e, s, r.value)
    ensures s[c].previous.None? ==> r == Ok(s)
    ensures s[c].previous.Some? && s[c].previous.value < |s| ==>
              var p := s[c].previous.value;
              !(s[c].error && s[p].error && s[c].startTime > s[p].endTime) ==> r == Ok(s)
  {
    match s[c].previous
    case None => RatedRefl(e, s); Ok(s)
    case Some(p) =>
      assert SpanInRange(s[c], |s|);
      if s[c].error && s[p].error && s[c].startTime > s[p].endTime then
        var s2 := Promote(e, s, p, c, 1.0);
        if e.Splicing? then
          match Compared(e.maxClockDeviation, s2, p, c)
          case Err(x) => Err(x)
          case Ok(s3) => RatedTrans(e, s, s2, s3); Ok(s3)
        else Ok(s2)
      else RatedRefl(e, s); Ok(s)
  }

  /** The loop of `rating_hierarchy_level(n)` from the `k`-th child of `n` on. */
  function HierarchyLevel(e: Engine, s: seq<Span>, n: nat, k: nat): (r: Result<seq<Span>, RcaError>)
    requires WellFormed(s) && n < |s| && k <= |s[n].children|
    ensures r.Ok? ==> Rated(e, s, r.value)
    decreases |s[n].children| - k
  {
    if k == |s[n].children| then RatedRefl(e, s); Ok(s)
    else
      ChildrenInRange(s, n);
      assert s[n].children[k] in s[n].children;
      match SiblingRule(e, s, s[n].children[k])
      case Err(x) => Err(x)
      case Ok(s1) =>
        match HierarchyLevel(e, s1, n, k + 1)
        case Err(x) => Err(x)
        case Ok(s2) => RatedTrans(e, s, s1, s2); Ok(s2)
  }

  // ---------------------------------------------------------------- get_root_cause

  /** `resolve_cause_relation(cause, effect)` followed by `cause.rating += x`. */
  function Promote(e: Engine, s: seq<Span>, cause: nat, effect: nat, x: real): (r: seq<Span>)
    requires WellFormed(s) && cause < |s| && effect < |s| && (NonNegative(s) ==> x >= 0.0)
    ensures Rated(e, s, r)
    ensures r[cause].rating == s[cause].rating + x
    ensures forall i :: 0 <= i < |s| && i != cause ==> r[i].rating == s[i].rating
  {
    var s1 := Link(e, s, cause, effect);
    assert NonNegative(s1) ==> NonNegative(s) by {
      if NonNegative(s1) {
        forall i | 0 <= i < |s| ensures s[i].rating >= 0.0 {
          assert s1[i].rating == s[i].rating;
        }
      }
    }
    AddRatingRated(e, s1, cause, x);
    RatedTrans(e, s, s1, AddRating(s1, cause, x));
    AddRating(s1, cause, x)
  }

  /**
   * CHILD_OF with both errored: of `c` and its parent `n`, the one with the earlier error
   * (the child on a tie, the sort being stable) becomes the cause of the other and gains
   * 1 plus the other's rating.
   */
  function ChildOfRule(e: Engine, s: seq<Span>, n: nat, c: nat): (r: Result<seq<Span>, RcaError>)
    requires WellFormed(s) && n < |s| && c < |s| && n != c
    ensures r.Err? <==> s[c].causeTimestamp.None? || s[n].causeTimestamp.None?
    ensures r.Ok? ==> Rated(e, s, r.value)
    ensures r.Ok? && s[c].causeTimestamp.value <= s[n].causeTimestamp.value ==>
              r.value == Promote(e, s, c, n, 1.0 + s[n].rating)
    ensures r.Ok? && s[n].causeTimestamp.value < s[c].causeTimestamp.value ==>
              r.value == Promote(e, s, n, c, 1.0 + s[c].rating)
  {
    match Stamp(s, c)
    case Err(x) => Err(x)
    case Ok(tc) =>
      match Stamp(s, n)
      case Err(x) => Err(x)
      case Ok(tn) =>
        if tc <= tn then Ok(Promote(e, s, c, n, 1.0 + s[n].rating))
        else Ok(Promote(e, s, n, c, 1.0 + s[c].rating))
  }

  /**
   * FOLLOWS_FROM with both errored: a parent whose error is strictly earlier causes the
   * child and gains 1; otherwise both gain 1 and no link is made.
   */
  function FollowsFromRule(e: Engine, s: seq<Span>, n: nat, c: nat): (r: Result<seq<Span>, RcaError>)
    requires WellFormed(s) && n < |s| && c < |s| && n != c
    ensures r.Err? <==> s[c].causeTimestamp.None? || s[n].causeTimestamp.None?
    ensures r.Ok? ==> Rated(e, s, r.value)
    ensures r.Ok? && s[n].causeTimestamp.value < s[c].causeTimestamp.value ==>
              r.value == Promote(e, s, n, c, 1.0)
    ensures r.Ok? && s[c].causeTimestamp.value <= s[n].causeTimestamp.value ==>
              r.value == AddRating(AddRating(s, c, 1.0), n, 1.0)
  {
    match Stamp(s, n)
    case Err(x) => Err(x)
    case Ok(tn) =>
      match Stamp(s, c)
      case Err(x) => Err(x)
      case Ok(tc) =>
        if tn < tc then Ok(Promote(e, s, n, c, 1.0))
        else
          var s1 := AddRating(s, c, 1.0);
          AddRatingRated(e, s, c, 1.0);
          AddRatingRated(e, s1, n, 1.0);
          RatedTrans(e, s, s1, AddRating(s1, n, 1.0));
          Ok(AddRating(s1, n, 1.0))
  }

  /**
   * Child `c` and parent `n` both errored: the rule of `c`'s relation type, then (splicing
   * rater) the comparison of their error timestamps.
   */
  function BothErroredRule(e: Engine, s: seq<Span>, n: nat, c: nat): (r: Result<seq<Span>, RcaError>)
    requires WellFormed(s) && n < |s| && c < |s| && n != c
    ensures r.Ok? ==> Rated(e, s, r.value)
  {
    if s[c].kind == Child then
      match ChildOfRule(e, s, n, c)
      case Err(x) => Err(x)
      case Ok(s1) =>
        match BothErroredFrom(e, s1, n, c)
        case Err(x) => Err(x)
        case Ok(s2) => RatedTrans(e, s, s1, s2); Ok(s2)
    else BothErroredFrom(e, s, n, c)
  }

  /** The FOLLOWS_FROM rule and the comparison that follow the CHILD_OF rule. */
  function BothErroredFrom(e: Engine, s: seq<Span>, n: nat, c: nat): (r: Result<seq<Span>, RcaError>)
    requires WellFormed(s) && n < |s| && c < |s| && n != c
    ensures r.Ok? ==> Rated(e, s, r.value)
  {
    var r1 := if s[c].kind == Follower then FollowsFromRule(e, s, n, c) else (RatedRefl(e, s); Ok(s));
    match r1
    case Err(x) => Err(x)
    case Ok(s1) =>
      if e.Splicing? then
        match Compared(e.maxClockDeviation, s1, c, n)
        case Err(x) => Err(x)
        case Ok(s2) => RatedTrans(e, s, s1, s2); Ok(s2)
      else Ok(s1)
  }

  /** What the parent's tally gains from child `c`: 1 when only the parent is errored. */
  function Tally(s: seq<Span>, n: nat, c: nat): (x: real)
    requires n < |s| && c < |s|
    ensures x == 0.0 || x == 1.0
    ensures x == 1.0 <==> !s[c].error && s[n].error
  {
    if !s[c].error && s[n].error then 1.0 else 0.0
  }

  /**
   * The rating of child `c` of `n` before the walk descends into it: both errored as
   * above, only the child errored gives it 1, otherwise nothing changes here.
   */
  function ChildRule(e: Engine, s: seq<Span>, n: nat, c: nat): (r: Result<seq<Span>, RcaError>)
    requires WellFormed(s) && n < |s| && c < |s| && n != c
    ensures r.Ok? ==> Rated(e, s, r.value)
    ensures s[c].error && !s[n].error ==> r == Ok(AddRating(s, c, 1.0))
    ensures !s[c].error ==> r == Ok(s)
  {
    if s[c].error && s[n].error then BothErroredRule(e, s, n, c)
    else if s[c].error then AddRatingRated(e, s, c, 1.0); Ok(AddRating(s, c, 1.0))
    else RatedRefl(e, s); Ok(s)
  }

  /**
   * `get_root_cause(n)` for `n` = Last(path): a span without children is left unchanged;
   * otherwise its level is rated, then each child in turn, descending into it, and
   * finally the parent gains its tally divided by the number of children.
   */
  function RootCause(e: Engine, s: seq<Span>, path: seq<nat>): (r: Result<seq<Span>, RcaError>)
    requires Tree(s) && IsPath(s, path)
    ensures r.Ok? ==> Rated(e, s, r.value)
    ensures |s[Last(path)].children| == 0 ==> r == Ok(s)
    decreases Unvisited(|s|, path), 2, 0
  {
    var n := Last(path);
    if |s[n].children| == 0 then RatedRefl(e, s); Ok(s)
    else
      match HierarchyLevel(e, s, n, 0)
      case Err(x) => Err(x)
      case Ok(s1) =>
        RatedDescending(e, s, s1, path);
        match RateChildren(e, s1, path, 0)
        case Err(x) => Err(x)
        case Ok(s2) => RatedTrans(e, s, s1, s2); Ok(s2)
  }

  /**
   * `parent_rating` after the first `k` children of `n`: one for each of them that is not
   * errored while `n` is. It depends on error flags and children only, which rating
   * never changes.
   */
  function ParentTally(s: seq<Span>, n: nat, k: nat): (x: real)
    requires WellFormed(s) && n < |s| && k <= |s[n].children|
    ensures 0.0 <= x <= k as real
    decreases k
  {
    if k == 0 then 0.0
    else
      assert SpanInRange(s[n], |s|);
      ParentTally(s, n, k - 1) + Tally(s, n, s[n].children[k - 1])
  }

  /** The tally reads only what rating leaves alone. */
  lemma {:induction false} ParentTallyKept(s: seq<Span>, r: seq<Span>, n: nat, k: nat)
    requires WellFormed(s) && WellFormed(r) && OnlyRatingsAndLinks(s, r) && n < |s| && k <= |s[n].children|
    ensures r[n].children == s[n].children && ParentTally(r, n, k) == ParentTally(s, n, k)
    decreases k
  {
    assert r[n] == s[n].(rating := r[n].rating, caused := r[n].caused, causedBy := r[n].causedBy);
    if k > 0 {
      ParentTallyKept(s, r, n, k - 1);
      assert SpanInRange(s[n], |s|);
      var c := s[n].children[k - 1];
      assert r[c] == s[c].(rating := r[c].rating, caused := r[c].caused, causedBy := r[c].causedBy);
    }
  }

  /** After the loop: the parent gains its tally divided by the number of its children. */
  function Normalised(e: Engine, s: seq<Span>, n: nat): (r: seq<Span>)
    requires WellFormed(s) && n < |s| && 0 < |s[n].children|
    ensures Rated(e, s, r)
    ensures r == AddRating(s, n, ParentTally(s, n, |s[n].children|) / |s[n].children| as real)
  {
    var x := ParentTally(s, n, |s[n].children|) / |s[n].children| as real;
    AddRatingRated(e, s, n, x);
    AddRating(s, n, x)
  }

  /** The loop of `get_root_cause(n)` from the `k`-th child on. */
  function RateChildren(e: Engine, s: seq<Span>, path: seq<nat>, k: nat): (r: Result<seq<Span>, RcaError>)
    requires Tree(s) && IsPath(s, path)
    requires 0 < |s[Last(path)].children| && k <= |s[Last(path)].children|
    ensures r.Ok? ==> Rated(e, s, r.value)
    decreases Unvisited(|s|, path), 1, |s[Last(path)].children| - k
  {
    var n := Last(path);
    var children := s[n].children;
    if k == |children| then Ok(Normalised(e, s, n))
    else
      var c := children[k];
      assert c in children;
      match Descend(e, s, path, c)
      case Err(x) => Err(x)
      case Ok(s1) =>
        RatedDescending(e, s, s1, path);
        assert s1[n] == s[n].(rating := s1[n].rating, caused := s1[n].caused, causedBy := s1[n].causedBy);
        match RateChildren(e, s1, path, k + 1)
        case Err(x) => Err(x)
        case Ok(s2) => RatedTrans(e, s, s1, s2); Ok(s2)
  }

  /** One turn of that loop: the rule for child `c`, then `get_root_cause(c)`. */
  function Descend(e: Engine, s: seq<Span>, path: seq<nat>, c: nat): (r: Result<seq<Span>, RcaError>)
    requires Tree(s) && IsPath(s, path) && c in s[Last(path)].children
    ensures r.Ok? ==> Rated(e, s, r.value)
    decreases Unvisited(|s|, path), 0, 0
  {
    ExtendPath(s, path, c);
    match ChildRule(e, s, Last(path), c)
    case Err(x) => Err(x)
    case Ok(s1) =>
      RatedDescending(e, s, s1, path + [c]);
      match RootCause(e, s1, path + [c])
      case Err(x) => Err(x)
      case Ok(s2) => RatedTrans(e, s, s1, s2); Ok(s2)
  }

  // ---------------------------------------------------------------- a trace without errors

  /** No span of the arena is errored. */
  predicate ErrorFree(s: seq<Span>)
  {
    forall i :: 0 <= i < |s| ==> !s[i].error
  }

  /** A parent that is not errored collects no tally. */
  lemma {:induction false} ParentTallyUnerrored(s: seq<Span>, n: nat, k: nat)
    requires WellFormed(s) && n < |s| && k <= |s[n].children| && !s[n].error
    ensures ParentTally(s, n, k) == 0.0
    decreases k
  {
    if k > 0 {
      ParentTallyUnerrored(s, n, k - 1);
    }
  }

  /** Nor does its rating change at the end of its loop. */
  lemma NormalisedUnerrored(e: Engine, s: seq<Span>, n: nat)
    requires WellFormed(s) && n < |s| && 0 < |s[n].children| && !s[n].error
    ensures Normalised(e, s, n) == s
  {
    ParentTallyUnerrored(s, n, |s[n].children|);
    assert Normalised(e, s, n) == AddRating(s, n, 0.0);
  }

  lemma {:induction false} HierarchyLevelErrorFree(e: Engine, s: seq<Span>, n: nat, k: nat)
    requires WellFormed(s) && n < |s| && k <= |s[n].children| && ErrorFree(s)
    ensures HierarchyLevel(e, s, n, k) == Ok(s)
    decreases |s[n].children| - k
  {
    if k < |s[n].children| {
      ChildrenInRange(s, n);
      var c := s[n].children[k];
      assert c in s[n].children;
      assert !s[c].error;
      assert SiblingRule(e, s, c) == Ok(s) by {
        assert SpanInRange(s[c], |s|);
      }
      HierarchyLevelErrorFree(e, s, n, k + 1);
    }
  }

  /**
   * `get_root_cause` leaves a trace without errors exactly as it was: no span is rated
   * and no cause link is set.
   */
  lemma {:induction false} RootCauseErrorFree(e: Engine, s: seq<Span>, path: seq<nat>)
    requires Tree(s) && IsPath(s, path) && ErrorFree(s)
    ensures RootCause(e, s, path) == Ok(s)
    decreases Unvisited(|s|, path), 2, 0
  {
    var n := Last(path);
    if |s[n].children| > 0 {
      HierarchyLevelErrorFree(e, s, n, 0);
      RateChildrenErrorFree(e, s, path, 0);
    }
  }

  lemma {:induction false} RateChildrenErrorFree(e: Engine, s: seq<Span>, path: seq<nat>, k: nat)
    requires Tree(s) && IsPath(s, path) && ErrorFree(s)
    requires 0 < |s[Last(path)].children| && k <= |s[Last(path)].children|
    ensures RateChildren(e, s, path, k) == Ok(s)
    decreases Unvisited(|s|, path), 1, |s[Last(path)].children| - k
  {
    var n := Last(path);
    if k == |s[n].children| {
      NormalisedUnerrored(e, s, n);
      assert RateChildren(e, s, path, k) == Ok(Normalised(e, s, n));
    } else {
      var c := s[n].children[k];
      assert c in s[n].children;
      DescendErrorFree(e, s, path, c);
      RateChildrenUnfold(e, s, s, path, k);
      RateChildrenErrorFree(e, s, path, k + 1);
    }
  }

  lemma {:induction false} DescendErrorFree(e: Engine, s: seq<Span>, path: seq<nat>, c: nat)
    requires Tree(s) && IsPath(s, path) && c in s[Last(path)].children && ErrorFree(s)
    ensures Descend(e, s, path, c) == Ok(s)
    decreases Unvisited(|s|, path), 0, 0
  {
    ExtendPath(s, path, c);
    assert !s[c].error;
    assert ChildRule(e, s, Last(path), c) == Ok(s);
    RootCauseErrorFree(e, s, path + [c]);
  }

  // ---------------------------------------------------------------- loop states

  /** The state of the loop of `rating_hierarchy_level(n)` before its `k`-th turn. */
  predicate LevelLoop(e: Engine, s: seq<Span>, n: nat, k: nat, children: seq<nat>, target: Result<seq<Span>, RcaError>)
  {
    && WellFormed(s) && n < |s| && s[n].children == children && k <= |children|
    && HierarchyLevel(e, s, n, k) == target
  }

  lemma LevelLoopIndex(e: Engine, s: seq<Span>, n: nat, k: nat, children: seq<nat>, target: Result<seq<Span>, RcaError>)
    requires LevelLoop(e, s, n, k, children, target) && k < |children|
    ensures children[k] < |s|
  {
    ChildrenInRange(s, n);
    assert children[k] in s[n].children;
  }

  lemma LevelLoopStep(e: Engine, s: seq<Span>, s1: seq<Span>, n: nat, k: nat, children: seq<nat>, target: Result<seq<Span>, RcaError>)
    requires LevelLoop(e, s, n, k, children, target) && k < |children| && children[k] < |s|
    requires SiblingRule(e, s, children[k]) == Ok(s1)
    ensures LevelLoop(e, s1, n, k + 1, children, target)
  {
  }

  lemma LevelLoopErr(e: Engine, s: seq<Span>, n: nat, k: nat, children: seq<nat>, target: Result<seq<Span>, RcaError>, x: RcaError)
    requires LevelLoop(e, s, n, k, children, target) && k < |children| && children[k] < |s|
    requires SiblingRule(e, s, children[k]) == Err(x)
    ensures target == Err(x)
  {
  }

  lemma LevelLoopEnd(e: Engine, s: seq<Span>, n: nat, k: nat, children: seq<nat>, target: Result<seq<Span>, RcaError>)
    requires LevelLoop(e, s, n, k, children, target) && k == |children|
    ensures target == Ok(s)
  {
  }

  /** The state of the loop of `get_root_cause(Last(path))` before its `k`-th turn. */
  predicate ChildLoop(e: Engine, s: seq<Span>, path: seq<nat>, k: nat, tally: real, children: seq<nat>,
                      target: Result<seq<Span>, RcaError>)
  {
    && Tree(s) && IsPath(s, path) && s[Last(path)].children == children
    && 0 < |children| && k <= |children|
    && tally == ParentTally(s, Last(path), k)
    && RateChildren(e, s, path, k) == target
  }

  /** After `rating_hierarchy_level(n)` the loop over the children of `n` starts. */
  lemma RootCauseStart(e: Engine, s0: seq<Span>, s1: seq<Span>, path: seq<nat>)
    requires Tree(s0) && IsPath(s0, path) && 0 < |s0[Last(path)].children|
    requires HierarchyLevel(e, s0, Last(path), 0) == Ok(s1)
    ensures |s1| == |s0| && ChildLoop(e, s1, path, 0, 0.0, s0[Last(path)].children, RateChildren(e, s1, path, 0))
    ensures RootCause(e, s0, path) == RateChildren(e, s1, path, 0)
  {
    RatedDescending(e, s0, s1, path);
    assert s1[Last(path)].children == s0[Last(path)].children;
  }

  /** One turn of the loop of `get_root_cause` unfolded: descend into child `k`, go on with `k + 1`. */
  lemma RateChildrenUnfold(e: Engine, s: seq<Span>, s1: seq<Span>, path: seq<nat>, k: nat)
    requires Tree(s) && IsPath(s, path) && k < |s[Last(path)].children|
    requires Descend(e, s, path, s[Last(path)].children[k]) == Ok(s1)
    ensures |s1| == |s| && Tree(s1) && IsPath(s1, path) && OnlyRatingsAndLinks(s, s1)
    ensures s1[Last(path)].children == s[Last(path)].children
    ensures RateChildren(e, s, path, k) == RateChildren(e, s1, path, k + 1)
  {
    assert Rated(e, s, s1);
    RatedDescending(e, s, s1, path);
    var n := Last(path);
    assert s1[n] == s[n].(rating := s1[n].rating, caused := s1[n].caused, causedBy := s1[n].causedBy);
  }

  /** The tally after child `k` in a state the descent into child `k` produced. */
  lemma ParentTallyStep(s: seq<Span>, s1: seq<Span>, n: nat, k: nat)
    requires WellFormed(s) && WellFormed(s1) && OnlyRatingsAndLinks(s, s1) && n < |s| && k < |s[n].children|
    ensures s[n].children[k] < |s|
    ensures ParentTally(s1, n, k + 1) == ParentTally(s, n, k) + Tally(s, n, s[n].children[k])
  {
    ParentTallyKept(s, s1, n, k + 1);
    assert SpanInRange(s[n], |s|);
  }

  lemma ChildLoopStep(e: Engine, s: seq<Span>, s1: seq<Span>, path: seq<nat>, k: nat, tally: real, children: seq<nat>,
                      target: Result<seq<Span>, RcaError>)
    requires ChildLoop(e, s, path, k, tally, children, target) && k < |children|
    requires Descend(e, s, path, children[k]) == Ok(s1)
    ensures |s1| == |s| && ChildLoop(e, s1, path, k + 1, tally + Tally(s, Last(path), children[k]), children, target)
  {
    RateChildrenUnfold(e, s, s1, path, k);
    ParentTallyStep(s, s1, Last(path), k);
  }

  /** What the loop body knows after its turn for child `k`. */
  lemma ChildLoopNext(e: Engine, s: seq<Span>, s1: seq<Span>, path: seq<nat>, k: nat, tally: real, bump: real,
                      children: seq<nat>, target: Result<seq<Span>, RcaError>, r: Result<(), RcaError>)
    requires ChildLoop(e, s, path, k, tally, children, target) && k < |children|
    requires bump == Tally(s, Last(path), children[k])
    requires r.Err? ==> Descend(e, s, path, children[k]) == Err(r.error)
    requires r.Ok? ==> Descend(e, s, path, children[k]) == Ok(s1)
    ensures r.Err? ==> target == Err(r.error)
    ensures r.Ok? ==> |s1| == |s| && ChildLoop(e, s1, path, k + 1, tally + bump, children, target)
  {
    if r.Err? {
      ChildLoopErr(e, s, path, k, tally, children, target, r.error);
    } else {
      ChildLoopStep(e, s, s1, path, k, tally, children, target);
    }
  }

  lemma ChildLoopErr(e: Engine, s: seq<Span>, path: seq<nat>, k: nat, tally: real, children: seq<nat>,
                     target: Result<seq<Span>, RcaError>, x: RcaError)
    requires ChildLoop(e, s, path, k, tally, children, target) && k < |children|
    requires Descend(e, s, path, children[k]) == Err(x)
    ensures target == Err(x)
  {
  }

  lemma ChildLoopEnd(e: Engine, s: seq<Span>, path: seq<nat>, k: nat, tally: real, children: seq<nat>,
                     target: Result<seq<Span>, RcaError>)
    requires ChildLoop(e, s, path, k, tally, children, target) && k == |children|
    ensures target == Ok(AddRating(s, Last(path), tally / |children| as real))
  {
  }

  // ---------------------------------------------------------------- the rater on a trace

  /** `compare_log_timestamps(a, b)` on the spans of `t`. */
  method CompareLogTimestamps(t: Trace, dev: int, a: nat, b: nat) returns (r: Result<(), RcaError>)
    requires WellFormed(t.spans) && a < |t.spans| && b < |t.spans|
    modifies t`spans
    ensures r.Err? ==> Compared(dev, old(t.spans), a, b) == Err(r.error)
    ensures r.Ok? ==> Compared(dev, old(t.spans), a, b) == Ok(t.spans)
  {
    var ta := Stamp(t.spans, a);
    if ta.Err? {
      return Err(ta.error);
    }
    var tb := Stamp(t.spans, b);
    if tb.Err? {
      return Err(tb.error);
    }
    var diff := Abs(ta.value - tb.value);
    if diff < dev {
      var sum := t.spans[a].rating + t.spans[b].rating;
      t.spans := t.spans[a := t.spans[a].(rating := sum / 2.0)];
      t.spans := t.spans[b := t.spans[b].(rating := sum / 2.0)];
    }
    return Ok(());
  }

  /** `resolve_cause_relation` of trace_explorer/analysis/rca.py. */
  method SpliceCauseRelation(t: Trace, c: nat, f: nat)
    requires WellFormed(t.spans) && c < |t.spans| && f < |t.spans|
    modifies t`spans
    ensures t.spans == Splice(old(t.spans), c, f)
  {
    var tmp := t.spans[f].causedBy;
    assert SpanInRange(t.spans[f], |t.spans|);
    t.spans := t.spans[c := t.spans[c].(caused := Some(f))];
    t.spans := t.spans[f := t.spans[f].(causedBy := Some(c))];
    if tmp.Some? {
      t.spans := t.spans[tmp.value := t.spans[tmp.value].(caused := Some(c))];
      t.spans := t.spans[c := t.spans[c].(causedBy := tmp)];
    }
  }

  /** `resolve_cause_relation` of tracing_rca/analysis/rca.py. */
  method LinkCauseRelationOnce(t: Trace, c: nat, f: nat)
    requires c < |t.spans| && f < |t.spans|
    modifies t`spans
    ensures t.spans == LinkOnce(old(t.spans), c, f)
  {
    if t.spans[c].caused.None? {
      t.spans := t.spans[c := t.spans[c].(caused := Some(f))];
    }
    if t.spans[f].causedBy.None? {
      t.spans := t.spans[f := t.spans[f].(causedBy := Some(c))];
    }
  }

  method ResolveCauseRelation(t: Trace, e: Engine, c: nat, f: nat)
    requires WellFormed(t.spans) && c < |t.spans| && f < |t.spans|
    modifies t`spans
    ensures t.spans == Link(e, old(t.spans), c, f)
  {
    if e.Splicing? {
      SpliceCauseRelation(t, c, f);
    } else {
      LinkCauseRelationOnce(t, c, f);
    }
  }

  /** The body of the loop of `rating_hierarchy_level` for the child `c`. */
  method RateSibling(t: Trace, e: Engine, c: nat) returns (r: Result<(), RcaError>)
    requires WellFormed(t.spans) && c < |t.spans|
    modifies t`spans
    ensures r.Err? ==> SiblingRule(e, old(t.spans), c) == Err(r.error)
    ensures r.Ok? ==> SiblingRule(e, old(t.spans), c) == Ok(t.spans)
  {
    if t.spans[c].previous.None? {
      return Ok(());
    }
    var p := t.spans[c].previous.value;
    assert SpanInRange(t.spans[c], |t.spans|);
    if t.spans[c].error && t.spans[p].error && t.spans[c].startTime > t.spans[p].endTime {
      RaiseCause(t, e, p, c, 1.0);
      if e.Splicing? {
        r := CompareLogTimestamps(t, e.maxClockDeviation, p, c);
        return;
      }
    }
    return Ok(());
  }

  /** `rating_hierarchy_level(n)`. */
  method RatingHierarchyLevel(t: Trace, e: Engine, n: nat) returns (r: Result<(), RcaError>)
    requires WellFormed(t.spans) && n < |t.spans|
    modifies t`spans
    ensures r.Err? ==> HierarchyLevel(e, old(t.spans), n, 0) == Err(r.error)
    ensures r.Ok? ==> HierarchyLevel(e, old(t.spans), n, 0) == Ok(t.spans)
  {
    ghost var target := HierarchyLevel(e, t.spans, n, 0);
    var children := t.spans[n].children;
    var k := 0;
    while k < |children|
      invariant LevelLoop(e, t.spans, n, k, children, target)
    {
      ghost var s := t.spans;
      LevelLoopIndex(e, s, n, k, children, target);
      r := RateSibling(t, e, children[k]);
      if r.Err? {
        LevelLoopErr(e, s, n, k, children, target, r.error);
        return;
      }
      LevelLoopStep(e, s, t.spans, n, k, children, target);
      k := k + 1;
    }
    LevelLoopEnd(e, t.spans, n, k, children, target);
    return Ok(());
  }

  /** `resolve_cause_relation(cause, effect)`, then `cause.rating += x`. */
  method RaiseCause(t: Trace, e: Engine, cause: nat, effect: nat, x: real)
    requires WellFormed(t.spans) && cause < |t.spans| && effect < |t.spans| && (NonNegative(t.spans) ==> x >= 0.0)
    modifies t`spans
    ensures t.spans == Promote(e, old(t.spans), cause, effect, x)
  {
    ResolveCauseRelation(t, e, cause, effect);
    t.spans := AddRating(t.spans, cause, x);
  }

  /** The CHILD_OF block of `get_root_cause`. */
  method RateChildOf(t: Trace, e: Engine, n: nat, c: nat) returns (r: Result<(), RcaError>)
    requires WellFormed(t.spans) && n < |t.spans| && c < |t.spans| && n != c
    modifies t`spans
    ensures r.Err? ==> ChildOfRule(e, old(t.spans), n, c) == Err(r.error)
    ensures r.Ok? ==> ChildOfRule(e, old(t.spans), n, c) == Ok(t.spans)
  {
    var tc := Stamp(t.spans, c);
    if tc.Err? {
      return Err(tc.error);
    }
    var tn := Stamp(t.spans, n);
    if tn.Err? {
      return Err(tn.error);
    }
    // `sorted([child, parent])` by error timestamp; the link leaves ratings as they are
    if tc.value <= tn.value {
      RaiseCause(t, e, c, n, 1.0 + t.spans[n].rating);
    } else {
      RaiseCause(t, e, n, c, 1.0 + t.spans[c].rating);
    }
    return Ok(());
  }

  /** The FOLLOWS_FROM block of `get_root_cause`. */
  method RateFollowsFrom(t: Trace, e: Engine, n: nat, c: nat) returns (r: Result<(), RcaError>)
    requires WellFormed(t.spans) && n < |t.spans| && c < |t.spans| && n != c
    modifies t`spans
    ensures r.Err? ==> FollowsFromRule(e, old(t.spans), n, c) == Err(r.error)
    ensures r.Ok? ==> FollowsFromRule(e, old(t.spans), n, c) == Ok(t.spans)
  {
    var tn := Stamp(t.spans, n);
    if tn.Err? {
      return Err(tn.error);
    }
    var tc := Stamp(t.spans, c);
    if tc.Err? {
      return Err(tc.error);
    }
    if tn.value < tc.value {
      RaiseCause(t, e, n, c, 1.0);
    } else {
      t.spans := t.spans[c := t.spans[c].(rating := t.spans[c].rating + 1.0)];
      t.spans := t.spans[n := t.spans[n].(rating := t.spans[n].rating + 1.0)];
    }
    return Ok(());
  }

  /** `child.error and parent.error` in `get_root_cause`. */
  method RateBothErrored(t: Trace, e: Engine, n: nat, c: nat) returns (r: Result<(), RcaError>)
    requires WellFormed(t.spans) && n < |t.spans| && c < |t.spans| && n != c
    modifies t`spans
    ensures r.Err? ==> BothErroredRule(e, old(t.spans), n, c) == Err(r.error)
    ensures r.Ok? ==> BothErroredRule(e, old(t.spans), n, c) == Ok(t.spans)
  {
    ghost var s := t.spans;
    if t.spans[c].kind == Child {
      r := RateChildOf(t, e, n, c);
      if r.Err? {
        return;
      }
    } else {
      RatedRefl(e, s);
    }
    ghost var s1 := t.spans;
    assert Rated(e, s, s1) && BothErroredRule(e, s, n, c) == BothErroredFrom(e, s1, n, c);
    if t.spans[c].kind == Follower {
      r := RateFollowsFrom(t, e, n, c);
      if r.Err? {
        return;
      }
    }
    if e.Splicing? {
      r := CompareLogTimestamps(t, e.maxClockDeviation, c, n);
      return;
    }
    return Ok(());
  }

  /**
   * `get_root_cause(n)` for `n` = Last(path), the end of the chain of ancestors the
   * recursion has entered.
   */
  method GetRootCause(t: Trace, e: Engine, n: nat, ghost path: seq<nat>) returns (r: Result<(), RcaError>)
    requires Tree(t.spans) && IsPath(t.spans, path) && n == Last(path)
    modifies t`spans
    ensures r.Err? ==> RootCause(e, old(t.spans), path) == Err(r.error)
    ensures r.Ok? ==> RootCause(e, old(t.spans), path) == Ok(t.spans)
    decreases Unvisited(|t.spans|, path), 2
  {
    if |t.spans[n].children| == 0 {
      return Ok(());
    }
    ghost var s0 := t.spans;
    r := RatingHierarchyLevel(t, e, n);
    if r.Err? {
      assert RootCause(e, s0, path) == Err(r.error);
      return;
    }
    RootCauseStart(e, s0, t.spans, path);
    r := RateEachChild(t, e, n, path);
  }

  /**
   * The loop of `get_root_cause(n)` over the children of `n`, then `n.rating +=
   * parent_rating / len(n.children)`.
   */
  method RateEachChild(t: Trace, e: Engine, n: nat, ghost path: seq<nat>) returns (r: Result<(), RcaError>)
    requires Tree(t.spans) && IsPath(t.spans, path) && n == Last(path) && 0 < |t.spans[n].children|
    modifies t`spans
    ensures r.Err? ==> RateChildren(e, old(t.spans), path, 0) == Err(r.error)
    ensures r.Ok? ==> RateChildren(e, old(t.spans), path, 0) == Ok(t.spans)
    decreases Unvisited(|t.spans|, path), 1
  {
    var parentRating := 0.0;
    ghost var target := RateChildren(e, t.spans, path, 0);
    var children := t.spans[n].children;
    var k := 0;
    while k < |children|
      invariant ChildLoop(e, t.spans, path, k, parentRating, children, target)
      invariant |t.spans| == old(|t.spans|)
      decreases |children| - k
    {
      ghost var s := t.spans;
      var bump;
      r, bump := VisitChild(t, e, n, children[k], path);
      ChildLoopNext(e, s, t.spans, path, k, parentRating, bump, children, target, r);
      if r.Err? {
        return;
      }
      parentRating := parentRating + bump;
      k := k + 1;
    }
    ChildLoopEnd(e, t.spans, path, k, parentRating, children, target);
    t.spans := AddRating(t.spans, n, parentRating / |children| as real);
    return Ok(());
  }

  /** The body of the loop of `get_root_cause(n)` for its child `c`. */
  method VisitChild(t: Trace, e: Engine, n: nat, c: nat, ghost path: seq<nat>) returns (r: Result<(), RcaError>, bump: real)
    requires Tree(t.spans) && IsPath(t.spans, path) && n == Last(path) && c in t.spans[n].children
    modifies t`spans
    ensures bump == Tally(old(t.spans), n, c)
    ensures r.Err? ==> Descend(e, old(t.spans), path, c) == Err(r.error)
    ensures r.Ok? ==> Descend(e, old(t.spans), path, c) == Ok(t.spans)
    decreases Unvisited(|t.spans|, path), 0
  {
    ExtendPath(t.spans, path, c);
    bump := 0.0;
    ghost var s := t.spans;
    if t.spans[c].error && t.spans[n].error {
      r := RateBothErrored(t, e, n, c);
      if r.Err? {
        return;
      }
    } else if t.spans[c].error {
      t.spans := t.spans[c := t.spans[c].(rating := t.spans[c].rating + 1.0)];
    } else if t.spans[n].error {
      bump := 1.0;
    }
    assert ChildRule(e, s, n, c) == Ok(t.spans);
    RatedDescending(e, s, t.spans, path + [c]);
    r := GetRootCause(t, e, c, path + [c]);
  }

  /**
   * `get_root_cause(trace.root_span)`, the call the analysis makes for each trace once its
   * error count is set.
   */
  method AnalyseTrace(t: Trace, e: Engine) returns (r: Result<(), RcaError>)
    requires Tree(t.spans) && t.rootSpan < |t.spans| && t.spans[t.rootSpan].parent.None?
    modifies t`spans
    ensures r.Err? ==> RootCause(e, old(t.spans), [old(t.rootSpan)]) == Err(r.error)
    ensures r.Ok? ==> RootCause(e, old(t.spans), [old(t.rootSpan)]) == Ok(t.spans)
  {
    r := GetRootCause(t, e, t.rootSpan, [t.rootSpan]);
  }
}
