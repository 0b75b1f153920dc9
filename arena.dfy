/**
 * The spans of one trace held in an arena: `parent`, `previous`, `caused`, `caused_by`
 * and `children` are indices into the arena. This module states when such an arena is a
 * tree below its root and provides the measure that makes the recursive walks over
 * `children` terminate.
 */
module Arena {
  import opened Wrappers
  import opened Spans

  predicate InRange(o: Option<nat>, n: nat)
  {
    o.None? || o.value < n
  }

  predicate SpanInRange(x: Span, n: nat)
  {
    && (forall j :: 0 <= j < |x.children| ==> x.children[j] < n)
    && InRange(x.parent, n) && InRange(x.previous, n)
    && InRange(x.caused, n) && InRange(x.causedBy, n)
  }

  /** Every index stored in the arena points into it. */
  predicate WellFormed(s: seq<Span>)
  {
    forall i :: 0 <= i < |s| ==> SpanInRange(s[i], |s|)
  }

  /**
   * Every child's parent is the span whose `children` hold it: `add_child` and
   * `add_follower` set the parent and append to `children` together.
   */
  predicate ChildParent(s: seq<Span>)
    requires WellFormed(s)
  {
    forall i, j :: 0 <= i < |s| && 0 <= j < |s[i].children| ==> s[s[i].children[j]].parent == Some(i)
  }

  predicate Tree(s: seq<Span>)
  {
    WellFormed(s) && ChildParent(s)
  }

  predicate Distinct(xs: seq<nat>)
  {
    forall a, b :: 0 <= a < b < |xs| ==> xs[a] != xs[b]
  }

  /**
   * `path` is the chain of ancestors from a span without parent down to its last element:
   * the recursion stack of a walk that started at the root.
   */
  predicate IsPath(s: seq<Span>, path: seq<nat>)
  {
    && |path| > 0
    && (forall k :: 0 <= k < |path| ==> path[k] < |s|)
    && s[path[0]].parent.None?
    && (forall k :: 0 < k < |path| ==> s[path[k]].parent == Some(path[k - 1]))
    && Distinct(path)
  }

  function Last(path: seq<nat>): nat
    requires |path| > 0
  {
    path[|path| - 1]
  }

  /** The spans a walk along `path` has not entered yet. */
  function Unvisited(n: nat, path: seq<nat>): set<nat>
  {
    set i | 0 <= i < n && i !in path
  }

  /** Entering a span that is not on the path yet shrinks the set of unvisited spans. */
  lemma UnvisitedShrinks(n: nat, path: seq<nat>, c: nat)
    requires c < n && c !in path
    ensures Unvisited(n, path + [c]) < Unvisited(n, path)
  {
    assert c in Unvisited(n, path) - Unvisited(n, path + [c]);
  }

  /**
   * A walk that descends from the end of an ancestor path into a child never meets a span
   * already on the path, so the walk terminates: each parent is assigned only once.
   */
  lemma ExtendPath(s: seq<Span>, path: seq<nat>, c: nat)
    requires Tree(s) && IsPath(s, path)
    requires c in s[Last(path)].children
    ensures c < |s| && c !in path
    ensures IsPath(s, path + [c])
    ensures Unvisited(|s|, path + [c]) < Unvisited(|s|, path)
  {
    var p := Last(path);
    var j :| 0 <= j < |s[p].children| && s[p].children[j] == c;
    assert s[c].parent == Some(p);
    forall k | 0 <= k < |path| ensures path[k] != c {
      if k > 0 {
        assert s[path[k]].parent == Some(path[k - 1]);
      }
    }
    var q := path + [c];
    assert forall k :: 0 < k < |q| ==> s[q[k]].parent == Some(q[k - 1]);
    assert c in Unvisited(|s|, path) - Unvisited(|s|, q);
  }

  /** The two arenas agree on the tree structure. */
  predicate SameTree(s: seq<Span>, r: seq<Span>)
  {
    && |s| == |r|
    && forall i :: 0 <= i < |s| ==> r[i].children == s[i].children && r[i].parent == s[i].parent
  }

  lemma SameTreeKeepsTree(s: seq<Span>, r: seq<Span>)
    requires Tree(s) && SameTree(s, r) && WellFormed(r)
    ensures Tree(r)
  {
  }

  lemma SameTreeKeepsPath(s: seq<Span>, r: seq<Span>, path: seq<nat>)
    requires SameTree(s, r) && IsPath(s, path)
    ensures IsPath(r, path)
  {
  }

  /** An in-range update of one span keeps the arena well formed. */
  lemma UpdateKeepsWellFormed(s: seq<Span>, i: nat, x: Span)
    requires WellFormed(s) && i < |s| && SpanInRange(x, |s|)
    ensures WellFormed(s[i := x])
  {
  }
}
