/**
 * The HTML tree of a trace: `walk_tree` and `html_graph` of src/tracing_rca/reports/html.py
 * (src/reports/html.py holds the same two functions), and the choice of what
 * `create_trace_html` puts into a trace's report.
 */
module HtmlReport {
  import opened Wrappers
  import opened Values
  import opened Spans
  import opened Arena
  import opened Sorting
  import opened Traces

  /** The pieces `walk_tree` appends to its list; an item names its span by arena index. */
  datatype Fragment = ListOpen | ListClose | ItemOpen(span: nat) | ItemClose

  /** The line opening a child's item: red with `operation_name: cause` when it is errored. */
  function Label(x: Span): string
  {
    if x.error then "<li> <span style=\"color:red\">" + x.operationName + ": " + Str(x.cause) + "</span>\n"
    else "<li> <span>" + x.operationName + "</span>\n"
  }

  function Rendered(s: seq<Span>, f: Fragment): string
  {
    match f
    case ListOpen => "<ul>\n"
    case ListClose => "</ul>\n"
    case ItemOpen(i) => if i < |s| then Label(s[i]) else ""
    case ItemClose => "</li>\n"
  }

  function RenderAll(s: seq<Span>, fs: seq<Fragment>): (r: seq<string>)
    ensures |r| == |fs| && forall k :: 0 <= k < |fs| ==> r[k] == Rendered(s, fs[k])
  {
    seq(|fs|, k requires 0 <= k < |fs| => Rendered(s, fs[k]))
  }

  lemma RenderSingle(s: seq<Span>, f: Fragment)
    ensures RenderAll(s, [f]) == [Rendered(s, f)]
  {
  }

  lemma RenderAllAppend(s: seq<Span>, a: seq<Fragment>, b: seq<Fragment>)
    ensures RenderAll(s, a + b) == RenderAll(s, a) + RenderAll(s, b)
  {
  }

  /**
   * What `walk_tree(span)` lists for `span` = Last(path): nothing for a span without
   * children, otherwise a list holding one item per child, in start-time order, each
   * followed by the list of that child.
   */
  function Fragments(s: seq<Span>, path: seq<nat>): (r: seq<Fragment>)
    requires Walkable(s, path)
    ensures r == [] <==> |s[Last(path)].children| == 0
    decreases Unvisited(|s|, path), 1
  {
    var n := Last(path);
    if |s[n].children| == 0 then []
    else [ListOpen] + Items(s, path, SortedChildren(s, n), 0) + [ListClose]
  }

  predicate ChildrenOf(s: seq<Span>, n: nat, cs: seq<nat>)
    requires n < |s|
  {
    forall c :: c in cs ==> c in s[n].children
  }

  /** The items of the children `cs[k..]` of Last(path). */
  function Items(s: seq<Span>, path: seq<nat>, cs: seq<nat>, k: nat): seq<Fragment>
    requires Walkable(s, path) && k <= |cs| && ChildrenOf(s, Last(path), cs)
    decreases Unvisited(|s|, path), 0, |cs| - k
  {
    if k == |cs| then []
    else
      var c := cs[k];
      ExtendPath(s, path, c);
      Block(c, Fragments(s, path + [c])) + Items(s, path, cs, k + 1)
  }

  /** One child's item: its label, its own list, and the closing tag. */
  function Block(c: nat, inner: seq<Fragment>): seq<Fragment>
  {
    [ItemOpen(c)] + inner + [ItemClose]
  }

  /** The text `walk_tree` returns, one string per element of its list. */
  function Walked(s: seq<Span>, path: seq<nat>): seq<string>
    requires Walkable(s, path)
  {
    RenderAll(s, Fragments(s, path))
  }

  /** `''.join(xs)`. */
  function Join(xs: seq<string>): string
    decreases |xs|
  {
    if xs == [] then "" else xs[0] + Join(xs[1..])
  }

  /** What `html_graph(root)` returns: the root's name, never its error, around its tree. */
  function Graph(s: seq<Span>, root: nat): string
    requires Walkable(s, [root])
  {
    Join(["<ul class=\"tree\">\n", "<li> <span>" + s[root].operationName + "</span>\n"]
         + Walked(s, [root]) + ["</li>\n</ul>\n"])
  }

  /** The text of one child's item. */
  lemma RenderBlock(s: seq<Span>, c: nat, inner: seq<Fragment>)
    requires c < |s|
    ensures RenderAll(s, Block(c, inner)) == [Label(s[c])] + RenderAll(s, inner) + ["</li>\n"]
  {
    RenderAllAppend(s, [ItemOpen(c)], inner);
    RenderAllAppend(s, [ItemOpen(c)] + inner, [ItemClose]);
  }

  /** The items of the children `cs[..k]`: what the loop of `walk_tree` has listed so far. */
  function ItemsBefore(s: seq<Span>, path: seq<nat>, cs: seq<nat>, k: nat): seq<Fragment>
    requires Walkable(s, path) && k <= |cs| && ChildrenOf(s, Last(path), cs)
  {
    if k == 0 then []
    else
      var c := cs[k - 1];
      ExtendPath(s, path, c);
      ItemsBefore(s, path, cs, k - 1) + Block(c, Fragments(s, path + [c]))
  }

  lemma Regroup(a: seq<string>, b: seq<string>, c: seq<string>, d: seq<string>)
    ensures a + b + c + d == a + (b + c + d)
  {
  }

  /** The item of `cs[k]`. */
  function BlockAt(s: seq<Span>, path: seq<nat>, cs: seq<nat>, k: nat): seq<Fragment>
    requires Walkable(s, path) && k < |cs| && ChildrenOf(s, Last(path), cs)
  {
    ExtendPath(s, path, cs[k]);
    Block(cs[k], Fragments(s, path + [cs[k]]))
  }

  lemma ItemsUnfold(s: seq<Span>, path: seq<nat>, cs: seq<nat>, k: nat)
    requires Walkable(s, path) && k < |cs| && ChildrenOf(s, Last(path), cs)
    ensures Items(s, path, cs, k) == BlockAt(s, path, cs, k) + Items(s, path, cs, k + 1)
    ensures ItemsBefore(s, path, cs, k + 1) == ItemsBefore(s, path, cs, k) + BlockAt(s, path, cs, k)
  {
  }

  lemma Assoc<T>(a: seq<T>, b: seq<T>, c: seq<T>)
    ensures a + (b + c) == (a + b) + c
  {
  }

  lemma {:induction false} ItemsSplit(s: seq<Span>, path: seq<nat>, cs: seq<nat>, k: nat)
    requires Walkable(s, path) && k <= |cs| && ChildrenOf(s, Last(path), cs)
    ensures ItemsBefore(s, path, cs, k) + Items(s, path, cs, k) == Items(s, path, cs, 0)
    decreases k
  {
    if k > 0 {
      ItemsSplit(s, path, cs, k - 1);
      ItemsUnfold(s, path, cs, k - 1);
      Assoc(ItemsBefore(s, path, cs, k - 1), BlockAt(s, path, cs, k - 1), Items(s, path, cs, k));
    } else {
      assert ItemsBefore(s, path, cs, 0) == [];
    }
  }

  /** One turn of the loop of `walk_tree`: the item of child `cs[k]`. */
  lemma WalkStep(s: seq<Span>, path: seq<nat>, cs: seq<nat>, k: nat, result: seq<string>)
    requires Walkable(s, path) && k < |cs| && ChildrenOf(s, Last(path), cs)
    requires result == RenderAll(s, [ListOpen] + ItemsBefore(s, path, cs, k))
    ensures cs[k] < |s| && Walkable(s, path + [cs[k]]) && Last(path + [cs[k]]) == cs[k]
    ensures Unvisited(|s|, path + [cs[k]]) < Unvisited(|s|, path)
    ensures result + [Label(s[cs[k]])] + Walked(s, path + [cs[k]]) + ["</li>\n"]
            == RenderAll(s, [ListOpen] + ItemsBefore(s, path, cs, k + 1))
  {
    var c := cs[k];
    ExtendPath(s, path, c);
    var inner := Fragments(s, path + [c]);
    var done := [ListOpen] + ItemsBefore(s, path, cs, k);
    ItemsUnfold(s, path, cs, k);
    assert BlockAt(s, path, cs, k) == Block(c, inner);
    RenderBlock(s, c, inner);
    Assoc([ListOpen], ItemsBefore(s, path, cs, k), Block(c, inner));
    RenderAllAppend(s, done, Block(c, inner));
    Regroup(result, [Label(s[c])], RenderAll(s, inner), ["</li>\n"]);
  }

  /** The end of `walk_tree`: the closing tag of the list. */
  lemma ListCloseText(s: seq<Span>)
    ensures Rendered(s, ListClose) == "</ul>\n"
  {
  }

  lemma ItemsAllBefore(s: seq<Span>, path: seq<nat>, cs: seq<nat>)
    requires Walkable(s, path) && ChildrenOf(s, Last(path), cs)
    ensures ItemsBefore(s, path, cs, |cs|) == Items(s, path, cs, 0)
  {
    ItemsSplit(s, path, cs, |cs|);
    var before := ItemsBefore(s, path, cs, |cs|);
    assert before + [] == before;
  }

  lemma WalkEnd(s: seq<Span>, path: seq<nat>, cs: seq<nat>, result: seq<string>)
    requires Walkable(s, path) && |s[Last(path)].children| > 0 && cs == SortedChildren(s, Last(path))
    requires result == RenderAll(s, [ListOpen] + ItemsBefore(s, path, cs, |cs|))
    ensures Walked(s, path) == result + [Rendered(s, ListClose)]
  {
    ItemsAllBefore(s, path, cs);
    var listed := [ListOpen] + Items(s, path, cs, 0);
    assert Fragments(s, path) == listed + [ListClose];
    RenderAllAppend(s, listed, [ListClose]);
    RenderSingle(s, ListClose);
  }

  /** `walk_tree(spans[n])`, for `n` = Last(path) reached from the root along `path`. */
  method WalkTree(s: seq<Span>, n: nat, ghost path: seq<nat>) returns (result: seq<string>)
    requires Walkable(s, path) && Last(path) == n
    ensures result == Walked(s, path)
    decreases Unvisited(|s|, path)
  {
    result := [];
    if |s[n].children| > 0 {
      result := result + ["<ul>\n"];
      var children := SortedChildren(s, n);
      assert result == RenderAll(s, [ListOpen] + ItemsBefore(s, path, children, 0));
      var k := 0;
      while k < |children|
        invariant k <= |children|
        invariant result == RenderAll(s, [ListOpen] + ItemsBefore(s, path, children, k))
      {
        var child := children[k];
        WalkStep(s, path, children, k, result);
        result := result + [Label(s[child])];
        var below := WalkTree(s, child, path + [child]);
        result := result + below;
        result := result + ["</li>\n"];
        k := k + 1;
      }
      WalkEnd(s, path, children, result);
      ListCloseText(s);
      result := result + ["</ul>\n"];
    } else {
      assert Fragments(s, path) == [];
    }
  }

  /** `html_graph(root)`. */
  method HtmlGraph(s: seq<Span>, root: nat) returns (r: string)
    requires Walkable(s, [root])
    ensures r == Graph(s, root)
  {
    var result := ["<ul class=\"tree\">\n"];
    result := result + ["<li> <span>" + s[root].operationName + "</span>\n"];
    var tree := WalkTree(s, root, [root]);
    result := result + tree;
    result := result + ["</li>\n</ul>\n"];
    assert result == ["<ul class=\"tree\">\n", "<li> <span>" + s[root].operationName + "</span>\n"]
                     + Walked(s, [root]) + ["</li>\n</ul>\n"];
    r := Join(result);
  }

  // ---------------------------------------------------------------------------
  // The tags are balanced

  datatype Element = List | Item

  /** One fragment against the stack of open elements; `None` when a close does not match. */
  function Step(stack: seq<Element>, f: Fragment): Option<seq<Element>>
  {
    match f
    case ListOpen => Some(stack + [List])
    case ItemOpen(_) => Some(stack + [Item])
    case ListClose => if stack != [] && stack[|stack| - 1] == List then Some(stack[..|stack| - 1]) else None
    case ItemClose => if stack != [] && stack[|stack| - 1] == Item then Some(stack[..|stack| - 1]) else None
  }

  /** The open elements after the fragments, innermost last. */
  function Open(stack: seq<Element>, fs: seq<Fragment>): Option<seq<Element>>
    decreases |fs|
  {
    if fs == [] then Some(stack)
    else
      match Step(stack, fs[0])
      case None => None
      case Some(st) => Open(st, fs[1..])
  }

  /** Every `<ul>` and `<li>` is closed, by its own kind of tag, in last-opened-first order. */
  predicate Balanced(fs: seq<Fragment>)
  {
    Open([], fs) == Some([])
  }

  lemma {:induction false} OpenAppend(stack: seq<Element>, a: seq<Fragment>, b: seq<Fragment>)
    ensures Open(stack, a + b) == if Open(stack, a).None? then None else Open(Open(stack, a).value, b)
    decreases |a|
  {
    if a != [] {
      assert (a + b)[0] == a[0] && (a + b)[1..] == a[1..] + b;
      if Step(stack, a[0]).Some? {
        OpenAppend(Step(stack, a[0]).value, a[1..], b);
      }
    } else {
      assert a + b == b;
    }
  }

  lemma StepUnder(pre: seq<Element>, stack: seq<Element>, f: Fragment)
    requires Step(stack, f).Some?
    ensures Step(pre + stack, f) == Some(pre + Step(stack, f).value)
  {
    if f.ListOpen? || f.ItemOpen? {
      var e := if f.ListOpen? then List else Item;
      assert (pre + stack) + [e] == pre + (stack + [e]);
    } else {
      assert (pre + stack)[|pre + stack| - 1] == stack[|stack| - 1];
      assert (pre + stack)[..|pre + stack| - 1] == pre + stack[..|stack| - 1];
    }
  }

  /** Fragments that leave a stack as they found it do so on top of anything. */
  lemma {:induction false} OpenUnder(pre: seq<Element>, stack: seq<Element>, fs: seq<Fragment>)
    requires Open(stack, fs).Some?
    ensures Open(pre + stack, fs) == Some(pre + Open(stack, fs).value)
    decreases |fs|
  {
    if fs != [] {
      var st := Step(stack, fs[0]);
      assert st.Some?;
      assert Open(stack, fs) == Open(st.value, fs[1..]);
      StepUnder(pre, stack, fs[0]);
      OpenUnder(pre, st.value, fs[1..]);
      assert Open(pre + stack, fs) == Open(pre + st.value, fs[1..]);
    }
  }

  lemma BalancedAnywhere(stack: seq<Element>, fs: seq<Fragment>)
    requires Balanced(fs)
    ensures Open(stack, fs) == Some(stack)
  {
    OpenUnder(stack, [], fs);
    assert stack + [] == stack;
  }

  lemma BalancedConcat(a: seq<Fragment>, b: seq<Fragment>)
    requires Balanced(a) && Balanced(b)
    ensures Balanced(a + b)
  {
    OpenAppend([], a, b);
  }

  /** A balanced sequence between an opening and the matching closing tag is balanced. */
  lemma BalancedWrap(open: Fragment, inner: seq<Fragment>, close: Fragment)
    requires Balanced(inner)
    requires (open == ListOpen && close == ListClose) || (open.ItemOpen? && close == ItemClose)
    ensures Balanced([open] + inner + [close])
  {
    var e := if open == ListOpen then List else Item;
    assert [] + [e] == [e];
    assert Step([], open) == Some([e]);
    assert Open([], [open]) == Some([e]) by {
      assert [open][1..] == [];
    }
    OpenAppend([], [open], inner);
    BalancedAnywhere([e], inner);
    OpenAppend([], [open] + inner, [close]);
    assert Open([e], [close]) == Some([]) by {
      assert [close][1..] == [];
      assert [e][..0] == [];
    }
  }

  /** The tags `walk_tree` emits are balanced. */
  lemma {:induction false} FragmentsBalanced(s: seq<Span>, path: seq<nat>)
    requires Walkable(s, path)
    ensures Balanced(Fragments(s, path))
    decreases Unvisited(|s|, path), 1
  {
    var n := Last(path);
    if |s[n].children| > 0 {
      ItemsBalanced(s, path, SortedChildren(s, n), 0);
      BalancedWrap(ListOpen, Items(s, path, SortedChildren(s, n), 0), ListClose);
    }
  }

  lemma {:induction false} ItemsBalanced(s: seq<Span>, path: seq<nat>, cs: seq<nat>, k: nat)
    requires Walkable(s, path) && k <= |cs| && ChildrenOf(s, Last(path), cs)
    ensures Balanced(Items(s, path, cs, k))
    decreases Unvisited(|s|, path), 0, |cs| - k
  {
    if k < |cs| {
      var c := cs[k];
      ExtendPath(s, path, c);
      FragmentsBalanced(s, path + [c]);
      BalancedWrap(ItemOpen(c), Fragments(s, path + [c]), ItemClose);
      ItemsBalanced(s, path, cs, k + 1);
      BalancedConcat(Block(c, Fragments(s, path + [c])), Items(s, path, cs, k + 1));
    } else {
      assert Open([], []) == Some([]);
    }
  }

  // ---------------------------------------------------------------------------
  // One item per descendant

  /** `q` leads down from span `n` along `children` links. */
  predicate ChildPath(s: seq<Span>, n: nat, q: seq<nat>)
  {
    && |q| > 0 && n < |s| && (forall k :: 0 <= k < |q| ==> q[k] < |s|)
    && q[0] in s[n].children
    && (forall k :: 0 < k < |q| ==> q[k] in s[q[k - 1]].children)
  }

  /** Span `d` lies below span `n`: some chain of children links leads from `n` to `d`. */
  ghost predicate Descendant(s: seq<Span>, n: nat, d: nat)
  {
    exists q :: ChildPath(s, n, q) && q[|q| - 1] == d
  }

  /** The spans of the items, in order. */
  function ItemSpans(fs: seq<Fragment>): (r: seq<nat>)
    ensures forall d :: d in r <==> ItemOpen(d) in fs
    decreases |fs|
  {
    if fs == [] then []
    else
      var rest := ItemSpans(fs[1..]);
      assert forall f :: f in fs <==> f == fs[0] || f in fs[1..];
      (if fs[0].ItemOpen? then [fs[0].span] else []) + rest
  }

  lemma {:induction false} ItemSpansAppend(a: seq<Fragment>, b: seq<Fragment>)
    ensures ItemSpans(a + b) == ItemSpans(a) + ItemSpans(b)
    decreases |a|
  {
    if a == [] {
      assert a + b == b;
    } else {
      assert (a + b)[0] == a[0] && (a + b)[1..] == a[1..] + b;
      ItemSpansAppend(a[1..], b);
    }
  }

  /** `e` is reached from the end of `path` through child `c`: by `c` itself or below it. */
  ghost predicate Reaches(s: seq<Span>, path: seq<nat>, c: nat, e: nat)
  {
    exists q :: IsPath(s, path + [c] + q) && Last(path + [c] + q) == e
  }

  lemma PrependChild(s: seq<Span>, n: nat, c: nat, q: seq<nat>)
    requires n < |s| && c < |s| && c in s[n].children && ChildPath(s, c, q)
    ensures ChildPath(s, n, [c] + q) && ([c] + q)[|[c] + q| - 1] == q[|q| - 1]
  {
    var p := [c] + q;
    assert forall k :: 0 < k < |p| ==> p[k] == q[k - 1];
  }

  /** Every item of `walk_tree(spans[n])` is a descendant of `n`, reached through one of its children. */
  lemma {:induction false} FragmentsSound(s: seq<Span>, path: seq<nat>, e: nat)
    requires Walkable(s, path) && ItemOpen(e) in Fragments(s, path)
    ensures Descendant(s, Last(path), e)
    ensures exists c :: c in s[Last(path)].children && Reaches(s, path, c, e)
    decreases Unvisited(|s|, path), 1
  {
    var n := Last(path);
    var cs := SortedChildren(s, n);
    assert ItemOpen(e) in Items(s, path, cs, 0);
    var j := ItemsSound(s, path, cs, 0, e);
  }

  lemma {:induction false} ItemsSound(s: seq<Span>, path: seq<nat>, cs: seq<nat>, k: nat, e: nat) returns (j: nat)
    requires Walkable(s, path) && k <= |cs| && ChildrenOf(s, Last(path), cs)
    requires ItemOpen(e) in Items(s, path, cs, k)
    ensures k <= j < |cs| && Reaches(s, path, cs[j], e)
    ensures Descendant(s, Last(path), e)
    decreases Unvisited(|s|, path), 0, |cs| - k
  {
    var n := Last(path);
    var c := cs[k];
    ExtendPath(s, path, c);
    var inner := Fragments(s, path + [c]);
    assert Items(s, path, cs, k) == [ItemOpen(c)] + inner + [ItemClose] + Items(s, path, cs, k + 1);
    if e == c {
      j := k;
      ReachItself(s, path, c);
    } else if ItemOpen(e) in inner {
      j := k;
      ReachBelow(s, path, c, e);
    } else {
      j := ItemsSound(s, path, cs, k + 1, e);
    }
  }

  lemma ReachItself(s: seq<Span>, path: seq<nat>, c: nat)
    requires Walkable(s, path) && c in s[Last(path)].children
    ensures Reaches(s, path, c, c) && Descendant(s, Last(path), c)
  {
    ExtendPath(s, path, c);
    assert path + [c] + [] == path + [c];
    assert IsPath(s, path + [c] + []) && Last(path + [c] + []) == c;
    assert ChildPath(s, Last(path), [c]);
  }

  lemma {:induction false} ReachBelow(s: seq<Span>, path: seq<nat>, c: nat, e: nat)
    requires Walkable(s, path) && c in s[Last(path)].children
    requires Walkable(s, path + [c]) && ItemOpen(e) in Fragments(s, path + [c])
    ensures Reaches(s, path, c, e) && Descendant(s, Last(path), e)
    decreases Unvisited(|s|, path), 0, 0
  {
    ExtendPath(s, path, c);
    FragmentsSound(s, path + [c], e);
    DescendantBelow(s, Last(path), c, e);
    ReachesDeeper(s, path, c, e);
  }

  lemma DescendantBelow(s: seq<Span>, n: nat, c: nat, e: nat)
    requires n < |s| && c < |s| && c in s[n].children && Descendant(s, c, e)
    ensures Descendant(s, n, e)
  {
    var q :| ChildPath(s, c, q) && q[|q| - 1] == e;
    PrependChild(s, n, c, q);
  }

  lemma ReachesDeeper(s: seq<Span>, path: seq<nat>, c: nat, e: nat)
    requires exists c' :: Reaches(s, path + [c], c', e)
    ensures Reaches(s, path, c, e)
  {
    var c' :| Reaches(s, path + [c], c', e);
    var q' :| IsPath(s, path + [c] + [c'] + q') && Last(path + [c] + [c'] + q') == e;
    var p := path + [c] + [c'] + q';
    assert p == path + [c] + ([c'] + q');
    assert IsPath(s, path + [c] + ([c'] + q'));
  }

  /** Every descendant of `n` has an item in `walk_tree(spans[n])`. */
  lemma {:induction false} FragmentsComplete(s: seq<Span>, path: seq<nat>, q: seq<nat>)
    requires Walkable(s, path) && ChildPath(s, Last(path), q)
    ensures ItemOpen(q[|q| - 1]) in Fragments(s, path)
    decreases Unvisited(|s|, path)
  {
    var n := Last(path);
    var c := q[0];
    var cs := SortedChildren(s, n);
    assert c in cs;
    ExtendPath(s, path, c);
    var j :| 0 <= j < |cs| && cs[j] == c;
    ItemsContain(s, path, cs, 0, j);
    var inner := Fragments(s, path + [c]);
    if |q| > 1 {
      var q' := q[1..];
      assert forall k :: 0 < k < |q'| ==> q'[k] == q[k + 1] && q'[k - 1] == q[k];
      assert ChildPath(s, c, q');
      FragmentsComplete(s, path + [c], q');
      assert ItemOpen(q[|q| - 1]) in inner;
      assert ItemOpen(q[|q| - 1]) in Block(c, inner);
    } else {
      assert ItemOpen(c) in Block(c, inner);
    }
  }

  /** The items from `cs[k]` on hold the item of each later child. */
  lemma {:induction false} ItemsContain(s: seq<Span>, path: seq<nat>, cs: seq<nat>, k: nat, j: nat)
    requires Walkable(s, path) && k <= j < |cs| && ChildrenOf(s, Last(path), cs)
    ensures cs[j] < |s| && Walkable(s, path + [cs[j]])
    ensures forall f :: f in Block(cs[j], Fragments(s, path + [cs[j]])) ==> f in Items(s, path, cs, k)
    decreases |cs| - k
  {
    ExtendPath(s, path, cs[k]);
    ExtendPath(s, path, cs[j]);
    var block := Block(cs[k], Fragments(s, path + [cs[k]]));
    assert Items(s, path, cs, k) == block + Items(s, path, cs, k + 1);
    if j > k {
      ItemsContain(s, path, cs, k + 1, j);
    }
  }

  /** The items of `walk_tree(spans[n])` are exactly the descendants of `n`. */
  lemma ItemsAreDescendants(s: seq<Span>, path: seq<nat>, d: nat)
    requires Walkable(s, path)
    ensures ItemOpen(d) in Fragments(s, path) <==> Descendant(s, Last(path), d)
  {
    if ItemOpen(d) in Fragments(s, path) {
      FragmentsSound(s, path, d);
    }
    if Descendant(s, Last(path), d) {
      var q :| ChildPath(s, Last(path), q) && q[|q| - 1] == d;
      FragmentsComplete(s, path, q);
    }
  }

  // ---------------------------------------------------------------------------
  // Each item once

  /** A path ends in a span without parent exactly when it is that span alone. */
  lemma PathLength(s: seq<Span>, p: seq<nat>)
    requires IsPath(s, p)
    ensures |p| == 1 <==> s[Last(p)].parent.None?
    ensures |p| > 1 ==> IsPath(s, p[..|p| - 1]) && s[Last(p)].parent == Some(Last(p[..|p| - 1]))
  {
    if |p| > 1 {
      var p' := p[..|p| - 1];
      assert forall k :: 0 <= k < |p'| ==> p'[k] == p[k];
      assert s[p[|p| - 1]].parent == Some(p[|p| - 2]);
      assert IsPath(s, p');
    }
  }

  /** The ancestor chain of a span is determined by the span: parent links go one way. */
  lemma {:induction false} PathUnique(s: seq<Span>, p1: seq<nat>, p2: seq<nat>)
    requires IsPath(s, p1) && IsPath(s, p2) && Last(p1) == Last(p2)
    ensures p1 == p2
    decreases |p1|
  {
    PathLength(s, p1);
    PathLength(s, p2);
    if |p1| > 1 {
      PathUnique(s, p1[..|p1| - 1], p2[..|p2| - 1]);
      assert p1 == p1[..|p1| - 1] + [Last(p1)];
      assert p2 == p2[..|p2| - 1] + [Last(p2)];
    }
  }

  /** A span is reached through at most one child of the end of a path. */
  lemma ReachesUnique(s: seq<Span>, path: seq<nat>, c1: nat, c2: nat, e: nat)
    requires Reaches(s, path, c1, e) && Reaches(s, path, c2, e)
    ensures c1 == c2
  {
    var q1 :| IsPath(s, path + [c1] + q1) && Last(path + [c1] + q1) == e;
    var q2 :| IsPath(s, path + [c2] + q2) && Last(path + [c2] + q2) == e;
    PathUnique(s, path + [c1] + q1, path + [c2] + q2);
    assert (path + [c1] + q1)[|path|] == c1;
    assert (path + [c2] + q2)[|path|] == c2;
  }

  /** What is reached below child `c` is not `c` and does not have the end of the path as parent. */
  lemma ReachedBelow(s: seq<Span>, path: seq<nat>, c: nat, c': nat, e: nat)
    requires |path| > 0 && Reaches(s, path + [c], c', e)
    ensures e != c && e < |s| && s[e].parent.Some? && s[e].parent != Some(Last(path))
  {
    var q :| IsPath(s, path + [c] + [c'] + q) && Last(path + [c] + [c'] + q) == e;
    var p := path + [c] + [c'] + q;
    assert p[|path|] == c && p[|path| - 1] == Last(path);
    assert p[|p| - 1] == e && |p| - 1 > |path|;
    assert s[p[|p| - 1]].parent == Some(p[|p| - 2]);
  }

  lemma DistinctConcat(a: seq<nat>, b: seq<nat>)
    requires Distinct(a) && Distinct(b) && forall x :: x in a ==> x !in b
    ensures Distinct(a + b)
  {
    var ab := a + b;
    forall i, j | 0 <= i < j < |ab| ensures ab[i] != ab[j] {
      if j < |a| {
        assert ab[i] == a[i] && ab[j] == a[j];
      } else if i >= |a| {
        assert ab[i] == b[i - |a|] && ab[j] == b[j - |a|];
      } else {
        assert ab[i] == a[i] && ab[j] == b[j - |a|] && b[j - |a|] in b;
      }
    }
  }

  /** No span has two items in `walk_tree(spans[n])`. */
  lemma {:induction false} FragmentsDistinct(s: seq<Span>, path: seq<nat>)
    requires Walkable(s, path)
    ensures Distinct(ItemSpans(Fragments(s, path)))
    decreases Unvisited(|s|, path), 1
  {
    var n := Last(path);
    if |s[n].children| > 0 {
      SortedChildrenFacts(s, n);
      ItemsDistinct(s, path, SortedChildren(s, n), 0);
      WrapSpans(Items(s, path, SortedChildren(s, n), 0));
    }
  }

  lemma WrapSpans(items: seq<Fragment>)
    ensures ItemSpans([ListOpen] + items + [ListClose]) == ItemSpans(items)
  {
    ItemSpansAppend([ListOpen], items);
    ItemSpansAppend([ListOpen] + items, [ListClose]);
    assert ItemSpans([ListOpen]) == [] && ItemSpans([ListClose]) == [];
  }

  lemma {:induction false} ItemsDistinct(s: seq<Span>, path: seq<nat>, cs: seq<nat>, k: nat)
    requires Walkable(s, path) && k <= |cs| && ChildrenOf(s, Last(path), cs) && Distinct(cs)
    ensures Distinct(ItemSpans(Items(s, path, cs, k)))
    decreases Unvisited(|s|, path), 0, |cs| - k
  {
    if k < |cs| {
      var c := cs[k];
      ExtendPath(s, path, c);
      var inner := Fragments(s, path + [c]);
      var rest := Items(s, path, cs, k + 1);
      FragmentsDistinct(s, path + [c]);
      ItemsDistinct(s, path, cs, k + 1);
      BlockSpans(c, inner);
      ItemSpansAppend(Block(c, inner), rest);
      ChildNotBelow(s, path, c);
      DistinctConcat([c], ItemSpans(inner));
      BlockBeforeRest(s, path, cs, k);
      DistinctConcat([c] + ItemSpans(inner), ItemSpans(rest));
    }
  }

  /** A child has no item in its own list. */
  lemma ChildNotBelow(s: seq<Span>, path: seq<nat>, c: nat)
    requires Walkable(s, path) && c in s[Last(path)].children
    ensures Walkable(s, path + [c]) && c !in ItemSpans(Fragments(s, path + [c]))
  {
    ExtendPath(s, path, c);
    forall e | e in ItemSpans(Fragments(s, path + [c])) ensures e != c {
      FragmentsSound(s, path + [c], e);
      var c' :| c' in s[c].children && Reaches(s, path + [c], c', e);
      ReachedBelow(s, path, c, c', e);
    }
  }

  /** The spans in one child's item are not in the items of the later children. */
  lemma BlockBeforeRest(s: seq<Span>, path: seq<nat>, cs: seq<nat>, k: nat)
    requires Walkable(s, path) && k < |cs| && ChildrenOf(s, Last(path), cs) && Distinct(cs)
    ensures Walkable(s, path + [cs[k]])
    ensures forall e :: e in [cs[k]] + ItemSpans(Fragments(s, path + [cs[k]])) ==> e !in ItemSpans(Items(s, path, cs, k + 1))
  {
    var c := cs[k];
    ExtendPath(s, path, c);
    var inner := Fragments(s, path + [c]);
    forall e | e in [c] + ItemSpans(inner) ensures e !in ItemSpans(Items(s, path, cs, k + 1)) {
      if e == c {
        ReachItself(s, path, c);
      } else {
        ReachBelow(s, path, c, e);
      }
      if e in ItemSpans(Items(s, path, cs, k + 1)) {
        var j := ItemsSound(s, path, cs, k + 1, e);
        ReachesUnique(s, path, c, cs[j], e);
      }
    }
  }

  lemma BlockSpans(c: nat, inner: seq<Fragment>)
    ensures ItemSpans(Block(c, inner)) == [c] + ItemSpans(inner)
  {
    ItemSpansAppend([ItemOpen(c)], inner);
    ItemSpansAppend([ItemOpen(c)] + inner, [ItemClose]);
    assert ItemSpans([ItemOpen(c)]) == [c] && ItemSpans([ItemClose]) == [];
  }

  /** `walk_tree(spans[n])` holds one `<li>` per descendant of `n` and no other. */
  lemma OneItemPerDescendant(s: seq<Span>, path: seq<nat>)
    requires Walkable(s, path)
    ensures Distinct(ItemSpans(Fragments(s, path)))
    ensures forall d :: d in ItemSpans(Fragments(s, path)) <==> Descendant(s, Last(path), d)
  {
    FragmentsDistinct(s, path);
    forall d ensures d in ItemSpans(Fragments(s, path)) <==> Descendant(s, Last(path), d) {
      ItemsAreDescendants(s, path, d);
    }
  }

  // ---------------------------------------------------------------------------
  // Children in start-time order

  /** The spans of `xs` whose parent is `n`, in their order in `xs`. */
  function ChildrenIn(s: seq<Span>, n: nat, xs: seq<nat>): seq<nat>
    decreases |xs|
  {
    if xs == [] then []
    else (if xs[0] < |s| && s[xs[0]].parent == Some(n) then [xs[0]] else []) + ChildrenIn(s, n, xs[1..])
  }

  lemma {:induction false} ChildrenInAppend(s: seq<Span>, n: nat, a: seq<nat>, b: seq<nat>)
    ensures ChildrenIn(s, n, a + b) == ChildrenIn(s, n, a) + ChildrenIn(s, n, b)
    decreases |a|
  {
    if a == [] {
      assert a + b == b;
    } else {
      assert (a + b)[0] == a[0] && (a + b)[1..] == a[1..] + b;
      ChildrenInAppend(s, n, a[1..], b);
    }
  }

  lemma {:induction false} ChildrenInNone(s: seq<Span>, n: nat, xs: seq<nat>)
    requires forall x :: x in xs ==> x < |s| && s[x].parent != Some(n)
    ensures ChildrenIn(s, n, xs) == []
    decreases |xs|
  {
    if xs != [] {
      assert xs[0] in xs;
      assert forall x :: x in xs[1..] ==> x in xs;
      ChildrenInNone(s, n, xs[1..]);
    }
  }

  /** Nothing in a child's own list is a child of its parent. */
  lemma ChildListHoldsNoSibling(s: seq<Span>, path: seq<nat>, c: nat)
    requires Walkable(s, path) && c in s[Last(path)].children
    ensures Walkable(s, path + [c]) && ChildrenIn(s, Last(path), ItemSpans(Fragments(s, path + [c]))) == []
  {
    ExtendPath(s, path, c);
    var below := ItemSpans(Fragments(s, path + [c]));
    forall e | e in below ensures e < |s| && s[e].parent != Some(Last(path)) {
      FragmentsSound(s, path + [c], e);
      var c' :| c' in s[c].children && Reaches(s, path + [c], c', e);
      ReachedBelow(s, path, c, c', e);
    }
    ChildrenInNone(s, Last(path), below);
  }

  lemma {:induction false} ItemsTopLevel(s: seq<Span>, path: seq<nat>, cs: seq<nat>, k: nat)
    requires Walkable(s, path) && k <= |cs| && ChildrenOf(s, Last(path), cs)
    ensures ChildrenIn(s, Last(path), ItemSpans(Items(s, path, cs, k))) == cs[k..]
    decreases |cs| - k
  {
    if k < |cs| {
      var c := cs[k];
      ChildOf(s, Last(path), c);
      ChildListHoldsNoSibling(s, path, c);
      ItemsUnfold(s, path, cs, k);
      BlockSpans(c, Fragments(s, path + [c]));
      ItemSpansAppend(BlockAt(s, path, cs, k), Items(s, path, cs, k + 1));
      TopOfBlock(s, Last(path), c, ItemSpans(Fragments(s, path + [c])), ItemSpans(Items(s, path, cs, k + 1)));
      ItemsTopLevel(s, path, cs, k + 1);
      SliceCons(cs, k);
    }
  }

  lemma SliceCons(cs: seq<nat>, k: nat)
    requires k < |cs|
    ensures cs[k..] == [cs[k]] + cs[k + 1..]
  {
  }

  lemma TopOfBlock(s: seq<Span>, n: nat, c: nat, inner: seq<nat>, rest: seq<nat>)
    requires c < |s| && s[c].parent == Some(n) && ChildrenIn(s, n, inner) == []
    ensures ChildrenIn(s, n, [c] + inner + rest) == [c] + ChildrenIn(s, n, rest)
  {
    ChildrenInAppend(s, n, [c] + inner, rest);
    ChildrenInAppend(s, n, [c], inner);
    assert ChildrenIn(s, n, [c]) == [c];
  }

  /**
   * The children of `n` appear in `walk_tree(spans[n])` in the order of
   * `sorted(span.children, key=start_time)`: by start time, ties in their order in
   * `children`, each child once.
   */
  lemma ChildrenInStartOrder(s: seq<Span>, path: seq<nat>)
    requires Walkable(s, path)
    ensures var top := ChildrenIn(s, Last(path), ItemSpans(Fragments(s, path)));
      && top == SortedChildren(s, Last(path))
      && multiset(top) == multiset(s[Last(path)].children)
      && SortedBy(top, StartKey(s))
      && forall t: real :: WithKey(top, StartKey(s), t) == WithKey(s[Last(path)].children, StartKey(s), t)
  {
    var n := Last(path);
    SortedChildrenFacts(s, n);
    if |s[n].children| > 0 {
      var items := Items(s, path, SortedChildren(s, n), 0);
      ItemsTopLevel(s, path, SortedChildren(s, n), 0);
      WrapSpans(items);
      assert SortedChildren(s, n)[0..] == SortedChildren(s, n);
    } else {
      assert ItemSpans([]) == [];
    }
  }

  // ---------------------------------------------------------------------------
  // What the HTML does not depend on

  /** Two arenas with the same tree and the same start times. */
  predicate SameLayout(s: seq<Span>, r: seq<Span>)
  {
    SameTree(s, r) && forall i :: 0 <= i < |s| ==> r[i].startTime == s[i].startTime
  }

  lemma SortedChildrenAgree(s: seq<Span>, r: seq<Span>, n: nat)
    requires WellFormed(s) && WellFormed(r) && SameLayout(s, r) && n < |s|
    ensures SortedChildren(r, n) == SortedChildren(s, n)
  {
    SortByAgree(s[n].children, StartKey(s), StartKey(r));
  }

  /** The list structure of `walk_tree` depends on the children and start times only. */
  lemma {:induction false} FragmentsAgree(s: seq<Span>, r: seq<Span>, path: seq<nat>)
    requires Walkable(s, path) && Walkable(r, path) && SameLayout(s, r)
    ensures Fragments(r, path) == Fragments(s, path)
    decreases Unvisited(|s|, path), 1
  {
    var n := Last(path);
    if |s[n].children| > 0 {
      SortedChildrenAgree(s, r, n);
      ItemsAgree(s, r, path, SortedChildren(s, n), 0);
    }
  }

  lemma {:induction false} ItemsAgree(s: seq<Span>, r: seq<Span>, path: seq<nat>, cs: seq<nat>, k: nat)
    requires Walkable(s, path) && Walkable(r, path) && SameLayout(s, r)
    requires k <= |cs| && ChildrenOf(s, Last(path), cs)
    ensures ChildrenOf(r, Last(path), cs) && Items(r, path, cs, k) == Items(s, path, cs, k)
    decreases Unvisited(|s|, path), 0, |cs| - k
  {
    assert ChildrenOf(r, Last(path), cs);
    if k < |cs| {
      var c := cs[k];
      ExtendPath(s, path, c);
      ExtendPath(r, path, c);
      FragmentsAgree(s, r, path + [c]);
      ItemsAgree(s, r, path, cs, k + 1);
      ItemsUnfold(s, path, cs, k);
      ItemsUnfold(r, path, cs, k);
    }
  }

  /** Spans that have no item are never rendered. */
  lemma RenderAgree(s: seq<Span>, r: seq<Span>, fs: seq<Fragment>, root: nat)
    requires |r| == |s| && root !in ItemSpans(fs)
    requires forall i :: 0 <= i < |s| && i != root ==> r[i] == s[i]
    ensures RenderAll(r, fs) == RenderAll(s, fs)
  {
    forall k | 0 <= k < |fs| ensures Rendered(r, fs[k]) == Rendered(s, fs[k]) {
      if fs[k].ItemOpen? {
        assert fs[k] in fs;
        assert fs[k].span in ItemSpans(fs);
      }
    }
  }

  /** Whatever is reached from a path has a parent. */
  lemma ReachedHasParent(s: seq<Span>, path: seq<nat>, c: nat, e: nat)
    requires |path| > 0 && Reaches(s, path, c, e)
    ensures e < |s| && s[e].parent.Some?
  {
    var q :| IsPath(s, path + [c] + q) && Last(path + [c] + q) == e;
    var p := path + [c] + q;
    assert s[p[|p| - 1]].parent == Some(p[|p| - 2]);
  }

  /** The root, which has no parent, has no item of its own. */
  lemma RootHasNoItem(s: seq<Span>, root: nat)
    requires Walkable(s, [root])
    ensures root !in ItemSpans(Fragments(s, [root]))
  {
    forall e | e in ItemSpans(Fragments(s, [root])) ensures e < |s| && s[e].parent.Some? {
      FragmentsSound(s, [root], e);
      var c :| c in s[root].children && Reaches(s, [root], c, e);
      ReachedHasParent(s, [root], c, e);
    }
  }

  /** `html_graph` never shows the root's error or cause. */
  lemma RootErrorNotRendered(s: seq<Span>, root: nat, error: bool, cause: Value)
    requires Walkable(s, [root])
    ensures var r := s[root := s[root].(error := error, cause := cause)];
      Walkable(r, [root]) && Graph(r, root) == Graph(s, root)
  {
    var r := s[root := s[root].(error := error, cause := cause)];
    UpdateKeepsWellFormed(s, root, r[root]);
    SameTreeKeepsTree(s, r);
    SameTreeKeepsPath(s, r, [root]);
    FragmentsAgree(s, r, [root]);
    RootHasNoItem(s, root);
    RenderAgree(s, r, Fragments(s, [root]), root);
  }

  // ---------------------------------------------------------------------------
  // create_trace_html: what goes into a trace's report

  /**
   * The key of `sorted(trace.spans, key=rating, reverse=True)`. Python's reverse sort keeps
   * equal elements in their input order, so it is the stable ascending sort on this key.
   */
  function DescendingRating(x: Span): real
  {
    -x.rating
  }

  function IsErrored(x: Span): bool
  {
    x.error
  }

  /** `[span for span in xs if span.error]`. */
  function Errored(xs: seq<Span>): seq<Span>
  {
    Keep(xs, IsErrored)
  }

  /** The spans listed in a trace's report. */
  function Listed(s: seq<Span>): seq<Span>
  {
    Errored(SortBy(s, DescendingRating))
  }

  /**
   * A report lists exactly the errored spans of the trace, each as often as it occurs,
   * highest rating first, spans of equal rating in trace order.
   */
  lemma ListedSpans(s: seq<Span>)
    ensures forall x :: x in Listed(s) ==> x in s && x.error
    ensures multiset(Listed(s)) == multiset(Errored(s))
    ensures forall a, b :: 0 <= a < b < |Listed(s)| ==> Listed(s)[a].rating >= Listed(s)[b].rating
    ensures forall t: real :: WithKey(Listed(s), DescendingRating, t) == Errored(WithKey(s, DescendingRating, t))
  {
    var sorted := SortBy(s, DescendingRating);
    SortByPermutation(s, DescendingRating);
    forall x ensures multiset(Listed(s))[x] == multiset(Errored(s))[x] {
      KeepCount(sorted, IsErrored, x);
      KeepCount(s, IsErrored, x);
    }
    forall x | x in Listed(s) ensures x in s && x.error {
      KeepCount(s, IsErrored, x);
      assert x in multiset(Listed(s));
    }
    SortBySorted(s, DescendingRating);
    KeepSorted(sorted, IsErrored, DescendingRating);
    forall t: real ensures WithKey(Listed(s), DescendingRating, t) == Errored(WithKey(s, DescendingRating, t)) {
      KeepWithKey(sorted, IsErrored, DescendingRating, t);
      SortByStable(s, DescendingRating, t);
    }
  }

  /** What one trace's report is rendered from: the file name, the listed spans, the tree, the strands' causes. */
  datatype Report = Report(filename: string, listed: seq<Span>, graph: string, strands: seq<seq<Value>>)

  /** `[[span.cause for span in strand] for strand in strands]`. */
  function Causes(s: seq<Span>, strands: seq<seq<nat>>): (r: seq<seq<Value>>)
    ensures |r| == |strands|
    ensures forall k, j :: 0 <= k < |strands| && 0 <= j < |strands[k]| && strands[k][j] < |s| ==>
      |r[k]| == |strands[k]| && r[k][j] == s[strands[k][j]].cause
  {
    seq(|strands|, k requires 0 <= k < |strands| =>
      seq(|strands[k]|, j requires 0 <= j < |strands[k]| =>
        if strands[k][j] < |s| then s[strands[k][j]].cause else VNone))
  }

  /** The state of a trace that `create_trace_html` reads. */
  datatype TraceView = TraceView(spans: seq<Span>, errorCount: int, rootSpan: nat, filename: string)

  predicate Drawable(v: TraceView)
  {
    Walkable(v.spans, [v.rootSpan])
  }

  /**
   * Whether `span.__dict__()` returns for the last span of `stack`, its recursion stack
   * (src/trace_explorer/analysis/models.py:41-54). It recurses into every child, so it runs
   * without end exactly when the walk over `children` re-enters a span of its own stack.
   */
  predicate DictReturns(s: seq<Span>, stack: seq<nat>)
    requires |stack| > 0 && Last(stack) < |s|
    decreases Unvisited(|s|, stack)
  {
    forall j :: 0 <= j < |s[Last(stack)].children| ==>
      var c := s[Last(stack)].children[j];
      c < |s| && c !in stack && (UnvisitedShrinks(|s|, stack, c); DictReturns(s, stack + [c]))
  }

  /** `x.__dict__()` returns: so does the call on each of its children. */
  predicate SpanDictReturns(s: seq<Span>, x: Span)
  {
    forall j :: 0 <= j < |x.children| ==> x.children[j] < |s| && DictReturns(s, [x.children[j]])
  }

  /** The first of `xs` whose `__dict__()` does not return. */
  function FirstDictFailure(s: seq<Span>, xs: seq<Span>): (r: Option<nat>)
    ensures r.None? <==> forall k :: 0 <= k < |xs| ==> SpanDictReturns(s, xs[k])
    ensures r.Some? ==> r.value < |xs| && !SpanDictReturns(s, xs[r.value])
                        && forall k :: 0 <= k < r.value ==> SpanDictReturns(s, xs[k])
    decreases |xs|
  {
    if xs == [] then None
    else if !SpanDictReturns(s, xs[0]) then Some(0)
    else match FirstDictFailure(s, xs[1..])
      case None => None
      case Some(k) => Some(k + 1)
  }

  /**
   * A smaller recursion stack with the same last span forbids fewer re-entries, so the
   * call that returns on the larger stack returns on the smaller one.
   */
  lemma {:induction false} DictReturnsSmallerStack(s: seq<Span>, big: seq<nat>, small: seq<nat>)
    requires |big| > 0 && |small| > 0 && Last(big) == Last(small) && Last(big) < |s|
    requires forall k :: 0 <= k < |small| ==> small[k] in big
    requires DictReturns(s, big)
    ensures DictReturns(s, small)
    decreases Unvisited(|s|, small)
  {
    var n := Last(small);
    forall j | 0 <= j < |s[n].children|
      ensures s[n].children[j] < |s| && s[n].children[j] !in small && DictReturns(s, small + [s[n].children[j]])
    {
      var c := s[n].children[j];
      assert c < |s| && c !in big && DictReturns(s, big + [c]);
      UnvisitedShrinks(|s|, small, c);
      DictReturnsSmallerStack(s, big + [c], small + [c]);
    }
  }

  /** In a tree, `__dict__()` returns for every span on an ancestor path from a parentless span. */
  lemma {:induction false} PathDictReturns(s: seq<Span>, path: seq<nat>)
    requires Tree(s) && IsPath(s, path)
    ensures DictReturns(s, path)
    decreases Unvisited(|s|, path)
  {
    var n := Last(path);
    forall j | 0 <= j < |s[n].children|
      ensures s[n].children[j] < |s| && s[n].children[j] !in path && DictReturns(s, path + [s[n].children[j]])
    {
      var c := s[n].children[j];
      ExtendPath(s, path, c);
      PathDictReturns(s, path + [c]);
    }
  }

  /** Every span on a path from the root of a tree can be serialised, its subtree with it. */
  lemma TreeSpanDictReturns(s: seq<Span>, path: seq<nat>)
    requires Tree(s) && IsPath(s, path)
    ensures SpanDictReturns(s, s[Last(path)])
  {
    var n := Last(path);
    forall j | 0 <= j < |s[n].children|
      ensures s[n].children[j] < |s| && DictReturns(s, [s[n].children[j]])
    {
      var c := s[n].children[j];
      ExtendPath(s, path, c);
      PathDictReturns(s, path + [c]);
      DictReturnsSmallerStack(s, path + [c], [c]);
    }
  }

  /** Why a trace's report cannot be produced. */
  datatype ReportError =
    | DictRecursion(spanId: string)  // RecursionError: `__dict__()` of a listed span recurses without end
    | StrandFailed(cause: StrandError)

  /**
   * The report of one trace: serialising the listed spans (in listing order) and computing
   * the error strands may fail, in that order.
   */
  function ReportOf(v: TraceView): (r: Result<Report, ReportError>)
    requires Drawable(v)
    ensures r.Err? && r.error.DictRecursion? <==> ListedDictFails(v.spans)
  {
    var listed := Listed(v.spans);
    match FirstDictFailure(v.spans, listed)
    case Some(k) => Err(DictRecursion(listed[k].spanId))
    case None =>
      match ErrorStrands(v.spans)
      case Err(e) => Err(StrandFailed(e))
      case Ok(strands) => Ok(Report(v.filename, listed, Graph(v.spans, v.rootSpan), Causes(v.spans, strands)))
  }

  /** The listed spans are the spans of the trace that are errored. */
  lemma ListedMembers(s: seq<Span>)
    ensures forall x :: x in Listed(s) <==> x in s && x.error
  {
    ListedSpans(s);
    forall x | x in s && x.error ensures x in Listed(s) {
      KeepCount(s, IsErrored, x);
      assert x in multiset(Errored(s));
    }
  }

  /** Some listed span has a `__dict__()` that does not return. */
  predicate ListedDictFails(s: seq<Span>)
  {
    exists x :: x in Listed(s) && !SpanDictReturns(s, x)
  }

  /** Some errored span of the arena has a `__dict__()` that does not return. */
  predicate ErroredDictFails(s: seq<Span>)
  {
    exists i :: 0 <= i < |s| && s[i].error && !SpanDictReturns(s, s[i])
  }

  /** A listed span fails exactly when an errored span of the arena does. */
  lemma ListedDictFailsErrored(s: seq<Span>)
    ensures ListedDictFails(s) <==> ErroredDictFails(s)
  {
    ListedMembers(s);
    if ListedDictFails(s) {
      var x :| x in Listed(s) && !SpanDictReturns(s, x);
      var i :| 0 <= i < |s| && s[i] == x;
      assert s[i].error && !SpanDictReturns(s, s[i]);
    }
    if ErroredDictFails(s) {
      var i :| 0 <= i < |s| && s[i].error && !SpanDictReturns(s, s[i]);
      assert s[i] in Listed(s);
    }
  }

  /** The serialisation fails exactly when an errored span of the trace has a cyclic `children` closure. */
  lemma DictRecursionCases(v: TraceView)
    requires Drawable(v)
    ensures ReportOf(v).Err? && ReportOf(v).error.DictRecursion? <==> ErroredDictFails(v.spans)
  {
    ListedDictFailsErrored(v.spans);
  }

  /** It never fails when every errored span lies in the tree of a parentless span. */
  lemma TreeDictReturns(v: TraceView)
    requires Drawable(v)
    requires forall i :: 0 <= i < |v.spans| && v.spans[i].error ==> exists p :: IsPath(v.spans, p) && Last(p) == i
    ensures !(ReportOf(v).Err? && ReportOf(v).error.DictRecursion?)
  {
    var s := v.spans;
    forall i | 0 <= i < |s| && s[i].error ensures SpanDictReturns(s, s[i]) {
      var p :| IsPath(s, p) && Last(p) == i;
      TreeSpanDictReturns(s, p);
    }
    ListedDictFailsErrored(s);
  }

  /** A span with the given id, error flag and tree links, everything else empty. */
  function Bare(spanId: string, error: bool, children: seq<nat>, parent: Option<nat>): Span
  {
    Span(spanId, "t", "op", 0, 0, 0, map[], map[], [], [], error, VNone, None, VNone, 0.0,
         if parent.None? then Root else Child, children, parent, None, None, None)
  }

  /**
   * A root without children beside two spans that are each other's child, one of them
   * errored: the tree of the root can be drawn, but serialising the errored span recurses
   * without end, so the trace yields no report.
   */
  lemma CyclicErroredSpanFails()
    ensures var v := TraceView(Cycle(), 1, 0, "trace.html");
            Drawable(v) && ReportOf(v).Err? && ReportOf(v).error.DictRecursion?
  {
    var v := TraceView(Cycle(), 1, 0, "trace.html");
    CycleDrawable();
    CycleDictFails();
    DictRecursionCases(v);
  }

  /** The arena of `CyclicErroredSpanFails`. */
  function Cycle(): seq<Span>
  {
    [Bare("0", false, [], None), Bare("1", true, [2], Some(2)), Bare("2", false, [1], Some(1))]
  }

  lemma CycleDrawable()
    ensures Walkable(Cycle(), [0])
  {
    var s := Cycle();
    assert s[0].children == [] && s[1].children == [2] && s[2].children == [1];
  }

  lemma CycleDictFails()
    ensures ErroredDictFails(Cycle())
  {
    var s := Cycle();
    assert !DictReturns(s, [2, 1]) by {
      assert s[1].children[0] == 2;
    }
    assert !DictReturns(s, [2]) by {
      assert s[2].children[0] == 1 && [2] + [1] == [2, 1];
    }
    assert s[1].error && !SpanDictReturns(s, s[1]);
  }

  /** What the loop does with one trace: nothing for a trace without errors, else its report or the error. */
  type Outcome = Option<Result<Report, ReportError>>

  function OutcomeOf(v: TraceView): (o: Outcome)
    requires Drawable(v)
    ensures o.None? <==> v.errorCount == 0
    ensures o.Some? ==> o.value == ReportOf(v)
  {
    if v.errorCount == 0 then None else Some(ReportOf(v))
  }

  function Outcomes(vs: seq<TraceView>): (os: seq<Outcome>)
    requires forall v :: v in vs ==> Drawable(v)
    ensures |os| == |vs| && forall k :: 0 <= k < |vs| ==> os[k] == OutcomeOf(vs[k])
  {
    seq(|vs|, k requires 0 <= k < |vs| => OutcomeOf(vs[k]))
  }

  /**
   * The reports `create_trace_html` writes for the outcomes from `k` on, in order, and the
   * error that stopped it, if one did.
   */
  function Run(os: seq<Outcome>, k: nat): (seq<Report>, Option<ReportError>)
    requires k <= |os|
    decreases |os| - k
  {
    if k == |os| then ([], None)
    else
      match os[k]
      case None => Run(os, k + 1)
      case Some(Err(e)) => ([], Some(e))
      case Some(Ok(r)) => var rest := Run(os, k + 1); ([r] + rest.0, rest.1)
  }

  /** The number of outcomes from `k` on that are not skipped. */
  function Attempted(os: seq<Outcome>, k: nat): nat
    requires k <= |os|
    decreases |os| - k
  {
    if k == |os| then 0 else (if os[k].None? then 0 else 1) + Attempted(os, k + 1)
  }

  lemma {:induction false} RunWritesReports(os: seq<Outcome>, k: nat, r: Report)
    requires k <= |os| && r in Run(os, k).0
    ensures exists j :: k <= j < |os| && os[j] == Some(Ok(r))
    decreases |os| - k
  {
    var rest := Run(os, k + 1);
    if os[k].None? {
      RunWritesReports(os, k + 1, r);
    } else if os[k] != Some(Ok(r)) {
      assert r in rest.0;
      RunWritesReports(os, k + 1, r);
    }
  }

  lemma {:induction false} RunCount(os: seq<Outcome>, k: nat)
    requires k <= |os|
    ensures |Run(os, k).0| <= Attempted(os, k)
    ensures Run(os, k).1.None? ==> |Run(os, k).0| == Attempted(os, k)
    decreases |os| - k
  {
    if k < |os| {
      RunCount(os, k + 1);
    }
  }

  /** The number of traces that have errors. */
  function ErroredTraces(vs: seq<TraceView>): nat
    decreases |vs|
  {
    if vs == [] then 0 else (if vs[0].errorCount == 0 then 0 else 1) + ErroredTraces(vs[1..])
  }

  lemma {:induction false} AttemptedErrored(vs: seq<TraceView>, k: nat)
    requires k <= |vs| && forall v :: v in vs ==> Drawable(v)
    ensures Attempted(Outcomes(vs), k) == ErroredTraces(vs[k..])
    decreases |vs| - k
  {
    if k < |vs| {
      AttemptedErrored(vs, k + 1);
      assert vs[k..][1..] == vs[k + 1..];
    } else {
      assert vs[k..] == [];
    }
  }

  lemma WrittenReportOrigin(vs: seq<TraceView>, r: Report)
    requires (forall v :: v in vs ==> Drawable(v)) && r in Run(Outcomes(vs), 0).0
    ensures exists j :: 0 <= j < |vs| && vs[j].errorCount != 0 && ReportOf(vs[j]) == Ok(r)
  {
    var os := Outcomes(vs);
    RunWritesReports(os, 0, r);
    var j :| 0 <= j < |os| && os[j] == Some(Ok(r));
    assert os[j] == OutcomeOf(vs[j]);
  }

  /**
   * Each report written is the report of a trace with errors; at most one is written per
   * such trace, and when no error stops the loop, every trace with errors gets one.
   */
  lemma ReportsOfErroredTraces(vs: seq<TraceView>)
    requires forall v :: v in vs ==> Drawable(v)
    ensures forall r :: r in Run(Outcomes(vs), 0).0 ==>
      exists j :: 0 <= j < |vs| && vs[j].errorCount != 0 && ReportOf(vs[j]) == Ok(r)
    ensures |Run(Outcomes(vs), 0).0| <= ErroredTraces(vs)
    ensures Run(Outcomes(vs), 0).1.None? ==> |Run(Outcomes(vs), 0).0| == ErroredTraces(vs)
  {
    forall r | r in Run(Outcomes(vs), 0).0
      ensures exists j :: 0 <= j < |vs| && vs[j].errorCount != 0 && ReportOf(vs[j]) == Ok(r)
    {
      WrittenReportOrigin(vs, r);
    }
    RunCount(Outcomes(vs), 0);
    AttemptedErrored(vs, 0);
    assert vs[0..] == vs;
  }

  /** A trace's report lists the errored spans by rating and shows the tree of its root. */
  lemma ReportContents(v: TraceView)
    requires Drawable(v) && ReportOf(v).Ok?
    ensures ReportOf(v).value.filename == v.filename && ReportOf(v).value.graph == Graph(v.spans, v.rootSpan)
    ensures ReportOf(v).value.listed == Listed(v.spans) && multiset(ReportOf(v).value.listed) == multiset(Errored(v.spans))
    ensures ErrorStrands(v.spans).Ok? && |ReportOf(v).value.strands| == |ErrorStrands(v.spans).value|
  {
    ListedSpans(v.spans);
  }

  function Views(ts: seq<Trace>): (r: seq<TraceView>)
    reads ts
    ensures |r| == |ts|
    ensures forall k :: 0 <= k < |ts| ==> r[k] == TraceView(ts[k].spans, ts[k].errorCount, ts[k].rootSpan, ts[k].filename)
  {
    seq(|ts|, k reads ts requires 0 <= k < |ts| => TraceView(ts[k].spans, ts[k].errorCount, ts[k].rootSpan, ts[k].filename))
  }

  /** `written` followed by what the loop still writes from `p`. */
  function Then(written: seq<Report>, p: (seq<Report>, Option<ReportError>)): (seq<Report>, Option<ReportError>)
  {
    (written + p.0, p.1)
  }

  lemma ThenNothing(written: seq<Report>, p: (seq<Report>, Option<ReportError>))
    ensures Then([], p) == p
    ensures p.0 == [] ==> Then(written, p) == (written, p.1)
  {
    assert [] + p.0 == p.0;
    assert written + [] == written;
  }

  lemma RunSkip(os: seq<Outcome>, k: nat, written: seq<Report>)
    requires k < |os| && os[k].None? && Run(os, 0) == Then(written, Run(os, k))
    ensures Run(os, 0) == Then(written, Run(os, k + 1))
  {
  }

  lemma RunStop(os: seq<Outcome>, k: nat, written: seq<Report>, e: ReportError)
    requires k < |os| && os[k] == Some(Err(e)) && Run(os, 0) == Then(written, Run(os, k))
    ensures Run(os, 0) == (written, Some(e))
  {
    assert written + [] == written;
  }

  lemma RunWrite(os: seq<Outcome>, k: nat, written: seq<Report>, r: Report)
    requires k < |os| && os[k] == Some(Ok(r)) && Run(os, 0) == Then(written, Run(os, k))
    ensures Run(os, 0) == Then(written + [r], Run(os, k + 1))
  {
    var rest := Run(os, k + 1);
    assert Run(os, k) == ([r] + rest.0, rest.1);
    assert written + ([r] + rest.0) == written + [r] + rest.0;
  }

  /** One pass of the loop, whatever the outcome. */
  lemma RunStep(os: seq<Outcome>, k: nat, written: seq<Report>, o: Outcome)
    requires k < |os| && o == os[k] && Run(os, 0) == Then(written, Run(os, k))
    ensures o.None? ==> Run(os, 0) == Then(written, Run(os, k + 1))
    ensures o.Some? && o.value.Err? ==> Run(os, 0) == (written, Some(o.value.error))
    ensures o.Some? && o.value.Ok? ==> Run(os, 0) == Then(written + [o.value.value], Run(os, k + 1))
  {
    match o
    case None => RunSkip(os, k, written);
    case Some(Err(e)) => RunStop(os, k, written, e);
    case Some(Ok(r)) => RunWrite(os, k, written, r);
  }

  lemma RunEnd(os: seq<Outcome>, written: seq<Report>)
    requires Run(os, 0) == Then(written, Run(os, |os|))
    ensures Run(os, 0) == (written, None)
  {
    assert written + [] == written;
  }

  lemma ViewsDrawable(ts: seq<Trace>)
    requires forall t :: t in ts ==> Walkable(t.spans, [t.rootSpan])
    ensures forall v :: v in Views(ts) ==> Drawable(v)
  {
    var vs := Views(ts);
    forall v | v in vs ensures Drawable(v) {
      var k :| 0 <= k < |vs| && vs[k] == v;
      assert ts[k] in ts;
    }
  }

  /** One pass of the loop of `create_trace_html`, up to writing the file. */
  method TraceOutcome(t: Trace, ghost v: TraceView) returns (o: Outcome)
    requires v == TraceView(t.spans, t.errorCount, t.rootSpan, t.filename) && Drawable(v)
    ensures o == OutcomeOf(v)
  {
    if t.errorCount == 0 {
      return None;
    }
    var listed := Listed(t.spans);
    var failure := FirstDictFailure(t.spans, listed);
    if failure.Some? {
      return Some(Err(DictRecursion(listed[failure.value].spanId)));
    }
    var graph := HtmlGraph(t.spans, t.rootSpan);
    var strands := ErrorStrands(t.spans);
    if strands.Err? {
      return Some(Err(StrandFailed(strands.error)));
    }
    o := Some(Ok(Report(t.filename, listed, graph, Causes(t.spans, strands.value))));
    assert ReportOf(v) == o.value;
  }

  /**
   * `create_trace_html(traces)`: the reports it renders, in order, and the error that stops
   * it; rendering the templates and writing the files are not modelled.
   */
  method CreateTraceHtml(traces: seq<Trace>) returns (written: seq<Report>, stopped: Option<ReportError>)
    requires forall v :: v in Views(traces) ==> Drawable(v)
    ensures (written, stopped) == Run(Outcomes(Views(traces)), 0)
  {
    ghost var vs := Views(traces);
    ghost var os := Outcomes(vs);
    written := [];
    ThenNothing(written, Run(os, 0));
    var k := 0;
    while k < |traces|
      invariant k <= |traces|
      invariant Run(os, 0) == Then(written, Run(os, k))
    {
      assert vs[k] in vs;
      var o := TraceOutcome(traces[k], vs[k]);
      RunStep(os, k, written, o);
      if o.Some? && o.value.Err? {
        return written, Some(o.value.error);
      }
      if o.Some? {
        written := written + [o.value.value];
      }
      k := k + 1;
    }
    RunEnd(os, written);
    stopped := None;
  }
}
