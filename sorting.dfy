/**
 * Python's `sorted(xs, key=...)`: a stable sort. Stability is stated as: for every key
 * value, the elements carrying that key keep their relative order.
 */
module Sorting {

  predicate SortedBy<T>(xs: seq<T>, key: T -> real)
  {
    forall a, b :: 0 <= a < b < |xs| ==> key(xs[a]) <= key(xs[b])
  }

  /** The elements of `xs` whose key is `k`, in their order in `xs`. */
  function WithKey<T>(xs: seq<T>, key: T -> real, k: real): seq<T>
    decreases |xs|
  {
    if xs == [] then [] else (if key(xs[0]) == k then [xs[0]] else []) + WithKey(xs[1..], key, k)
  }

  /** Puts `x` before the first element whose key is not smaller than its own. */
  function Insert<T>(x: T, ys: seq<T>, key: T -> real): seq<T>
    decreases |ys|
  {
    if ys == [] then [x]
    else if key(x) <= key(ys[0]) then [x] + ys
    else [ys[0]] + Insert(x, ys[1..], key)
  }

  /** `sorted(xs, key=key)`. */
  function SortBy<T>(xs: seq<T>, key: T -> real): seq<T>
    decreases |xs|
  {
    if xs == [] then [] else Insert(xs[0], SortBy(xs[1..], key), key)
  }

  predicate AllAtLeast<T>(xs: seq<T>, key: T -> real, lo: real)
  {
    forall a :: 0 <= a < |xs| ==> lo <= key(xs[a])
  }

  lemma {:induction false} InsertBounded<T>(x: T, ys: seq<T>, key: T -> real, lo: real)
    requires lo <= key(x) && AllAtLeast(ys, key, lo)
    ensures AllAtLeast(Insert(x, ys, key), key, lo)
    decreases |ys|
  {
    if ys != [] && key(x) > key(ys[0]) {
      InsertBounded(x, ys[1..], key, lo);
    }
  }

  lemma {:induction false} InsertSorted<T>(x: T, ys: seq<T>, key: T -> real)
    requires SortedBy(ys, key)
    ensures SortedBy(Insert(x, ys, key), key)
    decreases |ys|
  {
    if ys != [] && key(x) > key(ys[0]) {
      InsertSorted(x, ys[1..], key);
      InsertBounded(x, ys[1..], key, key(ys[0]));
    }
  }

  lemma {:induction false} InsertPermutation<T>(x: T, ys: seq<T>, key: T -> real)
    ensures multiset(Insert(x, ys, key)) == multiset(ys) + multiset{x}
    decreases |ys|
  {
    if ys != [] && key(x) > key(ys[0]) {
      InsertPermutation(x, ys[1..], key);
      assert ys == [ys[0]] + ys[1..];
    }
  }

  lemma {:induction false} InsertWithKey<T>(x: T, ys: seq<T>, key: T -> real, k: real)
    requires SortedBy(ys, key)
    ensures WithKey(Insert(x, ys, key), key, k) == (if key(x) == k then [x] else []) + WithKey(ys, key, k)
    decreases |ys|
  {
    if ys == [] {
    } else if key(x) <= key(ys[0]) {
      assert ([x] + ys)[1..] == ys;
    } else {
      InsertWithKey(x, ys[1..], key, k);
      InsertWithKeyLater(x, ys, key, k);
    }
  }

  lemma InsertWithKeyLater<T>(x: T, ys: seq<T>, key: T -> real, k: real)
    requires ys != [] && key(x) > key(ys[0])
    requires WithKey(Insert(x, ys[1..], key), key, k) == (if key(x) == k then [x] else []) + WithKey(ys[1..], key, k)
    ensures WithKey(Insert(x, ys, key), key, k) == (if key(x) == k then [x] else []) + WithKey(ys, key, k)
  {
    var zs := Insert(x, ys[1..], key);
    assert Insert(x, ys, key) == [ys[0]] + zs;
    WithKeyCons(ys[0], zs, key, k);
    WithKeyCons(ys[0], ys[1..], key, k);
    assert [ys[0]] + ys[1..] == ys;
    SwapEmpty(if key(ys[0]) == k then [ys[0]] else [], if key(x) == k then [x] else [], WithKey(ys[1..], key, k));
  }

  lemma WithKeyCons<T>(y: T, zs: seq<T>, key: T -> real, k: real)
    ensures WithKey([y] + zs, key, k) == (if key(y) == k then [y] else []) + WithKey(zs, key, k)
  {
    assert ([y] + zs)[0] == y && ([y] + zs)[1..] == zs;
  }

  lemma SwapEmpty<T>(a: seq<T>, b: seq<T>, c: seq<T>)
    requires a == [] || b == []
    ensures a + (b + c) == b + (a + c)
  {
    if a == [] {
      assert a + (b + c) == b + c && a + c == c;
    } else {
      assert b + c == c && b + (a + c) == a + c;
    }
  }

  /** The sorted sequence is ordered by key. */
  lemma {:induction false} SortBySorted<T>(xs: seq<T>, key: T -> real)
    ensures SortedBy(SortBy(xs, key), key)
    decreases |xs|
  {
    if xs != [] {
      SortBySorted(xs[1..], key);
      InsertSorted(xs[0], SortBy(xs[1..], key), key);
    }
  }

  /** The sorted sequence is a permutation of the input. */
  lemma {:induction false} SortByPermutation<T>(xs: seq<T>, key: T -> real)
    ensures multiset(SortBy(xs, key)) == multiset(xs)
    ensures |SortBy(xs, key)| == |xs|
    decreases |xs|
  {
    if xs != [] {
      SortByPermutation(xs[1..], key);
      InsertPermutation(xs[0], SortBy(xs[1..], key), key);
      assert xs == [xs[0]] + xs[1..];
    }
    assert |multiset(SortBy(xs, key))| == |SortBy(xs, key)|;
  }

  /** The sort is stable: elements with equal keys keep their input order. */
  lemma {:induction false} SortByStable<T>(xs: seq<T>, key: T -> real, k: real)
    ensures WithKey(SortBy(xs, key), key, k) == WithKey(xs, key, k)
    decreases |xs|
  {
    if xs != [] {
      SortBySorted(xs[1..], key);
      SortByStable(xs[1..], key, k);
      InsertWithKey(xs[0], SortBy(xs[1..], key), key, k);
    }
  }

  /** Sorting a sorted sequence changes nothing (in particular, sorting twice is sorting once). */
  lemma {:induction false} SortBySortedIsIdentity<T>(xs: seq<T>, key: T -> real)
    requires SortedBy(xs, key)
    ensures SortBy(xs, key) == xs
    decreases |xs|
  {
    if xs != [] {
      SortBySortedIsIdentity(xs[1..], key);
      assert SortBy(xs[1..], key) == xs[1..];
      if xs[1..] != [] {
        assert key(xs[0]) <= key(xs[1..][0]);
      }
    }
  }

  /** The sort depends on the key's values only. */
  lemma {:induction false} InsertAgree<T>(x: T, ys: seq<T>, key: T -> real, key': T -> real)
    requires forall y :: key(y) == key'(y)
    ensures Insert(x, ys, key) == Insert(x, ys, key')
    decreases |ys|
  {
    if ys != [] {
      InsertAgree(x, ys[1..], key, key');
    }
  }

  lemma {:induction false} SortByAgree<T>(xs: seq<T>, key: T -> real, key': T -> real)
    requires forall y :: key(y) == key'(y)
    ensures SortBy(xs, key) == SortBy(xs, key')
    decreases |xs|
  {
    if xs != [] {
      SortByAgree(xs[1..], key, key');
      InsertAgree(xs[0], SortBy(xs[1..], key), key, key');
    }
  }

  lemma {:induction false} WithKeyAppend<T>(a: seq<T>, b: seq<T>, key: T -> real, k: real)
    ensures WithKey(a + b, key, k) == WithKey(a, key, k) + WithKey(b, key, k)
    decreases |a|
  {
    if a == [] {
      assert a + b == b;
    } else {
      assert (a + b)[0] == a[0] && (a + b)[1..] == a[1..] + b;
      WithKeyAppend(a[1..], b, key, k);
      var h := if key(a[0]) == k then [a[0]] else [];
      assert WithKey(a + b, key, k) == h + (WithKey(a[1..], key, k) + WithKey(b, key, k));
      assert h + (WithKey(a[1..], key, k) + WithKey(b, key, k)) == (h + WithKey(a[1..], key, k)) + WithKey(b, key, k);
    }
  }

  // ------------------------------------------------------------------ filtering

  /** `[x for x in xs if p(x)]`. */
  function Keep<T>(xs: seq<T>, p: T -> bool): seq<T>
    decreases |xs|
  {
    if xs == [] then [] else (if p(xs[0]) then [xs[0]] else []) + Keep(xs[1..], p)
  }

  /** Filtering keeps every kept element as often as it occurs and drops the others. */
  lemma {:induction false} KeepCount<T>(xs: seq<T>, p: T -> bool, x: T)
    ensures multiset(Keep(xs, p))[x] == if p(x) then multiset(xs)[x] else 0
    decreases |xs|
  {
    if xs != [] {
      KeepCount(xs[1..], p, x);
      assert xs == [xs[0]] + xs[1..];
    }
  }

  /** An element is kept exactly when it occurs and passes the test. */
  lemma KeepMembers<T>(xs: seq<T>, p: T -> bool, x: T)
    ensures x in Keep(xs, p) <==> x in xs && p(x)
  {
    KeepCount(xs, p, x);
    assert x in Keep(xs, p) <==> x in multiset(Keep(xs, p));
    assert x in xs <==> x in multiset(xs);
  }

  lemma {:induction false} KeepBounded<T>(xs: seq<T>, p: T -> bool, key: T -> real, lo: real)
    requires AllAtLeast(xs, key, lo)
    ensures AllAtLeast(Keep(xs, p), key, lo)
    decreases |xs|
  {
    if xs != [] {
      assert AllAtLeast(xs[1..], key, lo);
      KeepBounded(xs[1..], p, key, lo);
    }
  }

  lemma SortedCons<T>(head: seq<T>, rest: seq<T>, key: T -> real)
    requires |head| <= 1 && SortedBy(rest, key)
    requires forall a :: 0 <= a < |head| ==> AllAtLeast(rest, key, key(head[a]))
    ensures SortedBy(head + rest, key)
  {
  }

  /** Filtering a sorted sequence leaves it sorted. */
  lemma {:induction false} KeepSorted<T>(xs: seq<T>, p: T -> bool, key: T -> real)
    requires SortedBy(xs, key)
    ensures SortedBy(Keep(xs, p), key)
    decreases |xs|
  {
    if xs != [] {
      assert SortedBy(xs[1..], key) && AllAtLeast(xs[1..], key, key(xs[0]));
      KeepSorted(xs[1..], p, key);
      KeepBounded(xs[1..], p, key, key(xs[0]));
      SortedCons(if p(xs[0]) then [xs[0]] else [], Keep(xs[1..], p), key);
    }
  }

  lemma {:induction false} KeepAppend<T>(a: seq<T>, b: seq<T>, p: T -> bool)
    ensures Keep(a + b, p) == Keep(a, p) + Keep(b, p)
    decreases |a|
  {
    if a == [] {
      assert a + b == b;
    } else {
      assert (a + b)[0] == a[0] && (a + b)[1..] == a[1..] + b;
      KeepAppend(a[1..], b, p);
      var h := if p(a[0]) then [a[0]] else [];
      assert Keep(a + b, p) == h + (Keep(a[1..], p) + Keep(b, p));
      assert h + (Keep(a[1..], p) + Keep(b, p)) == (h + Keep(a[1..], p)) + Keep(b, p);
    }
  }

  /** Filtering commutes with taking the elements of one key. */
  lemma {:induction false} KeepWithKey<T>(xs: seq<T>, p: T -> bool, key: T -> real, k: real)
    ensures WithKey(Keep(xs, p), key, k) == Keep(WithKey(xs, key, k), p)
    decreases |xs|
  {
    if xs != [] {
      KeepWithKey(xs[1..], p, key, k);
      WithKeyAppend(if p(xs[0]) then [xs[0]] else [], Keep(xs[1..], p), key, k);
      KeepAppend(if key(xs[0]) == k then [xs[0]] else [], WithKey(xs[1..], key, k), p);
    }
  }
}
