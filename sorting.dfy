/**
 * `Array.prototype.sort` with a comparator, as a stable insertion sort: each
 * element, taken in input order, goes in front of the first element it
 * compares strictly before, so elements that compare equal keep their order.
 */
module Sorting {

  /** `cmp(a, b)` is `key(b) - key(a)`. */
  ghost predicate Descends<T>(cmp: (T, T) -> int, key: T -> int, a: T, b: T) {
    cmp(a, b) == key(b) - key(a)
  }

  /** On the values in `dom`, `cmp(a, b)` is `key(b) - key(a)`: larger keys sort first. */
  ghost predicate ByKeyDescending<T>(cmp: (T, T) -> int, key: T -> int, dom: set<T>) {
    forall a, b {:trigger Descends(cmp, key, a, b)} | a in dom && b in dom :: Descends(cmp, key, a, b)
  }

  /** The keys of `xs` never increase from left to right. */
  ghost predicate NonIncreasing<T>(xs: seq<T>, key: T -> int) {
    forall i, j | 0 <= i < j < |xs| :: key(xs[i]) >= key(xs[j])
  }

  function Insert<T>(sorted: seq<T>, x: T, cmp: (T, T) -> int): (r: seq<T>)
    ensures multiset(r) == multiset(sorted) + multiset{x}
  {
    if sorted == [] then [x]
    else if cmp(x, sorted[0]) < 0 then [x] + sorted
    else
      assert sorted == [sorted[0]] + sorted[1..];
      [sorted[0]] + Insert(sorted[1..], x, cmp)
  }

  /** `xs.sort(cmp)` on a freshly built array: the result is a permutation of `xs`. */
  function SortBy<T>(xs: seq<T>, cmp: (T, T) -> int): (r: seq<T>)
    ensures multiset(r) == multiset(xs)
  {
    if xs == [] then []
    else
      assert xs == xs[..|xs| - 1] + [xs[|xs| - 1]];
      Insert(SortBy(xs[..|xs| - 1], cmp), xs[|xs| - 1], cmp)
  }

  lemma {:induction false} InsertDescending<T>(sorted: seq<T>, x: T, cmp: (T, T) -> int, key: T -> int, dom: set<T>)
    requires ByKeyDescending(cmp, key, dom)
    requires x in dom && forall k | 0 <= k < |sorted| :: sorted[k] in dom
    requires NonIncreasing(sorted, key)
    ensures NonIncreasing(Insert(sorted, x, cmp), key)
  {
    if sorted != [] {
      assert Descends(cmp, key, x, sorted[0]);
    }
    if sorted != [] && cmp(x, sorted[0]) >= 0 {
      var rest := sorted[1..];
      InsertDescending(rest, x, cmp, key, dom);
      var tail := Insert(rest, x, cmp);
      var r := [sorted[0]] + tail;
      forall j | 0 <= j < |tail|
        ensures key(sorted[0]) >= key(tail[j])
      {
        assert tail[j] in multiset(tail);
        if tail[j] != x {
          assert tail[j] in multiset(rest);
          var k :| 0 <= k < |rest| && rest[k] == tail[j];
          assert sorted[k + 1] == tail[j];
        }
      }
      forall i, j | 0 <= i < j < |r| ensures key(r[i]) >= key(r[j]) {
        assert r[j] == tail[j - 1];
        if i > 0 { assert r[i] == tail[i - 1]; }
      }
    }
  }

  /** With a comparator of the form `key(b) - key(a)`, the result is ordered by descending key. */
  lemma {:induction false} SortByDescending<T>(xs: seq<T>, cmp: (T, T) -> int, key: T -> int, dom: set<T>)
    requires ByKeyDescending(cmp, key, dom)
    requires forall k | 0 <= k < |xs| :: xs[k] in dom
    ensures NonIncreasing(SortBy(xs, cmp), key)
  {
    if xs != [] {
      var init := xs[..|xs| - 1];
      SortByDescending(init, cmp, key, dom);
      var s := SortBy(init, cmp);
      forall k | 0 <= k < |s| ensures s[k] in dom {
        assert s[k] in multiset(init);
      }
      InsertDescending(s, xs[|xs| - 1], cmp, key, dom);
    }
  }

  /** The elements of `xs` whose key is `k`, in their order in `xs`. */
  function WithKey<T>(xs: seq<T>, key: T -> int, k: int): (r: seq<T>)
    ensures |r| <= |xs|
    ensures forall i | 0 <= i < |r| :: key(r[i]) == k
  {
    if xs == [] then []
    else
      assert xs == [xs[0]] + xs[1..];
      (if key(xs[0]) == k then [xs[0]] else []) + WithKey(xs[1..], key, k)
  }

  lemma {:induction false} WithKeyAppend<T>(a: seq<T>, b: seq<T>, key: T -> int, k: int)
    ensures WithKey(a + b, key, k) == WithKey(a, key, k) + WithKey(b, key, k)
  {
    if a == [] {
      assert a + b == b;
    } else {
      assert (a + b)[0] == a[0] && (a + b)[1..] == a[1..] + b;
      WithKeyAppend(a[1..], b, key, k);
    }
  }

  lemma {:induction false} WithKeyAll<T>(xs: seq<T>, key: T -> int, k: int)
    requires forall i | 0 <= i < |xs| :: key(xs[i]) == k
    ensures WithKey(xs, key, k) == xs
  {
    if xs != [] {
      WithKeyAll(xs[1..], key, k);
      assert xs == [xs[0]] + xs[1..];
    }
  }

  lemma {:induction false} WithKeyNone<T>(xs: seq<T>, key: T -> int, k: int)
    requires forall i | 0 <= i < |xs| :: key(xs[i]) != k
    ensures WithKey(xs, key, k) == []
  {
    if xs != [] {
      WithKeyNone(xs[1..], key, k);
    }
  }

  /** An element with a key above all of `xs` has no element of `xs` with its key after it. */
  lemma PrependAboveStable<T>(x: T, xs: seq<T>, key: T -> int, k: int)
    requires forall i | 0 <= i < |xs| :: key(x) > key(xs[i])
    ensures WithKey([x] + xs, key, k) == WithKey(xs, key, k) + WithKey([x], key, k)
  {
    WithKeyAppend([x], xs, key, k);
    if key(x) == k {
      WithKeyNone(xs, key, k);
    }
  }

  lemma NonIncreasingTail<T>(xs: seq<T>, key: T -> int)
    requires xs != [] && NonIncreasing(xs, key)
    ensures NonIncreasing(xs[1..], key)
    ensures forall i | 0 <= i < |xs| :: key(xs[0]) >= key(xs[i])
  {
    forall i, j | 0 <= i < j < |xs| - 1 ensures key(xs[1..][i]) >= key(xs[1..][j]) {
      assert xs[1..][i] == xs[i + 1] && xs[1..][j] == xs[j + 1];
    }
  }

  /**
   * Inserting into a sequence ordered by descending key puts `x` after every
   * element with the same key.
   */
  lemma {:induction false} InsertStable<T>(sorted: seq<T>, x: T, cmp: (T, T) -> int, key: T -> int, dom: set<T>,
                                           k: int)
    requires ByKeyDescending(cmp, key, dom)
    requires x in dom && forall i | 0 <= i < |sorted| :: sorted[i] in dom
    requires NonIncreasing(sorted, key)
    ensures WithKey(Insert(sorted, x, cmp), key, k) == WithKey(sorted, key, k) + WithKey([x], key, k)
  {
    if sorted == [] {
      assert Insert(sorted, x, cmp) == [x];
    } else {
      var head, rest := sorted[0], sorted[1..];
      NonIncreasingTail(sorted, key);
      assert Descends(cmp, key, x, head);
      if cmp(x, head) < 0 {
        PrependAboveStable(x, sorted, key, k);
      } else {
        InsertStable(rest, x, cmp, key, dom, k);
        var tail := Insert(rest, x, cmp);
        assert Insert(sorted, x, cmp) == [head] + tail;
        WithKeyAppend([head], tail, key, k);
        assert sorted == [head] + rest;
        WithKeyAppend([head], rest, key, k);
      }
    }
  }

  /**
   * The sort is stable when the comparator is `key(b) - key(a)`: the elements
   * with any one key come out in their input order.
   */
  lemma {:induction false} SortByStable<T>(xs: seq<T>, cmp: (T, T) -> int, key: T -> int, dom: set<T>, k: int)
    requires ByKeyDescending(cmp, key, dom)
    requires forall i | 0 <= i < |xs| :: xs[i] in dom
    ensures WithKey(SortBy(xs, cmp), key, k) == WithKey(xs, key, k)
  {
    if xs != [] {
      var init, last := xs[..|xs| - 1], xs[|xs| - 1];
      assert xs == init + [last];
      SortByStable(init, cmp, key, dom, k);
      var s := SortBy(init, cmp);
      SortByDescending(init, cmp, key, dom);
      SortByInDom(init, cmp, dom);
      InsertStable(s, last, cmp, key, dom, k);
      assert SortBy(xs, cmp) == Insert(s, last, cmp);
      WithKeyAppend(init, [last], key, k);
    }
  }

  /** Sorting draws its elements from the input. */
  lemma SortByInDom<T>(xs: seq<T>, cmp: (T, T) -> int, dom: set<T>)
    requires forall i | 0 <= i < |xs| :: xs[i] in dom
    ensures forall i | 0 <= i < |SortBy(xs, cmp)| :: SortBy(xs, cmp)[i] in dom
  {
    var s := SortBy(xs, cmp);
    forall i | 0 <= i < |s| ensures s[i] in dom {
      assert s[i] in multiset(xs);
    }
  }

  /** When every pair compares equal, sorting returns its input unchanged. */
  lemma SortByAllEqual<T>(xs: seq<T>, cmp: (T, T) -> int)
    requires forall i, j | 0 <= i < |xs| && 0 <= j < |xs| :: cmp(xs[i], xs[j]) == 0
    ensures SortBy(xs, cmp) == xs
  {
    var key := (x: T) => 0;
    var dom := set i | 0 <= i < |xs| :: xs[i];
    forall a, b | a in dom && b in dom ensures Descends(cmp, key, a, b) {
      var i :| 0 <= i < |xs| && xs[i] == a;
      var j :| 0 <= j < |xs| && xs[j] == b;
      assert cmp(xs[i], xs[j]) == 0;
    }
    SortByStable(xs, cmp, key, dom, 0);
    WithKeyAll(xs, key, 0);
    WithKeyAll(SortBy(xs, cmp), key, 0);
  }

}
