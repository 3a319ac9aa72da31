/** Sequence combinators for the loops that build a list one element at a time. */
module Seqs {
  import opened Wrappers

  /** What `for x in xs: out.extend(f(x))` builds, written from the back as the loops extend it. */
  function FlatMap<A, B>(f: A -> seq<B>, xs: seq<A>): seq<B> {
    if |xs| == 0 then [] else FlatMap(f, xs[..|xs| - 1]) + f(xs[|xs| - 1])
  }

  /** Extending the prefix by one element extends the result by that element's image. */
  lemma FlatMapSnoc<A, B>(f: A -> seq<B>, xs: seq<A>, i: nat)
    requires i < |xs|
    ensures FlatMap(f, xs[..i + 1]) == FlatMap(f, xs[..i]) + f(xs[i])
  {
    assert xs[..i + 1][..i] == xs[..i];
  }

  /** An element is in the result exactly when it comes from some input element. */
  lemma {:induction false} FlatMapMember<A, B>(f: A -> seq<B>, xs: seq<A>, y: B)
    ensures y in FlatMap(f, xs) <==> exists i :: 0 <= i < |xs| && y in f(xs[i])
  {
    if |xs| > 0 {
      var n := |xs| - 1;
      var init := xs[..n];
      FlatMapMember(f, init, y);
      assert y in FlatMap(f, xs) <==> y in FlatMap(f, init) || y in f(xs[n]);
      if y in FlatMap(f, init) {
        var i :| 0 <= i < |init| && y in f(init[i]);
        assert xs[i] == init[i];
      }
      if i :| 0 <= i < |xs| && y in f(xs[i]) {
        if i < n {
          assert init[i] == xs[i];
        }
      }
    }
  }

  /** When each element yields at most one, the result is no longer than the input. */
  lemma {:induction false} FlatMapLength<A, B>(f: A -> seq<B>, xs: seq<A>)
    requires forall i :: 0 <= i < |xs| ==> |f(xs[i])| <= 1
    ensures |FlatMap(f, xs)| <= |xs|
  {
    if |xs| > 0 {
      FlatMapLength(f, xs[..|xs| - 1]);
    }
  }

  /** Every element of the result satisfies what every image promises. */
  lemma {:induction false} FlatMapAll<A, B>(f: A -> seq<B>, xs: seq<A>, p: B -> bool)
    requires forall x, y :: y in f(x) ==> p(y)
    ensures forall y :: y in FlatMap(f, xs) ==> p(y)
  {
    if |xs| > 0 {
      FlatMapAll(f, xs[..|xs| - 1], p);
    }
  }
  /** No element appears twice. */
  predicate Distinct<T(==)>(xs: seq<T>) {
    forall i, j :: 0 <= i < j < |xs| ==> xs[i] != xs[j]
  }

  /** A distinct sequence holds each element at most once. */
  lemma {:induction false} DistinctMultiset<T>(xs: seq<T>, x: T)
    requires Distinct(xs)
    ensures multiset(xs)[x] <= 1
  {
    if |xs| > 0 {
      var init := xs[..|xs| - 1];
      DistinctMultiset(init, x);
      assert xs == init + [xs[|xs| - 1]];
    }
  }

  /** A sequence that holds each element at most once is distinct. */
  lemma MultisetDistinct<T>(xs: seq<T>)
    requires forall x :: multiset(xs)[x] <= 1
    ensures Distinct(xs)
  {
    forall i, j | 0 <= i < j < |xs| ensures xs[i] != xs[j] {
      var a, b := xs[..j], xs[j..];
      assert xs == a + b;
      assert a[i] == xs[i] && b[0] == xs[j];
      assert xs[i] in multiset(a);
      assert multiset(xs)[xs[i]] == multiset(a)[xs[i]] + multiset(b)[xs[i]];
    }
  }

  /** A sequence whose every element is `x` holds `x` as often as it is long. */
  lemma {:induction false} AllSameCount<T>(xs: seq<T>, x: T)
    requires forall y :: y in xs ==> y == x
    ensures multiset(xs)[x] == |xs|
  {
    if |xs| > 0 {
      var init := xs[..|xs| - 1];
      assert xs == init + [xs[|xs| - 1]];
      assert forall y :: y in init ==> y in xs;
      AllSameCount(init, x);
      assert xs[|xs| - 1] in xs;
      assert multiset(xs) == multiset(init) + multiset{xs[|xs| - 1]};
    }
  }

  /** Each element once, at its first occurrence. */
  function Dedup<T(==, !new)>(xs: seq<T>): (r: seq<T>)
    ensures forall x :: x in r <==> x in xs
    ensures Distinct(r) && |r| <= |xs|
  {
    if |xs| == 0 then []
    else
      var init := Dedup(xs[..|xs| - 1]);
      var last := xs[|xs| - 1];
      assert forall x :: x in xs <==> x in xs[..|xs| - 1] || x == last;
      if last in init then init else init + [last]
  }

  /** The elements that satisfy `keep`, in order. */
  function Filter<T(!new)>(keep: T -> bool, xs: seq<T>): (r: seq<T>)
    ensures forall x :: x in r <==> x in xs && keep(x)
    ensures Distinct(xs) ==> Distinct(r)
  {
    if |xs| == 0 then []
    else
      var init := Filter(keep, xs[..|xs| - 1]);
      var last := xs[|xs| - 1];
      assert forall x :: x in xs <==> x in xs[..|xs| - 1] || x == last;
      if keep(last) then init + [last] else init
  }

  /** `le` orders any two elements and is transitive. */
  ghost predicate TotalPreorder<T(!new)>(le: (T, T) -> bool) {
    && (forall a, b :: le(a, b) || le(b, a))
    && (forall a, b, c :: le(a, b) && le(b, c) ==> le(a, c))
  }

  predicate SortedBy<T>(le: (T, T) -> bool, s: seq<T>) {
    forall i, j :: 0 <= i < j < |s| ==> le(s[i], s[j])
  }

  /** Stable insertion: `x` goes after every element that `le` puts before or beside it. */
  function InsertBy<T>(le: (T, T) -> bool, sorted: seq<T>, x: T): (r: seq<T>)
    ensures |r| == |sorted| + 1
    ensures multiset(r) == multiset(sorted) + multiset{x}
  {
    if |sorted| == 0 then [x]
    else if le(sorted[|sorted| - 1], x) then sorted + [x]
    else
      assert sorted == sorted[..|sorted| - 1] + [sorted[|sorted| - 1]];
      InsertBy(le, sorted[..|sorted| - 1], x) + [sorted[|sorted| - 1]]
  }

  /** Stable insertion sort: what Python's `sorted` and an SQL `ORDER BY` produce. */
  function SortBy<T>(le: (T, T) -> bool, xs: seq<T>): (r: seq<T>)
    ensures |r| == |xs|
    ensures multiset(r) == multiset(xs)
  {
    if |xs| == 0 then []
    else
      assert xs == xs[..|xs| - 1] + [xs[|xs| - 1]];
      InsertBy(le, SortBy(le, xs[..|xs| - 1]), xs[|xs| - 1])
  }

  lemma {:induction false} InsertBySorted<T(!new)>(le: (T, T) -> bool, sorted: seq<T>, x: T)
    requires TotalPreorder(le) && SortedBy(le, sorted)
    ensures SortedBy(le, InsertBy(le, sorted, x))
    decreases |sorted|
  {
    if |sorted| > 0 {
      var init := sorted[..|sorted| - 1];
      var last := sorted[|sorted| - 1];
      if le(last, x) {
        var s := sorted + [x];
        forall i, j | 0 <= i < j < |s| ensures le(s[i], s[j]) {
          if j == |sorted| && i < |sorted| - 1 {
            assert le(s[i], last);
          }
        }
      } else {
        InsertBySorted(le, init, x);
        var r := InsertBy(le, init, x);
        forall y | y in r ensures le(y, last) {
          assert y in multiset(r);
          if y != x {
            assert y in multiset(init);
            var i :| 0 <= i < |init| && init[i] == y;
            assert sorted[i] == y;
          }
        }
        var s := r + [last];
        forall i, j | 0 <= i < j < |s| ensures le(s[i], s[j]) {
          if j == |r| {
            assert s[i] in r;
          }
        }
      }
    }
  }

  /** Under a total preorder the sorted sequence is in order. */
  lemma {:induction false} SortBySorted<T(!new)>(le: (T, T) -> bool, xs: seq<T>)
    requires TotalPreorder(le)
    ensures SortedBy(le, SortBy(le, xs))
  {
    if |xs| > 0 {
      SortBySorted(le, xs[..|xs| - 1]);
      InsertBySorted(le, SortBy(le, xs[..|xs| - 1]), xs[|xs| - 1]);
    }
  }

  /** Sorting keeps a distinct sequence distinct. */
  lemma SortByDistinct<T>(le: (T, T) -> bool, xs: seq<T>)
    requires Distinct(xs)
    ensures Distinct(SortBy(le, xs))
  {
    forall x ensures multiset(SortBy(le, xs))[x] <= 1 {
      DistinctMultiset(xs, x);
    }
    MultisetDistinct(SortBy(le, xs));
  }
  /** The first `n` elements, or all of them when there are fewer: SQL's `LIMIT n`. */
  function Take<T>(s: seq<T>, n: nat): (r: seq<T>)
    ensures |r| == if |s| <= n then |s| else n
    ensures r <= s
  {
    if |s| <= n then s else s[..n]
  }

  /**
   * Taking a prefix of a sorted distinct sequence keeps it sorted and distinct, and an
   * element left out means the prefix is full of elements ordered before or beside it.
   */
  lemma TakeSorted<T>(le: (T, T) -> bool, s: seq<T>, n: nat, x: T)
    requires SortedBy(le, s) && Distinct(s)
    ensures SortedBy(le, Take(s, n)) && Distinct(Take(s, n))
    ensures x in Take(s, n) ==> x in s
    ensures x in s && x !in Take(s, n) ==> |Take(s, n)| == n && forall q :: q in Take(s, n) ==> le(q, x)
  {
    var r := Take(s, n);
    assert forall i :: 0 <= i < |r| ==> r[i] == s[i];
    if x in s && x !in r {
      var k :| 0 <= k < |s| && s[k] == x;
      forall q | q in r ensures le(q, x) {
        var i :| 0 <= i < |r| && r[i] == q;
      }
    }
  }

  /** The position of the first element that satisfies `p`. */
  function FirstWhere<T>(p: T -> bool, xs: seq<T>): (r: Option<nat>)
    ensures r.Some? ==> r.value < |xs| && p(xs[r.value])
    ensures forall j :: 0 <= j < |xs| && (r.None? || j < r.value) ==> !p(xs[j])
  {
    if |xs| == 0 then None
    else if p(xs[0]) then Some(0)
    else
      var r := FirstWhere(p, xs[1..]);
      assert forall j :: 1 <= j < |xs| ==> xs[j] == xs[1..][j - 1];
      if r.Some? then Some(r.value + 1) else None
  }

  lemma FirstWhereAt<T>(p: T -> bool, xs: seq<T>, k: nat)
    requires k < |xs| && p(xs[k])
    requires forall j :: 0 <= j < k ==> !p(xs[j])
    ensures FirstWhere(p, xs) == Some(k)
  {
    var r := FirstWhere(p, xs);
    assert r.Some? ==> r.value >= k;
  }
}
