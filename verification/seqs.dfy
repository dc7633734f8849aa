/** Sequence operations shared by the client and the server queries: element
    lookup, order-preserving filtering and a stable descending sort by an
    integer key. */
module Seqs {

  import opened Wrappers

  /** The element at `index`, as JavaScript's `xs[index]` reads it: undefined
      exactly when `index` is past the end. */
  function At<T>(xs: seq<T>, index: nat): (x: Option<T>)
    ensures x.None? <==> index >= |xs|
    ensures x.Some? ==> x.value == xs[index]
  {
    if index < |xs| then Some(xs[index]) else None
  }

  /** `key` never increases from left to right (an `ORDER BY key DESC`). */
  predicate NonIncreasing<T>(xs: seq<T>, key: T -> int) {
    forall i, j :: 0 <= i < j < |xs| ==> key(xs[i]) >= key(xs[j])
  }

  /** `key` strictly decreases from left to right. */
  predicate Decreasing<T>(xs: seq<T>, key: T -> int) {
    forall i, j :: 0 <= i < j < |xs| ==> key(xs[i]) > key(xs[j])
  }

  /** No two elements of `xs` share a key. */
  predicate KeysDistinct<T>(xs: seq<T>, key: T -> int) {
    forall i, j :: 0 <= i < j < |xs| ==> key(xs[i]) != key(xs[j])
  }

  /** The elements of `xs` that satisfy `p`, in their original order
      (JavaScript's `Array.prototype.filter`, SQL's `WHERE`). */
  function Filter<T(!new)>(xs: seq<T>, p: T -> bool): (r: seq<T>)
    ensures |r| <= |xs|
    ensures forall y :: y in r <==> y in xs && p(y)
    ensures forall y :: multiset(r)[y] == if p(y) then multiset(xs)[y] else 0
  {
    if |xs| == 0 then []
    else
      assert xs == [xs[0]] + xs[1..];
      if p(xs[0]) then [xs[0]] + Filter(xs[1..], p) else Filter(xs[1..], p)
  }

  /** Filtering distributes over concatenation, so it keeps the relative order
      of the elements it retains. */
  lemma {:induction false} FilterAppend<T(!new)>(a: seq<T>, b: seq<T>, p: T -> bool)
    ensures Filter(a + b, p) == Filter(a, p) + Filter(b, p)
    decreases |a|
  {
    if |a| == 0 {
      assert a + b == b;
    } else {
      assert (a + b)[1..] == a[1..] + b;
      FilterAppend(a[1..], b, p);
    }
  }

  /** Filtering keeps no more copies of anything than the input holds. */
  lemma FilterSubMultiset<T(!new)>(xs: seq<T>, p: T -> bool)
    ensures multiset(Filter(xs, p)) <= multiset(xs)
  {
    var r := Filter(xs, p);
    assert forall y :: multiset(r)[y] <= multiset(xs)[y];
  }

  /** A prefix (SQL's `LIMIT`) holds no more copies of anything than the whole
      sequence, and keeps its order. */
  lemma PrefixFacts<T>(xs: seq<T>, n: nat, key: T -> int)
    requires n <= |xs|
    ensures multiset(xs[..n]) <= multiset(xs)
    ensures forall y :: y in xs[..n] ==> y in xs
    ensures NonIncreasing(xs, key) ==> NonIncreasing(xs[..n], key)
  {
    assert xs == xs[..n] + xs[n..];
  }

  /** Filtering by a predicate every element meets changes nothing. */
  lemma {:induction false} FilterKeepsAll<T(!new)>(xs: seq<T>, p: T -> bool)
    requires forall y :: y in xs ==> p(y)
    ensures Filter(xs, p) == xs
    decreases |xs|
  {
    if |xs| > 0 {
      FilterKeepsAll(xs[1..], p);
    }
  }

  /** Places `x` in front of the first element whose key does not exceed its own,
      so that `x` precedes the elements of `xs` that tie with it. */
  function InsertDesc<T>(x: T, xs: seq<T>, key: T -> int): (r: seq<T>)
    requires NonIncreasing(xs, key)
    ensures NonIncreasing(r, key)
    ensures multiset(r) == multiset(xs) + multiset{x}
    ensures |r| == |xs| + 1
    ensures forall k :: 0 <= k < |r| ==> r[k] == x || r[k] in xs
  {
    if |xs| == 0 then [x]
    else if key(x) >= key(xs[0]) then [x] + xs
    else
      assert xs == [xs[0]] + xs[1..];
      var rest := InsertDesc(x, xs[1..], key);
      assert forall k :: 0 <= k < |rest| ==> key(rest[k]) <= key(xs[0]);
      [xs[0]] + rest
  }

  /** A stable sort into non-increasing `key` order. */
  function SortDesc<T>(xs: seq<T>, key: T -> int): (r: seq<T>)
    ensures NonIncreasing(r, key)
    ensures multiset(r) == multiset(xs)
    ensures |r| == |xs|
  {
    if |xs| == 0 then []
    else
      assert xs == [xs[0]] + xs[1..];
      InsertDesc(xs[0], SortDesc(xs[1..], key), key)
  }

  /** With distinct keys, a non-increasing order is strictly decreasing. */
  lemma NonIncreasingDistinctIsDecreasing<T>(xs: seq<T>, key: T -> int)
    requires NonIncreasing(xs, key)
    requires KeysDistinct(xs, key)
    ensures Decreasing(xs, key)
  {
  }

  /** Two strictly decreasing sequences holding the same elements are equal:
      a descending order on a unique key leaves nothing to chance. */
  lemma {:induction false} DecreasingUnique<T>(xs: seq<T>, ys: seq<T>, key: T -> int)
    requires Decreasing(xs, key) && Decreasing(ys, key)
    requires multiset(xs) == multiset(ys)
    ensures xs == ys
    decreases |xs|
  {
    if |xs| > 0 {
      assert |ys| == |multiset(ys)| == |multiset(xs)| == |xs|;
      assert xs[0] in multiset(ys);
      assert ys[0] in multiset(xs);
      var i :| 0 <= i < |ys| && ys[i] == xs[0];
      var j :| 0 <= j < |xs| && xs[j] == ys[0];
      assert key(xs[0]) >= key(ys[0]);
      assert key(ys[0]) >= key(xs[0]);
      assert j == 0;
      assert xs == [xs[0]] + xs[1..];
      assert ys == [ys[0]] + ys[1..];
      assert multiset(xs[1..]) == multiset(xs) - multiset{xs[0]};
      assert multiset(ys[1..]) == multiset(ys) - multiset{ys[0]};
      DecreasingUnique(xs[1..], ys[1..], key);
    }
  }

  /** With distinct keys no element occurs twice. */
  lemma {:induction false} DistinctKeysCountOne<T>(a: seq<T>, key: T -> int)
    requires KeysDistinct(a, key)
    ensures forall x :: multiset(a)[x] <= 1
    decreases |a|
  {
    if |a| > 0 {
      assert a == [a[0]] + a[1..];
      assert KeysDistinct(a[1..], key);
      DistinctKeysCountOne(a[1..], key);
      assert a[0] !in a[1..];
    }
  }

  /** An element found at two positions occurs at least twice. */
  lemma TwoPositionsCountTwo<T>(b: seq<T>, i: nat, j: nat)
    requires i < j < |b|
    ensures b[i] == b[j] ==> multiset(b)[b[i]] >= 2
  {
    assert b == b[..j] + [b[j]] + b[j + 1..];
    assert b[i] in b[..j];
  }

  /** Taking a sub-multiset keeps keys distinct. */
  lemma SubMultisetKeysDistinct<T>(a: seq<T>, b: seq<T>, key: T -> int)
    requires KeysDistinct(a, key)
    requires multiset(b) <= multiset(a)
    ensures KeysDistinct(b, key)
  {
    DistinctKeysCountOne(a, key);
    forall i, j | 0 <= i < j < |b|
      ensures key(b[i]) != key(b[j])
    {
      assert b[i] in multiset(a) && b[j] in multiset(a);
      var p :| 0 <= p < |a| && a[p] == b[i];
      var q :| 0 <= q < |a| && a[q] == b[j];
      TwoPositionsCountTwo(b, i, j);
      assert b[i] != b[j];
      assert p != q;
    }
  }
}
