/** Sorting by a comparison, as `Array.sort` is used by the scripts. */
module Sorting {
  /** `le(a, b)`: `a` may stand before `b`. */
  function Insert<T>(x: T, sorted: seq<T>, le: (T, T) -> bool): (result: seq<T>)
    ensures multiset(result) == multiset(sorted) + multiset{x} && |result| == |sorted| + 1
  {
    if sorted == [] || le(x, sorted[0]) then
      assert multiset([x] + sorted) == multiset{x} + multiset(sorted);
      [x] + sorted
    else
      assert sorted == [sorted[0]] + sorted[1..];
      [sorted[0]] + Insert(x, sorted[1..], le)
  }

  function Sort<T>(xs: seq<T>, le: (T, T) -> bool): (sorted: seq<T>)
    ensures multiset(sorted) == multiset(xs) && |sorted| == |xs|
  {
    if xs == [] then []
    else
      assert xs == [xs[0]] + xs[1..];
      Insert(xs[0], Sort(xs[1..], le), le)
  }

  predicate Sorted<T>(xs: seq<T>, le: (T, T) -> bool) {
    forall i, j :: 0 <= i < j < |xs| ==> le(xs[i], xs[j])
  }

  ghost predicate Transitive<T(!new)>(le: (T, T) -> bool) {
    forall a, b, c :: le(a, b) && le(b, c) ==> le(a, c)
  }

  /** Any two of the elements can be compared. */
  predicate Comparable<T>(xs: seq<T>, le: (T, T) -> bool) {
    forall i, j :: 0 <= i < j < |xs| ==> le(xs[i], xs[j]) || le(xs[j], xs[i])
  }

  lemma {:induction false} SameMembers<T>(a: seq<T>, b: seq<T>, extra: multiset<T>)
    requires multiset(a) == multiset(b) + extra
    ensures forall p :: p in a <==> p in b || p in extra
  {
    forall p
      ensures p in a <==> p in b || p in extra
    {
      assert p in a <==> p in multiset(a);
      assert p in b <==> p in multiset(b);
    }
  }

  lemma {:induction false} InsertSorted<T(!new)>(x: T, sorted: seq<T>, le: (T, T) -> bool)
    requires Transitive(le) && Sorted(sorted, le) && forall y :: y in sorted ==> le(x, y) || le(y, x)
    ensures Sorted(Insert(x, sorted, le), le)
  {
    if sorted != [] {
      var first, rest := sorted[0], sorted[1..];
      if le(x, first) {
        assert forall k :: 0 <= k < |sorted| ==> le(x, sorted[k]);
      } else {
        InsertSorted(x, rest, le);
        var result := Insert(x, rest, le);
        SameMembers(result, rest, multiset{x});
        forall k | 0 <= k < |result|
          ensures le(first, result[k])
        {
          assert result[k] in result;
        }
      }
    }
  }

  lemma {:induction false} SortSorted<T(!new)>(xs: seq<T>, le: (T, T) -> bool)
    requires Transitive(le) && Comparable(xs, le)
    ensures Sorted(Sort(xs, le), le)
  {
    if xs != [] {
      var rest := xs[1..];
      assert forall i, j :: 0 <= i < j < |rest| ==> rest[i] == xs[i + 1] && rest[j] == xs[j + 1];
      SortSorted(rest, le);
      SameMembers(Sort(rest, le), rest, multiset{});
      forall y | y in rest
        ensures le(xs[0], y) || le(y, xs[0])
      {
        var k :| 0 <= k < |rest| && rest[k] == y;
        assert xs[k + 1] == y;
      }
      InsertSorted(xs[0], Sort(rest, le), le);
    }
  }

  predicate Pairwise<T>(xs: seq<T>, rel: (T, T) -> bool) {
    forall i, j :: 0 <= i < j < |xs| ==> rel(xs[i], xs[j])
  }

  ghost predicate Symmetric<T(!new)>(rel: (T, T) -> bool) {
    forall a, b :: rel(a, b) ==> rel(b, a)
  }

  lemma {:induction false} InsertKeepsPairwise<T(!new)>(x: T, sorted: seq<T>, le: (T, T) -> bool, rel: (T, T) -> bool)
    requires Symmetric(rel) && Pairwise(sorted, rel) && forall y :: y in sorted ==> rel(x, y)
    ensures Pairwise(Insert(x, sorted, le), rel)
  {
    if sorted != [] && !le(x, sorted[0]) {
      var rest := sorted[1..];
      InsertKeepsPairwise(x, rest, le, rel);
      var result := Insert(x, rest, le);
      SameMembers(result, rest, multiset{x});
      forall k | 0 <= k < |result|
        ensures rel(sorted[0], result[k])
      {
        assert result[k] in result;
      }
    }
  }

  /** A symmetric relation between any two elements survives sorting. */
  lemma {:induction false} SortKeepsPairwise<T(!new)>(xs: seq<T>, le: (T, T) -> bool, rel: (T, T) -> bool)
    requires Symmetric(rel) && Pairwise(xs, rel)
    ensures Pairwise(Sort(xs, le), rel)
  {
    if xs != [] {
      var rest := xs[1..];
      assert forall i, j :: 0 <= i < j < |rest| ==> rest[i] == xs[i + 1] && rest[j] == xs[j + 1];
      SortKeepsPairwise(rest, le, rel);
      SameMembers(Sort(rest, le), rest, multiset{});
      forall y | y in rest
        ensures rel(xs[0], y)
      {
        var k :| 0 <= k < |rest| && rest[k] == y;
        assert xs[k + 1] == y;
      }
      InsertKeepsPairwise(xs[0], Sort(rest, le), le, rel);
    }
  }

  lemma {:induction false} SameRest<T>(x: T, a: seq<T>, b: seq<T>, c: seq<T>)
    requires multiset(a + [x] + b) == multiset([x] + c)
    ensures multiset(a + b) == multiset(c)
  {
    assert multiset(a + b) + multiset{x} == multiset(a + [x] + b);
    assert multiset(c) + multiset{x} == multiset([x] + c);
    assert multiset(a + b) == multiset(a + b) + multiset{x} - multiset{x};
    assert multiset(c) == multiset(c) + multiset{x} - multiset{x};
  }

  lemma {:induction false} PairwiseWithout<T(!new)>(xs: seq<T>, k: nat, rel: (T, T) -> bool)
    requires Symmetric(rel) && Pairwise(xs, rel) && k < |xs|
    ensures Pairwise(xs[..k] + xs[k + 1..], rel)
    ensures forall y :: y in xs[..k] + xs[k + 1..] ==> rel(xs[k], y)
  {
    var rest := xs[..k] + xs[k + 1..];
    assert forall j :: 0 <= j < |rest| ==> rest[j] == xs[if j < k then j else j + 1];
  }

  /** Such a relation survives any reordering. */
  lemma {:induction false} PairwisePermuted<T(!new)>(xs: seq<T>, ys: seq<T>, rel: (T, T) -> bool)
    requires Symmetric(rel) && Pairwise(xs, rel) && multiset(xs) == multiset(ys)
    ensures Pairwise(ys, rel)
  {
    if ys != [] {
      var others := ys[1..];
      assert ys == [ys[0]] + others;
      assert ys[0] in multiset(xs);
      var k :| 0 <= k < |xs| && xs[k] == ys[0];
      var rest := xs[..k] + xs[k + 1..];
      assert xs == xs[..k] + [xs[k]] + xs[k + 1..];
      SameRest(ys[0], xs[..k], xs[k + 1..], others);
      PairwiseWithout(xs, k, rel);
      PairwisePermuted(rest, others, rel);
      forall j | 0 <= j < |others|
        ensures rel(ys[0], others[j])
      {
        assert others[j] in multiset(others);
        assert others[j] in rest;
      }
    }
  }
}
