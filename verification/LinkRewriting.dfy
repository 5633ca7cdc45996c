/** Applying destination replacements to a page, from the last to the first. */
module LinkRewriting {
  import opened Splices
  import opened Sorting

  type Replacement = Edit<char>

  /** Replacements of different destinations: some character stands between any two. */
  predicate Apart(a: Replacement, b: Replacement) {
    a.end < b.start || b.end < a.start
  }

  predicate Disjoint(replacements: seq<Replacement>, length: nat) {
    && (forall i :: 0 <= i < |replacements| ==> replacements[i].start <= replacements[i].end <= length)
    && Pairwise(replacements, Apart)
  }

  // ---- Sorting ----

  predicate StartsFirst(a: Replacement, b: Replacement) {
    a.start <= b.start
  }

  function ByStart(replacements: seq<Replacement>): (sorted: seq<Replacement>)
    ensures multiset(sorted) == multiset(replacements)
  {
    Sort(replacements, StartsFirst)
  }

  /** In order, with a character between any two. */
  predicate Ascending(sorted: seq<Replacement>, length: nat) {
    if sorted == [] then true
    else
      && sorted[0].start <= sorted[0].end <= length
      && (|sorted| > 1 ==> sorted[0].end < sorted[1].start)
      && Ascending(sorted[1..], length)
  }

  lemma {:induction false} SortedAscending(sorted: seq<Replacement>, length: nat)
    requires Sorted(sorted, StartsFirst) && Disjoint(sorted, length)
    ensures Ascending(sorted, length)
  {
    if sorted != [] {
      var rest := sorted[1..];
      assert forall i :: 0 <= i < |rest| ==> rest[i] == sorted[i + 1];
      SortedAscending(rest, length);
      if |sorted| > 1 {
        assert StartsFirst(sorted[0], sorted[1]) && Apart(sorted[0], sorted[1]);
      }
    }
  }

  lemma {:induction false} ByStartAscending(replacements: seq<Replacement>, length: nat)
    requires Disjoint(replacements, length)
    ensures Ascending(ByStart(replacements), length)
  {
    var sorted := ByStart(replacements);
    SortSorted(replacements, StartsFirst);
    SortKeepsPairwise(replacements, StartsFirst, Apart);
    SameMembers(sorted, replacements, multiset{});
    forall i | 0 <= i < |sorted|
      ensures sorted[i].start <= sorted[i].end <= length
    {
      assert sorted[i] in replacements;
    }
    SortedAscending(sorted, length);
  }

  lemma {:induction false} AscendingFits(sorted: seq<Replacement>, at: nat, length: nat)
    requires Ascending(sorted, length) && at <= length && (sorted != [] ==> at <= sorted[0].start)
    ensures Fits(sorted, at, length)
  {
    if sorted != [] {
      AscendingFits(sorted[1..], sorted[0].end, length);
    }
  }

  /** The page with all the replacements substituted at once. */
  function Rewritten(source: string, replacements: seq<Replacement>): string
    requires Disjoint(replacements, |source|)
  {
    ByStartAscending(replacements, |source|);
    AscendingFits(ByStart(replacements), 0, |source|);
    Weave(source, ByStart(replacements), 0)
  }

  lemma {:induction false} FitsSuffix<T>(edits: seq<Edit<T>>, at: nat, length: nat, i: nat)
    requires Fits(edits, at, length) && i <= |edits|
    ensures Fits(edits[i..], EndBefore(edits, at, i), length)
    ensures at <= EndBefore(edits, at, i)
  {
    if i > 0 {
      FitsSuffix(edits[1..], edits[0].end, length, i - 1);
      assert edits[1..][i - 1..] == edits[i..];
    } else {
      assert edits[0..] == edits;
    }
  }

  lemma {:induction false} FitsFromZero<T>(edits: seq<Edit<T>>, at: nat, length: nat)
    requires Fits(edits, at, length)
    ensures Fits(edits, 0, length)
  {
  }

  /** Apply the replacements in place, in order of descending start. */
  method ApplyReplacements(source: string, replacements: seq<Replacement>) returns (projected: string)
    requires Disjoint(replacements, |source|)
    ensures projected == Rewritten(source, replacements)
  {
    hide Disjoint, ByStart, Weave;
    var sorted := ByStart(replacements);
    ByStartAscending(replacements, |source|);
    AscendingFits(sorted, 0, |source|);
    projected := source;
    NoneWoven(source, sorted);
    for i := |sorted| downto 0
      invariant Fits(sorted[i..], 0, |source|)
      invariant projected == Weave(source, sorted[i..], 0)
    {
      FitsSuffix(sorted, 0, |source|, i);
      FitsFromZero(sorted[i..], EndBefore(sorted, 0, i), |source|);
      SpliceEarlier(source, sorted[i..]);
      assert sorted[i..][1..] == sorted[i + 1..];
      projected := projected[..sorted[i].start] + sorted[i].value + projected[sorted[i].end..];
    }
    assert sorted[0..] == sorted;
  }

  lemma {:induction false} NoneWoven<T>(s: seq<T>, edits: seq<Edit<T>>)
    ensures edits[|edits|..] == [] && Fits(edits[|edits|..], 0, |s|) && Weave(s, edits[|edits|..], 0) == s
  {
  }

  // ---- The order of discovery does not matter ----

  lemma {:induction false} AscendingBounds(sorted: seq<Replacement>, length: nat, r: Replacement)
    requires Ascending(sorted, length) && r in sorted
    ensures sorted[0].start <= r.start && (r != sorted[0] ==> sorted[0].start < r.start)
  {
    if r != sorted[0] {
      assert r in sorted[1..];
      AscendingBounds(sorted[1..], length, r);
    }
  }

  lemma {:induction false} AscendingIsUnique(a: seq<Replacement>, b: seq<Replacement>, length: nat)
    requires Ascending(a, length) && Ascending(b, length) && multiset(a) == multiset(b)
    ensures a == b
  {
    if a == [] {
      assert |multiset(b)| == 0;
    } else {
      assert |multiset(b)| > 0;
      assert a[0] in multiset(b) && b[0] in multiset(a);
      AscendingBounds(b, length, a[0]);
      AscendingBounds(a, length, b[0]);
      assert a == [a[0]] + a[1..] && b == [b[0]] + b[1..];
      assert multiset(a[1..]) == multiset(a) - multiset{a[0]};
      AscendingIsUnique(a[1..], b[1..], length);
    }
  }

  /** The page does not depend on the order in which the links were found. */
  lemma {:induction false} RewritingIgnoresOrder(source: string, a: seq<Replacement>, b: seq<Replacement>)
    requires Disjoint(a, |source|) && Disjoint(b, |source|) && multiset(a) == multiset(b)
    ensures Rewritten(source, a) == Rewritten(source, b)
  {
    ByStartAscending(a, |source|);
    ByStartAscending(b, |source|);
    AscendingIsUnique(ByStart(a), ByStart(b), |source|);
  }
}
