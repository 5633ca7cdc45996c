/** The mechanical update of the confirmed source itself, and of an updated counterpart back again. */
module MechanicalIdentity {
  import opened Outcomes
  import opened Text
  import opened LineEndings
  import opened TranslationBrief
  import opened MechanicalUpdate
  import opened MechanicalExactness

  // ---- Masks determine the prose ----

  /** The sentinels from number `j` to `n`, as one-line values. */
  function Sentinels(j: nat, n: nat): (values: seq<seq<string>>)
    requires j <= n
    ensures |values| == n - j
  {
    seq(n - j, k requires 0 <= k < n - j => [Sentinel(j + k)])
  }

  lemma {:induction false} SentinelsStep(j: nat, n: nat)
    requires j < n
    ensures Sentinels(j, n)[0] == [Sentinel(j)] && Sentinels(j, n)[1..] == Sentinels(j + 1, n)
  {
  }

  lemma {:induction false} SentinelIsPlain(i: nat)
    ensures '\n' !in Sentinel(i) && !EndsInReturn(Sentinel(i))
  {
    DecimalIsPlain(i);
    var s := Sentinel(i);
    assert forall k :: 0 <= k < |s| && k >= |SENTINEL_PREFIX| ==> s[k] in Decimal(i);
  }

  lemma {:induction false} SentinelIsOneLine(i: nat)
    ensures LinesOf(Sentinel(i) + "\n") == [Sentinel(i)]
  {
    SentinelIsPlain(i);
    var s := Sentinel(i);
    var lines := [s];
    assert Document(lines) == s + "\n";
    LinesOfPrinted(lines);
    StripChangesReturns(lines);
  }

  lemma {:induction false} MaskIsWoven(s: Source)
    requires ValidSource(s)
    ensures Mask(s) == Document(Woven(s, Sentinels(0, |s.fences|)))
  {
    hide LinesOf, Document, Replaced, Woven, Fence, Sentinel;
    var n := |s.fences|;
    forall k: nat | k < n
      ensures LinesOf(SentinelMap(n)[k]) == [Sentinel(k)]
    {
      SentinelIsOneLine(k);
    }
    ReplacedIsWoven(s, SentinelMap(n), Sentinels(0, n));
  }

  /** The lines from `from` to `to` are no sentinel numbered below `n`. */
  predicate Avoids(lines: seq<string>, from: nat, to: nat, n: nat)
    requires to <= |lines|
  {
    forall k, i: nat {:trigger lines[k], Sentinel(i)} :: from <= k < to && i < n ==> lines[k] != Sentinel(i)
  }

  /** No line outside the spans is a sentinel numbered below `n`. */
  predicate ProseAvoids(lines: seq<string>, spans: seq<Span>, at: nat, n: nat)
    requires InOrder(spans, at, |lines|)
  {
    if spans == [] then Avoids(lines, at, |lines|, n)
    else Avoids(lines, at, spans[0].startLine - 1, n) && ProseAvoids(lines, spans[1..], spans[0].endLine, n)
  }

  predicate NoSentinelInProse(s: Source)
    requires ValidSource(s)
  {
    ProseAvoids(LinesOf(s.markdown), s.fences, 0, |s.fences|)
  }

  lemma {:induction false} NoEarlierSentinel(lines: seq<string>, spans: seq<Span>, at: nat, i: nat, j: nat, n: nat)
    requires InOrder(spans, at, |lines|) && ProseAvoids(lines, spans, at, n) && i < j && j + |spans| == n
    ensures Sentinel(i) !in WovenLines(lines, spans, Sentinels(j, n), at)
  {
    hide Sentinel, Sentinels, WovenLines;
    WovenStep(lines, spans, Sentinels(j, n), at);
    if spans == [] {
      assert Avoids(lines, at, |lines|, n);
      AvoidsMeans(lines, at, |lines|, n, i);
    } else {
      SentinelsStep(j, n);
      AvoidsMeans(lines, at, spans[0].startLine - 1, n, i);
      NoEarlierSentinel(lines, spans[1..], spans[0].endLine, i, j + 1, n);
      if Sentinel(i) == Sentinel(j) {
        SentinelsDiffer(i, j);
      }
    }
  }

  lemma {:induction false} AvoidsMeans(lines: seq<string>, from: nat, to: nat, n: nat, i: nat)
    requires from <= to <= |lines| && Avoids(lines, from, to, n) && i < n
    ensures Sentinel(i) !in lines[from..to]
  {
    hide Sentinel;
  }

  lemma {:induction false} UniquePoint<T>(a: seq<T>, x: T, l: seq<T>, b: seq<T>, r: seq<T>)
    requires a + [x] + l == b + [x] + r && x !in a && x !in l
    ensures a == b && l == r
  {
    var s := a + [x] + l;
    assert s[|b|] == x;
    assert |b| == |a|;
    AppendCancels(a + [x], b + [x], l, r);
    AppendCancels(a, b, [x], [x]);
  }

  /** The stretches of prose before corresponding spans are equally long. */
  predicate GapsMatch(sa: seq<Span>, at: nat, sb: seq<Span>, bt: nat)
    requires |sa| == |sb|
  {
    sa == [] || (sa[0].startLine - at == sb[0].startLine - bt
                 && GapsMatch(sa[1..], sa[0].endLine, sb[1..], sb[0].endLine))
  }

  /** Two documents with the same mask have matching gaps, when one has no sentinel in its prose. */
  lemma {:induction false} UniqueSentinelsMatch(a: seq<string>, sa: seq<Span>, at: nat, b: seq<string>, sb: seq<Span>,
                                                bt: nat, j: nat, n: nat)
    requires InOrder(sa, at, |a|) && InOrder(sb, bt, |b|) && |sa| == |sb| && j + |sa| == n
    requires ProseAvoids(a, sa, at, n)
    requires WovenLines(a, sa, Sentinels(j, n), at) == WovenLines(b, sb, Sentinels(j, n), bt)
    ensures GapsMatch(sa, at, sb, bt)
  {
    hide Sentinel, Sentinels, WovenLines;
    WovenStep(a, sa, Sentinels(j, n), at);
    WovenStep(b, sb, Sentinels(j, n), bt);
    if sa != [] {
      SentinelsStep(j, n);
      var ga, gb := a[at..sa[0].startLine - 1], b[bt..sb[0].startLine - 1];
      var restA := WovenLines(a, sa[1..], Sentinels(j + 1, n), sa[0].endLine);
      var restB := WovenLines(b, sb[1..], Sentinels(j + 1, n), sb[0].endLine);
      AvoidsMeans(a, at, sa[0].startLine - 1, n, j);
      NoEarlierSentinel(a, sa[1..], sa[0].endLine, j, j + 1, n);
      UniquePoint(ga, Sentinel(j), restA, gb, restB);
      UniqueSentinelsMatch(a, sa[1..], sa[0].endLine, b, sb[1..], sb[0].endLine, j + 1, n);
    }
  }

  /** Two values of one length, neither of which starts with this line. */
  predicate Starts(v: seq<string>, f: seq<string>, line: string) {
    |v| == |f| > 0 && v[0] != line && f[0] != line
  }

  /** The values woven in are equally long, and none starts with its own sentinel. */
  predicate Distinct(v: seq<seq<string>>, f: seq<seq<string>>, j: nat)
    requires |v| == |f|
  {
    forall k :: 0 <= k < |v| ==> Starts(v[k], f[k], Sentinel(j + k))
  }

  lemma {:induction false} DistinctStep(v: seq<seq<string>>, f: seq<seq<string>>, j: nat)
    requires |v| == |f| > 0 && Distinct(v, f, j)
    ensures |v[0]| == |f[0]| > 0 && v[0][0] != Sentinel(j) && f[0][0] != Sentinel(j)
    ensures Distinct(v[1..], f[1..], j + 1)
  {
    hide Sentinel;
    assert Starts(v[0], f[0], Sentinel(j + 0));
    forall k | 0 <= k < |v| - 1
      ensures Starts(v[1..][k], f[1..][k], Sentinel(j + 1 + k))
    {
      assert Starts(v[k + 1], f[k + 1], Sentinel(j + (k + 1)));
    }
  }

  /** A sentinel in one gap that is the other's fence tells the two apart once the fences are in. */
  lemma {:induction false} ShorterGapDiffers(ga: seq<string>, gb: seq<string>, x: string, maskA: seq<string>,
                                             maskB: seq<string>,
                                             v: seq<string>, restA: seq<string>, f: seq<string>, restB: seq<string>)
    requires ga + [x] + maskA == gb + [x] + maskB && |ga| < |gb|
    requires v != [] && v[0] != x
    ensures ga + v + restA != gb + f + restB
  {
    var p := |ga|;
    assert (ga + [x] + maskA)[p] == x && (gb + [x] + maskB)[p] == gb[p];
    assert (ga + v + restA)[p] == v[0] && (gb + f + restB)[p] == gb[p];
  }

  lemma {:induction false} PrefixCancels(a: seq<string>, b: seq<string>, v: seq<string>, f: seq<string>, x: seq<string>,
                                         y: seq<string>)
    requires |a| == |b| && |v| == |f|
    ensures a + v + x == b + f + y <==> a == b && v == f && x == y
  {
    if a + v + x == b + f + y {
      AppendCancels(a + v, b + f, x, y);
      AppendCancels(a, b, v, f);
    }
  }

  /** One gap and one fence at a time. */
  lemma {:induction false} AlikeStep(ga: seq<string>, gb: seq<string>, x: string, maskA: seq<string>,
                                     maskB: seq<string>,
                                     v: seq<string>, restA: seq<string>, f: seq<string>, restB: seq<string>)
    requires ga + [x] + maskA == gb + [x] + maskB && |v| == |f| > 0 && v[0] != x && f[0] != x
    ensures ga + v + restA == gb + f + restB <==> |ga| == |gb| && v == f && restA == restB
    ensures |ga| == |gb| ==> ga == gb && maskA == maskB
  {
    if |ga| < |gb| {
      ShorterGapDiffers(ga, gb, x, maskA, maskB, v, restA, f, restB);
    } else if |gb| < |ga| {
      ShorterGapDiffers(gb, ga, x, maskB, maskA, f, restB, v, restA);
    } else {
      PrefixCancels(ga, gb, [x], [x], maskA, maskB);
      PrefixCancels(ga, gb, v, f, restA, restB);
    }
  }

  lemma {:induction false} SplitsAlike(v: seq<seq<string>>, f: seq<seq<string>>)
    requires |v| == |f| > 0
    ensures v == f <==> v[0] == f[0] && v[1..] == f[1..]
  {
    assert v == [v[0]] + v[1..] && f == [f[0]] + f[1..];
  }

  /** With equal masks, the same text comes out exactly when the gaps match and the same values went in. */
  lemma {:induction false} WovenAlike(a: seq<string>, sa: seq<Span>, at: nat, b: seq<string>, sb: seq<Span>, bt: nat,
                                      j: nat, n: nat, v: seq<seq<string>>, f: seq<seq<string>>)
    requires InOrder(sa, at, |a|) && InOrder(sb, bt, |b|) && |sa| == |sb| == |v| == |f| && j + |sa| == n
    requires WovenLines(a, sa, Sentinels(j, n), at) == WovenLines(b, sb, Sentinels(j, n), bt)
    requires Distinct(v, f, j)
    ensures WovenLines(a, sa, v, at) == WovenLines(b, sb, f, bt) <==> GapsMatch(sa, at, sb, bt) && v == f
  {
    hide Sentinel, Sentinels, WovenLines, Distinct;
    WovenStep(a, sa, Sentinels(j, n), at);
    WovenStep(b, sb, Sentinels(j, n), bt);
    WovenStep(a, sa, v, at);
    WovenStep(b, sb, f, bt);
    if sa != [] {
      SentinelsStep(j, n);
      DistinctStep(v, f, j);
      var ga, gb := a[at..sa[0].startLine - 1], b[bt..sb[0].startLine - 1];
      var endA, endB := sa[0].endLine, sb[0].endLine;
      var maskA, maskB := WovenLines(a, sa[1..], Sentinels(j + 1, n), endA),
                          WovenLines(b, sb[1..], Sentinels(j + 1, n), endB);
      var restA, restB := WovenLines(a, sa[1..], v[1..], endA), WovenLines(b, sb[1..], f[1..], endB);
      AlikeStep(ga, gb, Sentinel(j), maskA, maskB, v[0], restA, f[0], restB);
      SplitsAlike(v, f);
      if |ga| == |gb| {
        WovenAlike(a, sa[1..], endA, b, sb[1..], endB, j + 1, n, v[1..], f[1..]);
      }
    }
  }

  /** With equal masks and matching gaps the prose is the same around any values. */
  lemma {:induction false} MatchingGapsSameProse(a: seq<string>, sa: seq<Span>, at: nat, b: seq<string>, sb: seq<Span>,
                                                 bt: nat, j: nat, n: nat, values: seq<seq<string>>)
    requires InOrder(sa, at, |a|) && InOrder(sb, bt, |b|) && |sa| == |sb| == |values| && j + |sa| == n
    requires WovenLines(a, sa, Sentinels(j, n), at) == WovenLines(b, sb, Sentinels(j, n), bt)
    requires GapsMatch(sa, at, sb, bt)
    ensures WovenLines(a, sa, values, at) == WovenLines(b, sb, values, bt)
  {
    hide Sentinel, Sentinels, WovenLines;
    WovenStep(a, sa, Sentinels(j, n), at);
    WovenStep(b, sb, Sentinels(j, n), bt);
    WovenStep(a, sa, values, at);
    WovenStep(b, sb, values, bt);
    if sa != [] {
      SentinelsStep(j, n);
      var ga, gb := a[at..sa[0].startLine - 1], b[bt..sb[0].startLine - 1];
      var endA, endB := sa[0].endLine, sb[0].endLine;
      PrefixCancels(ga, gb, [Sentinel(j)], [Sentinel(j)],
                    WovenLines(a, sa[1..], Sentinels(j + 1, n), endA),
                    WovenLines(b, sb[1..], Sentinels(j + 1, n), endB));
      MatchingGapsSameProse(a, sa[1..], endA, b, sb[1..], endB, j + 1, n, values[1..]);
    }
  }

  lemma {:induction false} MasksAgree(confirmed: Source, current: Source)
    requires ValidSource(confirmed) && ValidSource(current) && |confirmed.fences| == |current.fences| > 0
    requires Mask(confirmed) == Mask(current)
    ensures var n := |confirmed.fences|; Woven(confirmed, Sentinels(0, n)) == Woven(current, Sentinels(0, n))
  {
    hide ValidSource, Mask, Woven, Sentinels, Document, NoNewlines;
    var n := |confirmed.fences|;
    MaskIsWoven(confirmed);
    MaskIsWoven(current);
    MaskHasLines(confirmed);
    MaskHasLines(current);
    var a, b := Woven(confirmed, Sentinels(0, n)), Woven(current, Sentinels(0, n));
    NoNewlinesMeans(a);
    NoNewlinesMeans(b);
    DocumentIsInjective(a, b);
  }

  lemma {:induction false} MaskHasLines(s: Source)
    requires ValidSource(s) && |s.fences| > 0
    ensures var masked := Woven(s, Sentinels(0, |s.fences|)); masked != [] && NoNewlines(masked)
  {
    hide LinesOf, InOrder, WovenLines, Sentinel;
    var lines, n := LinesOf(s.markdown), |s.fences|;
    LinesHaveNoNewlines(s.markdown);
    forall k | 0 <= k < n
      ensures NoNewlines(Sentinels(0, n)[k])
    {
      SentinelIsOneLine(k);
      LinesHaveNoNewlines(Sentinel(k) + "\n");
    }
    WovenHasNoNewlines(lines, s.fences, Sentinels(0, n), 0);
    WovenIsNotEmpty(lines, s.fences, Sentinels(0, n), 0);
  }

  lemma {:induction false} WovenWithOwnFences(s: Source)
    requires ValidSource(s)
    ensures Woven(s, Fences(s)) == LinesOf(s.markdown)
  {
    hide LinesOf;
    var lines := LinesOf(s.markdown);
    forall k | 0 <= k < |s.fences|
      ensures 0 < s.fences[k].startLine <= s.fences[k].endLine <= |lines|
    {
      InOrderAt(s.fences, 0, |lines|, k);
    }
    WovenWithOwn(lines, s.fences, Fences(s), 0);
  }

  /** The gaps of two sources match. */
  predicate SameGaps(a: Source, b: Source) {
    |a.fences| == |b.fences| && GapsMatch(a.fences, 0, b.fences, 0)
  }

  lemma {:induction false} GapsMatchSymmetric(sa: seq<Span>, at: nat, sb: seq<Span>, bt: nat)
    requires |sa| == |sb| && GapsMatch(sa, at, sb, bt)
    ensures GapsMatch(sb, bt, sa, at)
  {
    if sa != [] {
      GapsMatchSymmetric(sa[1..], sa[0].endLine, sb[1..], sb[0].endLine);
    }
  }

  /** Two sources with the same mask have matching gaps, provided one has no sentinel in its prose. */
  lemma {:induction false} NoSentinelSameGaps(a: Source, b: Source)
    requires ValidSource(a) && ValidSource(b) && |a.fences| == |b.fences| > 0
    requires Mask(a) == Mask(b) && (NoSentinelInProse(a) || NoSentinelInProse(b))
    ensures SameGaps(a, b)
  {
    hide LinesOf, Mask, InOrder, WovenLines, Sentinels, ProseAvoids, GapsMatch;
    var n := |a.fences|;
    MasksAgree(a, b);
    if NoSentinelInProse(a) {
      UniqueSentinelsMatch(LinesOf(a.markdown), a.fences, 0, LinesOf(b.markdown), b.fences, 0, 0, n);
    } else {
      UniqueSentinelsMatch(LinesOf(b.markdown), b.fences, 0, LinesOf(a.markdown), a.fences, 0, 0, n);
      GapsMatchSymmetric(b.fences, 0, a.fences, 0);
    }
  }

  /** Two sources with the same mask and matching gaps have the same prose around any fences. */
  lemma {:induction false} SameProse(a: Source, b: Source, values: seq<seq<string>>)
    requires ValidSource(a) && ValidSource(b) && |a.fences| == |b.fences| == |values| > 0
    requires Mask(a) == Mask(b) && SameGaps(a, b)
    ensures Woven(a, values) == Woven(b, values)
  {
    hide LinesOf, Mask, InOrder, WovenLines, Sentinels, GapsMatch;
    MasksAgree(a, b);
    MatchingGapsSameProse(LinesOf(a.markdown), a.fences, 0, LinesOf(b.markdown), b.fences, 0, 0, |a.fences|, values);
  }

  /** No fence starts with its own sentinel, as no code block the Markdown parser reports at top level does. */
  predicate FencesAreCode(s: Source)
    requires ValidSource(s)
  {
    forall i {:trigger Fence(s, i)} :: 0 <= i < |s.fences| ==> StripReturn(Fence(s, i)[0]) != Sentinel(i)
  }

  lemma {:induction false} UpdatedAreDistinct(confirmed: Source, current: Source)
    requires ValidSource(confirmed) && ValidSource(current) && FencesAreCode(current)
    requires Update(confirmed, current, confirmed).Some?
    ensures |confirmed.fences| == |current.fences|
    ensures Distinct(UpdatedFences(confirmed, current, confirmed), Fences(current), 0)
  {
    UpdatedFencesAre(confirmed, current, confirmed);
    hide ValidSource, Sentinel, Fence, CleanChanges, Update, FencesAreCode, UpdatedFences, FenceChanged, Fences;
    forall k | 0 <= k < |current.fences|
      ensures Starts(UpdatedFences(confirmed, current, confirmed)[k], Fences(current)[k], Sentinel(k))
    {
      UpdatedStart(confirmed, current, k);
    }
  }

  lemma {:induction false} UpdatedStart(confirmed: Source, current: Source, k: nat)
    requires ValidSource(confirmed) && ValidSource(current) && FencesAreCode(current)
    requires |confirmed.fences| == |current.fences| && k < |current.fences|
    requires |UpdatedFences(confirmed, current, confirmed)[k]| == |Fences(current)[k]|
    ensures Starts(UpdatedFences(confirmed, current, confirmed)[k], Fences(current)[k], Sentinel(k))
  {
    hide ValidSource, Sentinel, Fence, FenceText, FenceChanged;
    SameFence(confirmed, current, k);
    StripReturnsAt(Fence(current, k), 0);
    SentinelIsPlain(k);
    assert StripReturn(Fence(current, k)[0]) != Sentinel(k);
  }

  /**
   * Updating the confirmed source itself gives the current source exactly when the prose gaps before
   * corresponding fences are equally long and no changed fence has a line that still ends in a carriage
   * return.
   */
  lemma {:induction false} UpdatingConfirmedIsExact(confirmed: Source, current: Source)
    requires ValidSource(confirmed) && ValidSource(current) && FencesAreCode(current)
    requires Update(confirmed, current, confirmed).Some?
    ensures |confirmed.fences| == |current.fences|
    ensures Update(confirmed, current, confirmed).value == Document(LinesOf(current.markdown)) <==>
      SameGaps(confirmed, current) && CleanChanges(confirmed, current)
  {
    hide ValidSource, Mask, Woven, Fences, UpdatedFences, Document, LinesOf, CleanChanges, Update, FencesAreCode,
         Distinct, GapsMatch;
    UpdateIsWoven(confirmed, current, confirmed);
    UpdatedAreDistinct(confirmed, current);
    UpdatedFencesAre(confirmed, current, confirmed);
    WovenWithOwnFences(current);
    AcceptedMasks(confirmed, current, confirmed);
    var v, f := UpdatedFences(confirmed, current, confirmed), Fences(current);
    SourcesAlike(confirmed, current, v, f);
    PrintedAlike(confirmed, current);
  }

  lemma {:induction false} AcceptedMasks(confirmed: Source, current: Source, counterpart: Source)
    requires ValidSource(confirmed) && ValidSource(current) && ValidSource(counterpart)
    requires Update(confirmed, current, counterpart).Some?
    ensures |confirmed.fences| > 0 && Mask(confirmed) == Mask(current)
  {
    hide ValidSource, Mask, FenceChanged;
  }

  lemma {:induction false} SourcesAlike(a: Source, b: Source, v: seq<seq<string>>, f: seq<seq<string>>)
    requires ValidSource(a) && ValidSource(b) && |a.fences| == |b.fences| == |v| == |f| > 0
    requires Mask(a) == Mask(b) && Distinct(v, f, 0)
    ensures Woven(a, v) == Woven(b, f) <==> SameGaps(a, b) && v == f
  {
    hide LinesOf, Mask, InOrder, WovenLines, Sentinels, GapsMatch, Distinct;
    MasksAgree(a, b);
    WovenAlike(LinesOf(a.markdown), a.fences, 0, LinesOf(b.markdown), b.fences, 0, 0, |a.fences|, v, f);
  }

  /** Printing tells the update apart from the current source. */
  lemma {:induction false} PrintedAlike(confirmed: Source, current: Source)
    requires ValidSource(confirmed) && ValidSource(current)
    requires |confirmed.fences| == |current.fences| > 0
    ensures var woven := Woven(confirmed, UpdatedFences(confirmed, current, confirmed));
            Document(woven) == Document(LinesOf(current.markdown)) <==> woven == LinesOf(current.markdown)
  {
    hide LinesOf, InOrder, WovenLines, Document, Fence, FenceChanged, NoNewlines, UpdatedFences;
    var lines, v := LinesOf(confirmed.markdown), UpdatedFences(confirmed, current, confirmed);
    forall k | 0 <= k < |v|
      ensures NoNewlines(v[k])
    {
      UpdatedHaveNoNewlines(confirmed, current, confirmed, k);
    }
    UpdatedAreFilled(confirmed, current, confirmed);
    LinesHaveNoNewlines(confirmed.markdown);
    LinesHaveNoNewlines(current.markdown);
    WovenHasNoNewlines(lines, confirmed.fences, v, 0);
    WovenIsNotEmpty(lines, confirmed.fences, v, 0);
    NoNewlinesMeans(Woven(confirmed, v));
    NoNewlinesMeans(LinesOf(current.markdown));
    FenceIs(current, 0);
    if Document(Woven(confirmed, v)) == Document(LinesOf(current.markdown)) {
      DocumentIsInjective(Woven(confirmed, v), LinesOf(current.markdown));
    }
  }

  lemma {:induction false} UpdatedAreFilled(confirmed: Source, current: Source, counterpart: Source)
    requires ValidSource(confirmed) && ValidSource(current) && ValidSource(counterpart)
    requires |confirmed.fences| == |current.fences| == |counterpart.fences|
    ensures forall k :: 0 <= k < |counterpart.fences| ==> UpdatedFences(confirmed, current, counterpart)[k] != []
  {
    hide ValidSource, Fence, FenceChanged;
  }

  lemma {:induction false} FenceIs(s: Source, k: nat)
    requires ValidSource(s) && k < |s.fences|
    ensures 0 < s.fences[k].startLine <= s.fences[k].endLine <= |LinesOf(s.markdown)|
    ensures Fence(s, k) == LinesOf(s.markdown)[s.fences[k].startLine - 1..s.fences[k].endLine]
  {
    InOrderAt(s.fences, 0, |LinesOf(s.markdown)|, k);
  }

  /** In particular, it does whenever one of the two has no sentinel line in its prose. */
  lemma {:induction false} UpdatingConfirmedGivesCurrent(confirmed: Source, current: Source)
    requires ValidSource(confirmed) && ValidSource(current)
    requires Update(confirmed, current, confirmed).Some?
    requires NoSentinelInProse(confirmed) || NoSentinelInProse(current)
    ensures |confirmed.fences| == |current.fences|
    ensures CleanChanges(confirmed, current) ==>
      Update(confirmed, current, confirmed).value == Document(LinesOf(current.markdown))
  {
    hide ValidSource, Mask, Woven, Fences, Document, LinesOf, NoSentinelInProse, CleanChanges, SameGaps, Update;
    UpdateIsExact(confirmed, current, confirmed);
    AcceptedMasks(confirmed, current, confirmed);
    NoSentinelSameGaps(confirmed, current);
    SameProse(confirmed, current, Fences(current));
    WovenWithOwnFences(current);
  }

  // A document whose first line is a sentinel and whose last is indented code, and one the other way round.
  const BEFORE_LINES := [Sentinel(0), "", "    x"]
  const AFTER_LINES := ["    y", "", Sentinel(0)]

  lemma {:induction false} PlainLinesReadBack(lines: seq<string>)
    requires lines != [] && NoNewlines(lines) && !SomeReturn(lines)
    ensures LinesOf(Document(lines)) == lines
  {
    LinesOfPrinted(lines);
    StripChangesReturns(lines);
  }

  lemma {:induction false} ExampleLines()
    ensures LinesOf(Document(BEFORE_LINES)) == BEFORE_LINES && LinesOf(Document(AFTER_LINES)) == AFTER_LINES
  {
    SentinelIsPlain(0);
    hide Sentinel, Document, LinesOf;
    PlainLinesReadBack(BEFORE_LINES);
    PlainLinesReadBack(AFTER_LINES);
  }

  lemma {:induction false} WovenOne(s: Source, value: seq<string>)
    requires ValidSource(s) && |s.fences| == 1
    ensures ValidSource(s) && InOrder(s.fences, 0, |LinesOf(s.markdown)|)
    ensures Woven(s, [value]) ==
            LinesOf(s.markdown)[..s.fences[0].startLine - 1] + value + LinesOf(s.markdown)[s.fences[0].endLine..]
  {
    hide LinesOf, WovenLines;
    var lines := LinesOf(s.markdown);
    WovenStep(lines, s.fences, [value], 0);
    WovenStep(lines, s.fences[1..], [value][1..], s.fences[0].endLine);
  }

  /** The proviso matters: with a sentinel line in the prose of both, the update can misplace the fence. */
  lemma {:induction false} SentinelInProseMisplacesTheFence()
    ensures var before := Source(Document(BEFORE_LINES), [Span(3, 3)]);
            var after := Source(Document(AFTER_LINES), [Span(1, 1)]);
            && ValidSource(before) && ValidSource(after) && Update(before, after, before).Some?
            && Update(before, after, before).value != Document(LinesOf(after.markdown))
  {
    hide Document, LinesOf, Sentinel, Mask, WovenLines, Woven, Update;
    var before := Source(Document(BEFORE_LINES), [Span(3, 3)]);
    var after := Source(Document(AFTER_LINES), [Span(1, 1)]);
    ExampleLines();
    assert InOrder(before.fences[1..], 3, 3) && InOrder(after.fences[1..], 1, 3);
    MaskIsWoven(before);
    MaskIsWoven(after);
    assert Sentinels(0, 1) == [[Sentinel(0)]];
    WovenOne(before, [Sentinel(0)]);
    WovenOne(after, [Sentinel(0)]);
    assert Woven(before, Sentinels(0, 1)) == [Sentinel(0), "", Sentinel(0)] == Woven(after, Sentinels(0, 1));
    FenceIs(before, 0);
    FenceIs(after, 0);
    var x, y := ["    x"], ["    y"];
    assert Fence(before, 0) == x && Fence(after, 0) == y;
    ExampleAccepted(before, after);
    ExampleIsCode(after);
    UpdatingConfirmedIsExact(before, after);
  }

  lemma {:induction false} ExampleIsCode(after: Source)
    requires ValidSource(after) && |after.fences| == 1 && Fence(after, 0) == ["    y"]
    ensures FencesAreCode(after)
  {
    hide ValidSource, Fence;
    assert Sentinel(0)[0] == 'D';
  }

  lemma {:induction false} ExampleAccepted(before: Source, after: Source)
    requires ValidSource(before) && ValidSource(after) && |before.fences| == |after.fences| == 1
    requires Mask(before) == Mask(after) && Fence(before, 0) != Fence(after, 0)
    ensures Update(before, after, before).Some?
  {
    hide ValidSource, Mask, Fence, FenceText, Replaced;
    SameFence(before, after, 0);
    SameFence(before, before, 0);
    assert 0 in ChangedFences(before, after);
  }

  /** Printing the lines of a document that ends in a newline only normalises its line endings. */
  lemma {:induction false} PrintedLines(markdown: string)
    requires markdown != "" && markdown[|markdown| - 1] == '\n'
    ensures Document(LinesOf(markdown)) == Normalise(markdown)
  {
    NormaliseEnds(markdown);
    hide Normalise;
    var text := Normalise(markdown);
    var cut := text[..|text| - 1];
    assert text == cut + "\n" + "";
    SplitConcat(cut, '\n', "");
    SplitFirst("", '\n', "");
    hide Split, Join;
    assert Split(text, '\n') == Split(cut, '\n') + [""];
    JoinSplit(cut, '\n');
  }

  lemma {:induction false} NormaliseEnds(s: string)
    requires s != "" && s[|s| - 1] == '\n'
    ensures Normalise(s) != "" && Normalise(s)[|Normalise(s)| - 1] == '\n'
  {
    if |s| > 2 && s[0] == '\r' && s[1] == '\n' {
      NormaliseEnds(s[2..]);
    } else if |s| > 1 && !(s[0] == '\r' && s[1] == '\n') {
      NormaliseEnds(s[1..]);
    }
  }
}
