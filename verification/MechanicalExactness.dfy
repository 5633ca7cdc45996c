/** What the mechanical update produces, for every source and counterpart. */
module MechanicalExactness {
  import opened Text
  import opened LineEndings
  import opened TranslationBrief
  import opened MechanicalUpdate

  // ---- Lines and fence texts ----

  predicate NoNewlines(lines: seq<string>) {
    forall k :: 0 <= k < |lines| ==> '\n' !in lines[k]
  }

  lemma {:induction false} LinesHaveNoNewlines(markdown: string)
    ensures NoNewlines(LinesOf(markdown))
  {
    forall k | 0 <= k < |LinesOf(markdown)|
      ensures '\n' !in LinesOf(markdown)[k]
    {
      SplitPieces(Normalise(markdown), '\n', k);
    }
  }

  lemma {:induction false} LinesOfPrinted(lines: seq<string>)
    requires lines != [] && NoNewlines(lines)
    ensures LinesOf(Document(lines)) == StripReturns(lines)
  {
    LinesOfDocument(lines);
  }

  lemma {:induction false} FenceHasNoNewlines(s: Source, i: nat)
    requires ValidSource(s) && i < |s.fences|
    ensures NoNewlines(Fence(s, i))
  {
    LinesHaveNoNewlines(s.markdown);
    hide LinesOf;
    InOrderAt(s.fences, 0, |LinesOf(s.markdown)|, i);
  }

  /** Equal fence texts are equal lines. */
  lemma {:induction false} SameFence(s: Source, t: Source, i: nat)
    requires ValidSource(s) && ValidSource(t) && i < |s.fences| && i < |t.fences|
    ensures FenceChanged(s, t, i) <==> Fence(s, i) != Fence(t, i)
  {
    FenceHasNoNewlines(s, i);
    FenceHasNoNewlines(t, i);
    hide Fence, Document;
    if FenceText(s, i) == FenceText(t, i) {
      DocumentIsInjective(Fence(s, i), Fence(t, i));
    }
  }

  lemma {:induction false} StripChangesReturns(lines: seq<string>)
    ensures StripReturns(lines) == lines <==> !SomeReturn(lines)
  {
    if StripReturns(lines) == lines {
      forall k | 0 <= k < |lines|
        ensures !EndsInReturn(lines[k])
      {
        StripReturnsAt(lines, k);
      }
    } else {
      var k :| 0 <= k < |lines| && StripReturns(lines)[k] != lines[k];
      StripReturnsAt(lines, k);
      assert EndsInReturn(lines[k]);
    }
  }

  // ---- Weaving distinguishes values ----

  lemma {:induction false} AppendCancels<T>(a: seq<T>, b: seq<T>, x: seq<T>, y: seq<T>)
    requires |a| == |b| && a + x == b + y
    ensures a == b && x == y
  {
    assert (a + x)[..|a|] == a && (b + y)[..|b|] == b;
    assert (a + x)[|a|..] == x && (b + y)[|b|..] == y;
  }

  lemma {:induction false} WovenDistinguishes(lines: seq<string>, spans: seq<Span>, v: seq<seq<string>>,
                                              w: seq<seq<string>>, at: nat)
    requires |v| == |w| == |spans| && InOrder(spans, at, |lines|)
    requires forall k :: 0 <= k < |v| ==> |v[k]| == |w[k]|
    requires WovenLines(lines, spans, v, at) == WovenLines(lines, spans, w, at)
    ensures v == w
  {
    WovenStep(lines, spans, v, at);
    WovenStep(lines, spans, w, at);
    if spans != [] {
      var end := spans[0].endLine;
      var gap := lines[at..spans[0].startLine - 1];
      AppendCancels(gap + v[0], gap + w[0], WovenLines(lines, spans[1..], v[1..], end),
                    WovenLines(lines, spans[1..], w[1..], end));
      AppendCancels(gap, gap, v[0], w[0]);
      WovenDistinguishes(lines, spans[1..], v[1..], w[1..], end);
      assert v == [v[0]] + v[1..] && w == [w[0]] + w[1..];
    }
  }

  /** Every woven line comes from the lines or from a value. */
  lemma {:induction false} WovenHasNoNewlines(lines: seq<string>, spans: seq<Span>, v: seq<seq<string>>, at: nat)
    requires |v| == |spans| && InOrder(spans, at, |lines|) && NoNewlines(lines)
    requires forall k :: 0 <= k < |v| ==> NoNewlines(v[k])
    ensures NoNewlines(WovenLines(lines, spans, v, at))
  {
    WovenStep(lines, spans, v, at);
    if spans != [] {
      WovenHasNoNewlines(lines, spans[1..], v[1..], spans[0].endLine);
      assert NoNewlines(v[0]);
    }
  }

  /** Weaving a document's own fences gives its lines. */
  lemma {:induction false} WovenWithOwn(lines: seq<string>, spans: seq<Span>, v: seq<seq<string>>, at: nat)
    requires |v| == |spans| && InOrder(spans, at, |lines|)
    requires forall k :: 0 <= k < |v| ==> 0 < spans[k].startLine <= spans[k].endLine <= |lines|
    requires forall k :: 0 <= k < |v| ==> v[k] == lines[spans[k].startLine - 1..spans[k].endLine]
    ensures WovenLines(lines, spans, v, at) == lines[at..]
  {
    WovenStep(lines, spans, v, at);
    if spans != [] {
      WovenWithOwn(lines, spans[1..], v[1..], spans[0].endLine);
    }
  }

  // ---- What the update produces ----

  /** What the update puts in place of the counterpart's fences. */
  function UpdatedFences(confirmed: Source, current: Source, counterpart: Source): (values: seq<seq<string>>)
    requires ValidSource(confirmed) && ValidSource(current) && ValidSource(counterpart)
    requires |confirmed.fences| == |current.fences| == |counterpart.fences|
    ensures |values| == |counterpart.fences|
  {
    seq(|counterpart.fences|, i requires 0 <= i < |counterpart.fences| =>
      if FenceChanged(confirmed, current, i) then StripReturns(Fence(current, i)) else Fence(counterpart, i))
  }

  lemma {:induction false} UpdateIsWoven(confirmed: Source, current: Source, counterpart: Source)
    requires ValidSource(confirmed) && ValidSource(current) && ValidSource(counterpart)
    requires Update(confirmed, current, counterpart).Some?
    ensures Update(confirmed, current, counterpart).value ==
            Document(Woven(counterpart, UpdatedFences(confirmed, current, counterpart)))
  {
    hide ValidSource, Fence, FenceChanged, Document, Replaced, Woven, LinesOf;
    var changed := ChangedFences(confirmed, current);
    var values := UpdatedFences(confirmed, current, counterpart);
    forall k | 0 <= k < |counterpart.fences|
      ensures values[k] == if k in changed then LinesOf(changed[k]) else Fence(counterpart, k)
    {
      if k in changed {
        FenceHasNoNewlines(current, k);
        LinesOfPrinted(Fence(current, k));
      }
    }
    ReplacedIsWoven(counterpart, changed, values);
  }

  /** No fence the update copies has a line that still ends in a carriage return. */
  predicate CleanChanges(confirmed: Source, current: Source)
    requires ValidSource(confirmed) && ValidSource(current) && |confirmed.fences| == |current.fences|
  {
    forall i :: 0 <= i < |current.fences| && FenceChanged(confirmed, current, i) ==> !SomeReturn(Fence(current, i))
  }

  lemma {:induction false} UpdatedFencesAre(confirmed: Source, current: Source, counterpart: Source)
    requires ValidSource(confirmed) && ValidSource(current) && ValidSource(counterpart)
    requires Update(confirmed, current, counterpart).Some?
    ensures UpdatedFences(confirmed, current, counterpart) == Fences(current) <==> CleanChanges(confirmed, current)
    ensures forall k :: 0 <= k < |current.fences| ==>
              |UpdatedFences(confirmed, current, counterpart)[k]| == |Fences(current)[k]|
  {
    hide ValidSource, Fence, FenceChanged, LinesOf, Mask;
    var values := UpdatedFences(confirmed, current, counterpart);
    assert forall i :: 0 <= i < |confirmed.fences| ==> !FenceChanged(confirmed, counterpart, i);
    forall k | 0 <= k < |current.fences|
      ensures |values[k]| == |Fence(current, k)|
      ensures values[k] == Fence(current, k) <==>
                (FenceChanged(confirmed, current, k) ==> !SomeReturn(Fence(current, k)))
    {
      SameFence(confirmed, counterpart, k);
      SameFence(confirmed, current, k);
      StripChangesReturns(Fence(current, k));
    }
  }

  /**
   * The update is exact: the counterpart's prose in order, with all the current source's fences in
   * place of its own; precisely when no changed fence has a line that still ends in a carriage return.
   */
  lemma {:induction false} UpdateIsExact(confirmed: Source, current: Source, counterpart: Source)
    requires ValidSource(confirmed) && ValidSource(current) && ValidSource(counterpart)
    requires Update(confirmed, current, counterpart).Some?
    ensures |current.fences| == |counterpart.fences| == |confirmed.fences| > 0
    ensures Update(confirmed, current, counterpart).value == Document(Woven(counterpart, Fences(current)))
      <==> CleanChanges(confirmed, current)
  {
    UpdateIsWoven(confirmed, current, counterpart);
    UpdatedFencesAre(confirmed, current, counterpart);
    var v, w := UpdatedFences(confirmed, current, counterpart), Fences(current);
    if Document(Woven(counterpart, v)) == Document(Woven(counterpart, w)) {
      PrintedWovenDistinguishes(confirmed, current, counterpart, v, w);
    }
  }

  lemma {:induction false} UpdatedHaveNoNewlines(confirmed: Source, current: Source, counterpart: Source, k: nat)
    requires ValidSource(confirmed) && ValidSource(current) && ValidSource(counterpart)
    requires |confirmed.fences| == |current.fences| == |counterpart.fences| && k < |current.fences|
    ensures NoNewlines(UpdatedFences(confirmed, current, counterpart)[k]) && NoNewlines(Fences(current)[k])
  {
    hide ValidSource, Fence, FenceChanged, LinesOf;
    FenceHasNoNewlines(current, k);
    FenceHasNoNewlines(counterpart, k);
    var lines := Fence(current, k);
    forall j | 0 <= j < |lines|
      ensures '\n' !in StripReturns(lines)[j]
    {
      StripReturnsAt(lines, j);
    }
  }

  lemma {:induction false} WovenIsNotEmpty(lines: seq<string>, spans: seq<Span>, v: seq<seq<string>>, at: nat)
    requires |v| == |spans| && InOrder(spans, at, |lines|) && spans != [] && v[0] != []
    ensures WovenLines(lines, spans, v, at) != []
  {
    WovenStep(lines, spans, v, at);
  }

  lemma {:induction false} PrintedWovenDistinguishes(confirmed: Source, current: Source, counterpart: Source,
                                                     v: seq<seq<string>>, w: seq<seq<string>>)
    requires ValidSource(confirmed) && ValidSource(current) && ValidSource(counterpart)
    requires |confirmed.fences| == |current.fences| == |counterpart.fences| > 0
    requires v == UpdatedFences(confirmed, current, counterpart) && w == Fences(current)
    requires forall k :: 0 <= k < |v| ==> |v[k]| == |w[k]|
    requires Document(Woven(counterpart, v)) == Document(Woven(counterpart, w))
    ensures v == w
  {
    hide Fence, FenceChanged, LinesOf, Document, UpdatedFences, InOrder, WovenLines, NoNewlines;
    var lines := LinesOf(counterpart.markdown);
    LinesHaveNoNewlines(counterpart.markdown);
    forall k | 0 <= k < |v|
      ensures NoNewlines(v[k]) && NoNewlines(w[k])
    {
      UpdatedHaveNoNewlines(confirmed, current, counterpart, k);
    }
    WovenHasNoNewlines(lines, counterpart.fences, v, 0);
    WovenHasNoNewlines(lines, counterpart.fences, w, 0);
    assert w[0] != [];
    WovenIsNotEmpty(lines, counterpart.fences, v, 0);
    WovenIsNotEmpty(lines, counterpart.fences, w, 0);
    NoNewlinesMeans(Woven(counterpart, v));
    NoNewlinesMeans(Woven(counterpart, w));
    DocumentIsInjective(Woven(counterpart, v), Woven(counterpart, w));
    WovenDistinguishes(lines, counterpart.fences, v, w, 0);
  }

  lemma {:induction false} NoNewlinesMeans(lines: seq<string>)
    ensures NoNewlines(lines) <==> forall k :: 0 <= k < |lines| ==> '\n' !in lines[k]
  {
  }
}
