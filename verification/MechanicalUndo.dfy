/** The mechanical update of a counterpart taken back along the reverse change. */
module MechanicalUndo {
  import opened Outcomes
  import opened LineEndings
  import opened Splices
  import opened TranslationBrief
  import opened MechanicalUpdate
  import opened MechanicalExactness
  import opened MechanicalIdentity

  /** Where the counterpart's fences are after the values have been substituted. */
  function Moved(edits: seq<Edit<string>>): (spans: seq<Span>)
    ensures |spans| == |edits|
  {
    if edits == [] then [] else [Span(edits[0].start + 1, edits[0].end)] + Moved(edits[1..])
  }

  function UndoEdits(s: Source, values: seq<seq<string>>): seq<Edit<string>>
    requires ValidSource(s) && |values| == |s.fences|
  {
    InOrderIsPositive(s.fences, 0, |LinesOf(s.markdown)|);
    AllEditsFit(s.fences, values, 0, |LinesOf(s.markdown)|);
    Undo(LinesOf(s.markdown), AllEdits(s.fences, values), 0, 0)
  }

  predicate Filled(edits: seq<Edit<string>>) {
    forall k :: 0 <= k < |edits| ==> edits[k].start < edits[k].end
  }

  lemma {:induction false} MovedInOrder(edits: seq<Edit<string>>, at: nat, length: nat)
    requires Fits(edits, at, length) && Filled(edits)
    ensures InOrder(Moved(edits), at, length)
  {
    if edits != [] {
      MovedInOrder(edits[1..], edits[0].end, length);
      FitsEnd(edits[1..], edits[0].end, length);
      assert Moved(edits)[1..] == Moved(edits[1..]);
    }
  }

  lemma {:induction false} FitsEnd<T>(edits: seq<Edit<T>>, at: nat, length: nat)
    requires Fits(edits, at, length)
    ensures at <= length
  {
  }

  lemma {:induction false} MovedAt(edits: seq<Edit<string>>, k: nat)
    requires k < |edits|
    ensures Moved(edits)[k] == Span(edits[k].start + 1, edits[k].end)
  {
    if k > 0 {
      MovedAt(edits[1..], k - 1);
    }
  }

  /** Replacing moved spans by what stood there is undoing the edits. */
  lemma {:induction false} MovedEdits(edits: seq<Edit<string>>, values: seq<seq<string>>)
    requires |values| == |edits| && forall k :: 0 <= k < |edits| ==> edits[k].value == values[k]
    ensures Positive(Moved(edits)) && AllEdits(Moved(edits), values) == edits
  {
    forall k | 0 <= k < |edits|
      ensures Moved(edits)[k].startLine > 0
    {
      MovedAt(edits, k);
    }
    if edits != [] {
      MovedEdits(edits[1..], values[1..]);
      assert Moved(edits)[1..] == Moved(edits[1..]);
      assert edits == [edits[0]] + edits[1..];
    }
  }

  lemma {:induction false} AllEditsAt(spans: seq<Span>, values: seq<seq<string>>, k: nat)
    requires |values| == |spans| && Positive(spans) && k < |spans|
    ensures AllEdits(spans, values)[k] == Edit(spans[k].startLine - 1, spans[k].endLine, values[k])
  {
    if k > 0 {
      AllEditsAt(spans[1..], values[1..], k - 1);
    }
  }

  /** The woven document, with its fences where the weaving put them. */
  predicate WovenSource(s: Source, values: seq<seq<string>>, woven: Source)
    requires ValidSource(s) && |values| == |s.fences|
  {
    LinesOf(woven.markdown) == Woven(s, values) && woven.fences == Moved(UndoEdits(s, values))
  }

  lemma {:induction false} WovenFence(s: Source, values: seq<seq<string>>, k: nat)
    requires ValidSource(s) && |values| == |s.fences| && k < |s.fences|
    ensures |UndoEdits(s, values)| == |s.fences|
    ensures var u, w := UndoEdits(s, values)[k], Woven(s, values);
            u.start <= u.end <= |w| && w[u.start..u.end] == values[k] && u.value == Fence(s, k)
  {
    hide LinesOf, Undo, Weave, AllEdits, Fits;
    var lines := LinesOf(s.markdown);
    InOrderIsPositive(s.fences, 0, |lines|);
    AllEditsFit(s.fences, values, 0, |lines|);
    AllEditsAt(s.fences, values, k);
    InOrderAt(s.fences, 0, |lines|, k);
    UndoRange(lines, AllEdits(s.fences, values), 0, Woven(s, values), 0, k);
  }

  lemma {:induction false} WovenSourceIsValid(s: Source, values: seq<seq<string>>, woven: Source)
    requires ValidSource(s) && |values| == |s.fences| && WovenSource(s, values, woven)
    requires forall k :: 0 <= k < |values| ==> values[k] != []
    ensures ValidSource(woven) && |woven.fences| == |s.fences|
    ensures forall k :: 0 <= k < |s.fences| ==> Fence(woven, k) == values[k]
    ensures Woven(woven, Fences(s)) == LinesOf(s.markdown)
  {
    hide LinesOf, Undo, Weave, AllEdits, Fits, Fence;
    var lines, w, undo := LinesOf(s.markdown), Woven(s, values), UndoEdits(s, values);
    InOrderIsPositive(s.fences, 0, |lines|);
    AllEditsFit(s.fences, values, 0, |lines|);
    assert w[0..] == w && lines[0..] == lines;
    UndoRestores(lines, AllEdits(s.fences, values), 0, w, 0);
    UndoLength(lines, AllEdits(s.fences, values), 0, 0);
    forall k | 0 <= k < |undo|
      ensures undo[k].start < undo[k].end && undo[k].value == Fences(s)[k]
    {
      WovenFence(s, values, k);
    }
    MovedInOrder(undo, 0, |w|);
    MovedEdits(undo, Fences(s));
    forall k | 0 <= k < |s.fences|
      ensures Fence(woven, k) == values[k]
    {
      WovenFence(s, values, k);
      MovedAt(undo, k);
      FenceIs(woven, k);
    }
  }

  /** What an accepted update says about the fences. */
  lemma {:induction false} AcceptedFences(confirmed: Source, current: Source, counterpart: Source, k: nat)
    requires ValidSource(confirmed) && ValidSource(current) && ValidSource(counterpart)
    requires Update(confirmed, current, counterpart).Some? && k < |confirmed.fences|
    ensures |current.fences| == |counterpart.fences| == |confirmed.fences|
    ensures Fence(confirmed, k) == Fence(counterpart, k)
    ensures ChangedFences(confirmed, current) != map[]
  {
    hide ValidSource, Fence, FenceChanged, Mask;
    SameFence(confirmed, counterpart, k);
  }

  lemma {:induction false} ChangedBothWays(confirmed: Source, current: Source)
    requires ValidSource(confirmed) && ValidSource(current) && |confirmed.fences| == |current.fences|
    requires ChangedFences(confirmed, current) != map[]
    ensures ChangedFences(current, confirmed) != map[]
  {
    hide ValidSource, FenceText;
    var k :| k in ChangedFences(confirmed, current);
    assert k in ChangedFences(current, confirmed);
  }

  // ---- Carriage returns ----

  function StripAll(values: seq<seq<string>>): (stripped: seq<seq<string>>)
    ensures |stripped| == |values|
  {
    if values == [] then [] else [StripReturns(values[0])] + StripAll(values[1..])
  }

  lemma {:induction false} StripAllAt(values: seq<seq<string>>, k: nat)
    requires k < |values|
    ensures StripAll(values)[k] == StripReturns(values[k])
  {
    if k > 0 {
      StripAllAt(values[1..], k - 1);
    }
  }

  lemma {:induction false} StripConcat(a: seq<string>, b: seq<string>)
    ensures StripReturns(a + b) == StripReturns(a) + StripReturns(b)
  {
    if a == [] {
      assert a + b == b;
    } else {
      assert (a + b)[1..] == a[1..] + b;
      StripConcat(a[1..], b);
    }
  }

  lemma {:induction false} StripSlice(lines: seq<string>, a: nat, b: nat)
    requires a <= b <= |lines|
    ensures StripReturns(lines[a..b]) == StripReturns(lines)[a..b]
  {
    forall k | 0 <= k < b - a
      ensures StripReturns(lines[a..b])[k] == StripReturns(lines)[a..b][k]
    {
      StripReturnsAt(lines[a..b], k);
      StripReturnsAt(lines, a + k);
    }
  }

  /** Stripping each line commutes with weaving. */
  lemma {:induction false} StripWoven(lines: seq<string>, spans: seq<Span>, v: seq<seq<string>>, at: nat)
    requires |v| == |spans| && InOrder(spans, at, |lines|)
    ensures StripReturns(WovenLines(lines, spans, v, at)) == WovenLines(StripReturns(lines), spans, StripAll(v), at)
  {
    hide WovenLines, StripReturns;
    WovenStep(lines, spans, v, at);
    WovenStep(StripReturns(lines), spans, StripAll(v), at);
    if spans == [] {
      StripSlice(lines, at, |lines|);
      assert lines[at..|lines|] == lines[at..] && StripReturns(lines)[at..|lines|] == StripReturns(lines)[at..];
    } else {
      var gap, rest := lines[at..spans[0].startLine - 1], WovenLines(lines, spans[1..], v[1..], spans[0].endLine);
      StripSlice(lines, at, spans[0].startLine - 1);
      StripConcat(gap + v[0], rest);
      StripConcat(gap, v[0]);
      StripWoven(lines, spans[1..], v[1..], spans[0].endLine);
    }
  }

  lemma {:induction false} StripShortens(lines: seq<string>)
    ensures StripReturns(StripReturns(lines)) == lines <==> !SomeReturn(lines)
  {
    StripChangesReturns(lines);
    if k :| 0 <= k < |lines| && EndsInReturn(lines[k]) {
      StripReturnsAt(lines, k);
      StripReturnsAt(StripReturns(lines), k);
    }
  }

  /** Where edits move to depends on how long their values are, not on what they are. */
  lemma {:induction false} UndoByLength(s: seq<string>, a: seq<Edit<string>>, t: seq<string>, b: seq<Edit<string>>,
                                        at: nat, base: nat)
    requires Fits(a, at, |s|) && Fits(b, at, |t|) && |a| == |b|
    requires forall k :: 0 <= k < |a| ==>
               a[k].start == b[k].start && a[k].end == b[k].end && |a[k].value| == |b[k].value|
    ensures Moved(Undo(s, a, at, base)) == Moved(Undo(t, b, at, base))
  {
    if a != [] {
      var next := base + (a[0].start - at) + |a[0].value|;
      UndoByLength(s, a[1..], t, b[1..], a[0].end, next);
      assert Undo(s, a, at, base)[1..] == Undo(s, a[1..], a[0].end, next);
      assert Undo(t, b, at, base)[1..] == Undo(t, b[1..], b[0].end, next);
    }
  }

  /** The document as its lines are read back once they have been printed. */
  function Reread(s: Source): Source {
    Source(Document(LinesOf(s.markdown)), s.fences)
  }

  lemma {:induction false} RereadLines(s: Source)
    requires ValidSource(s) && s.fences != []
    ensures LinesOf(Reread(s).markdown) == StripReturns(LinesOf(s.markdown)) && ValidSource(Reread(s))
    ensures Fences(Reread(s)) == StripAll(Fences(s))
  {
    hide LinesOf, Fence, InOrder, NoNewlines, Document;
    var lines := LinesOf(s.markdown);
    LinesHaveNoNewlines(s.markdown);
    FenceIs(s, 0);
    LinesOfPrinted(lines);
    forall k | 0 <= k < |s.fences|
      ensures Fence(Reread(s), k) == StripAll(Fences(s))[k]
    {
      FenceIs(s, k);
      FenceIs(Reread(s), k);
      StripSlice(lines, s.fences[k].startLine - 1, s.fences[k].endLine);
      StripAllAt(Fences(s), k);
    }
  }

  /** A printed weaving, read back, is a weaving into the document read back. */
  lemma {:induction false} PrintedIsWoven(s: Source, values: seq<seq<string>>, woven: Source)
    requires ValidSource(s) && s.fences != [] && |values| == |s.fences|
    requires forall k :: 0 <= k < |values| ==> values[k] != [] && NoNewlines(values[k])
    requires woven.markdown == Document(Woven(s, values)) && woven.fences == Moved(UndoEdits(s, values))
    ensures ValidSource(Reread(s)) && WovenSource(Reread(s), StripAll(values), woven)
  {
    hide LinesOf, InOrder, WovenLines, Document, NoNewlines, Moved, StripReturns, Undo, Fits;
    var lines := LinesOf(s.markdown);
    RereadLines(s);
    LinesHaveNoNewlines(s.markdown);
    WovenHasNoNewlines(lines, s.fences, values, 0);
    WovenIsNotEmpty(lines, s.fences, values, 0);
    LinesOfPrinted(Woven(s, values));
    StripWoven(lines, s.fences, values, 0);
    SameMoves(s, values);
  }

  lemma {:induction false} SameMoves(s: Source, values: seq<seq<string>>)
    requires ValidSource(s) && ValidSource(Reread(s)) && |values| == |s.fences|
    ensures Moved(UndoEdits(Reread(s), StripAll(values))) == Moved(UndoEdits(s, values))
  {
    hide LinesOf, Undo, Moved, Fits, Document;
    var lines, again := LinesOf(s.markdown), LinesOf(Reread(s).markdown);
    InOrderIsPositive(s.fences, 0, |lines|);
    AllEditsFit(s.fences, values, 0, |lines|);
    AllEditsFit(s.fences, StripAll(values), 0, |again|);
    var a, b := AllEdits(s.fences, values), AllEdits(s.fences, StripAll(values));
    forall k | 0 <= k < |a|
      ensures a[k].start == b[k].start && a[k].end == b[k].end && |a[k].value| == |b[k].value|
    {
      AllEditsAt(s.fences, values, k);
      AllEditsAt(s.fences, StripAll(values), k);
      StripAllAt(values, k);
    }
    UndoByLength(lines, a, again, b, 0, 0);
  }

  // ---- Undoing ----

  /** No fence has a line that still ends in a carriage return. */
  predicate CleanFences(s: Source)
    requires ValidSource(s)
  {
    forall k :: 0 <= k < |s.fences| ==> !SomeReturn(Fence(s, k))
  }

  /** The updated counterpart: the update's text, with the fences where the update put them. */
  predicate IsUpdated(confirmed: Source, current: Source, counterpart: Source, updated: Source)
    requires ValidSource(confirmed) && ValidSource(current) && ValidSource(counterpart)
  {
    && Update(confirmed, current, counterpart) == Some(updated.markdown)
    && |confirmed.fences| == |current.fences| == |counterpart.fences|
    && updated.fences == Moved(UndoEdits(counterpart, UpdatedFences(confirmed, current, counterpart)))
  }

  lemma {:induction false} UpdatedIsValid(confirmed: Source, current: Source, counterpart: Source, updated: Source)
    requires ValidSource(confirmed) && ValidSource(current) && ValidSource(counterpart)
    requires IsUpdated(confirmed, current, counterpart, updated)
    ensures ValidSource(updated) && |updated.fences| == |current.fences| > 0
    ensures forall k :: 0 <= k < |current.fences| ==>
      Fence(updated, k) == StripReturns(UpdatedFences(confirmed, current, counterpart)[k])
    ensures Woven(updated, StripAll(Fences(counterpart))) == StripReturns(LinesOf(counterpart.markdown))
  {
    hide ValidSource, LinesOf, Woven, Fence, FenceChanged, UndoEdits, Moved, Document, UpdatedFences, NoNewlines,
         StripReturns, Reread;
    UpdateIsWoven(confirmed, current, counterpart);
    AcceptedMasks(confirmed, current, counterpart);
    UpdatedAreFilled(confirmed, current, counterpart);
    var v := UpdatedFences(confirmed, current, counterpart);
    forall k | 0 <= k < |v|
      ensures NoNewlines(v[k])
    {
      UpdatedHaveNoNewlines(confirmed, current, counterpart, k);
    }
    PrintedIsWoven(counterpart, v, updated);
    RereadLines(counterpart);
    RereadFences(counterpart);
    forall k | 0 <= k < |v|
      ensures StripAll(v)[k] == StripReturns(v[k]) && StripAll(v)[k] != []
    {
      StripAllAt(v, k);
      StripKeepsLength(v[k]);
    }
    WovenSourceIsValid(Reread(counterpart), StripAll(v), updated);
  }

  lemma {:induction false} RereadFences(s: Source)
    ensures Reread(s).fences == s.fences
  {
  }

  lemma {:induction false} StripKeepsLength(lines: seq<string>)
    ensures |StripReturns(lines)| == |lines|
  {
  }

  /** The reverse change is accepted exactly when the current fences are clean. */
  lemma {:induction false} UndoAcceptedExactly(confirmed: Source, current: Source, counterpart: Source, updated: Source)
    requires ValidSource(confirmed) && ValidSource(current) && ValidSource(counterpart)
    requires IsUpdated(confirmed, current, counterpart, updated)
    ensures ValidSource(updated)
    ensures Update(current, confirmed, updated).Some? <==> CleanFences(current)
  {
    hide ValidSource, LinesOf, Fence, FenceText, UndoEdits, Moved, Document, Mask, StripReturns, ChangedFences,
         SomeReturn;
    UpdatedIsValid(confirmed, current, counterpart, updated);
    forall k | 0 <= k < |current.fences|
      ensures FenceChanged(current, updated, k) <==> SomeReturn(Fence(current, k))
    {
      AcceptedFences(confirmed, current, counterpart, k);
      SameFence(confirmed, current, k);
      SameFence(current, updated, k);
      StripShortens(Fence(current, k));
      StripChangesReturns(Fence(current, k));
    }
    AcceptedFences(confirmed, current, counterpart, 0);
    ChangedBothWays(confirmed, current);
  }

  /** What the reverse change puts back are the counterpart's fences, stripped. */
  lemma {:induction false} FencesPutBack(confirmed: Source, current: Source, counterpart: Source, updated: Source)
    requires ValidSource(confirmed) && ValidSource(current) && ValidSource(counterpart) && ValidSource(updated)
    requires IsUpdated(confirmed, current, counterpart, updated) && |updated.fences| == |current.fences|
    requires forall k :: 0 <= k < |current.fences| ==>
      Fence(updated, k) == StripReturns(UpdatedFences(confirmed, current, counterpart)[k])
    ensures UpdatedFences(current, confirmed, updated) == StripAll(Fences(counterpart))
  {
    hide ValidSource, LinesOf, Fence, FenceText, UndoEdits, Moved, Document, Mask, StripReturns, ChangedFences;
    var back := UpdatedFences(current, confirmed, updated);
    forall k | 0 <= k < |current.fences|
      ensures back[k] == StripAll(Fences(counterpart))[k]
    {
      AcceptedFences(confirmed, current, counterpart, k);
      SameFence(confirmed, current, k);
      SameFence(current, confirmed, k);
      StripAllAt(Fences(counterpart), k);
    }
  }

  /**
   * Undoing: the reverse change is accepted exactly when no current fence has a line that still ends in a
   * carriage return, and then gives the counterpart back with one carriage return less at such lines; so it
   * restores the counterpart exactly when that has no such line either.
   */
  lemma {:induction false} UpdateUndone(confirmed: Source, current: Source, counterpart: Source, updated: Source)
    requires ValidSource(confirmed) && ValidSource(current) && ValidSource(counterpart)
    requires IsUpdated(confirmed, current, counterpart, updated)
    ensures ValidSource(updated)
    ensures Update(current, confirmed, updated) ==
      if CleanFences(current) then Some(Document(StripReturns(LinesOf(counterpart.markdown)))) else None
    ensures Update(current, confirmed, updated) == Some(Document(LinesOf(counterpart.markdown))) <==>
      CleanFences(current) && !SomeReturn(LinesOf(counterpart.markdown))
  {
    hide ValidSource, LinesOf, Fence, UndoEdits, Moved, Document, Update, StripReturns, UpdatedFences, IsUpdated,
         CleanFences, Woven;
    UndoAcceptedExactly(confirmed, current, counterpart, updated);
    UpdatedIsValid(confirmed, current, counterpart, updated);
    if CleanFences(current) {
      IsUpdatedCounts(confirmed, current, counterpart, updated);
      FencesPutBack(confirmed, current, counterpart, updated);
      UpdateIsWoven(current, confirmed, updated);
    }
    StripChangesReturns(LinesOf(counterpart.markdown));
    StrippedPrintsApart(counterpart);
  }

  lemma {:induction false} IsUpdatedCounts(confirmed: Source, current: Source, counterpart: Source, updated: Source)
    requires ValidSource(confirmed) && ValidSource(current) && ValidSource(counterpart)
    requires IsUpdated(confirmed, current, counterpart, updated)
    ensures |confirmed.fences| == |current.fences| == |counterpart.fences|
  {
  }

  lemma {:induction false} StrippedPrintsApart(s: Source)
    requires ValidSource(s)
    ensures var lines := LinesOf(s.markdown); Document(StripReturns(lines)) == Document(lines) <==>
              StripReturns(lines) == lines
  {
    var lines := LinesOf(s.markdown);
    LinesHaveNoNewlines(s.markdown);
    hide LinesOf, Document;
    forall k | 0 <= k < |lines|
      ensures '\n' !in StripReturns(lines)[k]
    {
      StripReturnsAt(lines, k);
    }
    if lines != [] && Document(StripReturns(lines)) == Document(lines) {
      DocumentIsInjective(StripReturns(lines), lines);
    }
  }
}
