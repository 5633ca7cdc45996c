/** When the mechanical update is offered, in terms of the lines of the three documents. */
module MechanicalAcceptance {
  import opened Outcomes
  import opened LineEndings
  import opened TranslationBrief
  import opened MechanicalUpdate
  import opened MechanicalExactness
  import opened MechanicalIdentity

  /** Equally many code fences, and some. */
  predicate SameCount(confirmed: Source, current: Source, counterpart: Source) {
    |confirmed.fences| == |current.fences| == |counterpart.fences| > 0
  }

  /** With numbered sentinel lines in place of the fences, the lines are the same. */
  ghost predicate SameMaskedLines(confirmed: Source, current: Source)
    requires ValidSource(confirmed) && ValidSource(current) && |confirmed.fences| == |current.fences|
  {
    var sentinels := Sentinels(0, |confirmed.fences|);
    Woven(confirmed, sentinels) == Woven(current, sentinels)
  }

  /**
   * The change is confined to code: the masked lines are unchanged, the counterpart's fences are the
   * confirmed ones, and some fence of the current source is not.
   */
  ghost predicate CodeOnly(confirmed: Source, current: Source, counterpart: Source)
    requires ValidSource(confirmed) && ValidSource(current) && ValidSource(counterpart)
    requires SameCount(confirmed, current, counterpart)
  {
    && SameMaskedLines(confirmed, current)
    && Fences(counterpart) == Fences(confirmed)
    && Fences(current) != Fences(confirmed)
  }

  lemma {:induction false} MasksAreExact(confirmed: Source, current: Source)
    requires ValidSource(confirmed) && ValidSource(current) && |confirmed.fences| == |current.fences| > 0
    ensures Mask(confirmed) == Mask(current) <==> SameMaskedLines(confirmed, current)
  {
    hide ValidSource, Mask, Woven, Sentinels, Document;
    MaskIsWoven(confirmed);
    MaskIsWoven(current);
    if Mask(confirmed) == Mask(current) {
      MasksAgree(confirmed, current);
    }
  }

  lemma {:induction false} FencesAreExact(a: Source, b: Source)
    requires ValidSource(a) && ValidSource(b) && |a.fences| == |b.fences|
    ensures Fences(a) != Fences(b) <==> exists i :: 0 <= i < |a.fences| && FenceChanged(a, b, i)
  {
    hide ValidSource, Fence, FenceChanged;
    forall i: nat | i < |a.fences|
      ensures FenceChanged(a, b, i) <==> Fences(a)[i] != Fences(b)[i]
    {
      SameFence(a, b, i);
    }
  }

  lemma {:induction false} NoneChanged(confirmed: Source, current: Source)
    requires ValidSource(confirmed) && ValidSource(current) && |confirmed.fences| == |current.fences|
    ensures ChangedFences(confirmed, current) != map[]
      <==> exists i :: 0 <= i < |confirmed.fences| && FenceChanged(confirmed, current, i)
  {
    hide ValidSource, FenceChanged, FenceText;
    var changed := ChangedFences(confirmed, current);
    if i :| 0 <= i < |confirmed.fences| && FenceChanged(confirmed, current, i) {
      assert i in changed;
    }
    if changed != map[] {
      var k :| k in changed;
    }
  }

  /** An update is offered exactly for a change that is confined to code. */
  lemma {:induction false} AcceptanceIsExact(confirmed: Source, current: Source, counterpart: Source)
    requires ValidSource(confirmed) && ValidSource(current) && ValidSource(counterpart)
    ensures var update := Update(confirmed, current, counterpart);
            update.Some? <==> SameCount(confirmed, current, counterpart) && CodeOnly(confirmed, current, counterpart)
  {
    hide ValidSource, Mask, SameMaskedLines, Fences, FenceChanged, ChangedFences, Replaced;
    if SameCount(confirmed, current, counterpart) {
      MasksAreExact(confirmed, current);
      FencesAreExact(confirmed, counterpart);
      FencesAreExact(confirmed, current);
      NoneChanged(confirmed, current);
    }
  }
}
