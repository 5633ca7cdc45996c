/** The mechanical update as a whole: what it produces, when that is the current source, and its inverse. */
module MechanicalUpdate {
  import opened Outcomes
  import opened LineEndings
  import opened Splices
  import opened TranslationBrief

  // ---- Masking ----

  function Decimal(n: nat): (digits: string)
    ensures digits != ""
  {
    (if n < 10 then "" else Decimal(n / 10)) + ["0123456789"[n % 10]]
  }

  lemma {:induction false} DecimalIsInjective(m: nat, n: nat)
    requires Decimal(m) == Decimal(n)
    ensures m == n
  {
    var a, b := Decimal(m), Decimal(n);
    assert a[|a| - 1] == "0123456789"[m % 10] && b[|b| - 1] == "0123456789"[n % 10];
    assert m % 10 == n % 10;
    assert a[..|a| - 1] == b[..|b| - 1];
    assert a[..|a| - 1] == if m < 10 then "" else Decimal(m / 10);
    assert b[..|b| - 1] == if n < 10 then "" else Decimal(n / 10);
    if m >= 10 && n >= 10 {
      DecimalIsInjective(m / 10, n / 10);
    }
  }

  lemma {:induction false} DecimalIsPlain(n: nat)
    ensures forall c :: c in Decimal(n) ==> c in "0123456789"
  {
    if n >= 10 {
      DecimalIsPlain(n / 10);
    }
  }

  const SENTINEL_PREFIX := "DSH_TRANSLATION_CODE_"

  function Sentinel(i: nat): string {
    SENTINEL_PREFIX + Decimal(i)
  }

  lemma {:induction false} SentinelsDiffer(i: nat, j: nat)
    requires Sentinel(i) == Sentinel(j)
    ensures i == j
  {
    assert Sentinel(i)[|SENTINEL_PREFIX|..] == Decimal(i);
    assert Sentinel(j)[|SENTINEL_PREFIX|..] == Decimal(j);
    DecimalIsInjective(i, j);
  }

  function SentinelMap(n: nat): map<nat, string> {
    map i: nat | i < n :: Sentinel(i) + "\n"
  }

  /** The document with a numbered sentinel line for each fence. */
  function Mask(s: Source): string
    requires ValidSource(s)
  {
    Replaced(s, SentinelMap(|s.fences|))
  }

  // ---- The update ----

  predicate FenceChanged(before: Source, after: Source, i: nat)
    requires ValidSource(before) && ValidSource(after) && i < |before.fences| && i < |after.fences|
  {
    FenceText(before, i) != FenceText(after, i)
  }

  function ChangedFences(confirmed: Source, current: Source): map<nat, string>
    requires ValidSource(confirmed) && ValidSource(current) && |confirmed.fences| == |current.fences|
  {
    map i: nat | i < |current.fences| && FenceChanged(confirmed, current, i) :: FenceText(current, i)
  }

  function Update(confirmed: Source, current: Source, counterpart: Source): Option<string>
    requires ValidSource(confirmed) && ValidSource(current) && ValidSource(counterpart)
  {
    var n := |confirmed.fences|;
    if n == 0 || n != |current.fences| || n != |counterpart.fences| then None
    else if Mask(confirmed) != Mask(current) then None
    else if exists i :: 0 <= i < n && FenceChanged(confirmed, counterpart, i) then None
    else if ChangedFences(confirmed, current) == map[] then None
    else Some(Replaced(counterpart, ChangedFences(confirmed, current)))
  }

  method MaskCodeSpans(s: Source) returns (masked: string)
    requires ValidSource(s)
    ensures masked == Mask(s)
  {
    var replaced := ReplaceSpanTexts(s, SentinelMap(|s.fences|));
    masked := replaced.value;
  }

  /** The update, or nothing when the change is not confined to code fences. */
  method ComputeMechanicalUpdate(confirmed: Source, current: Source, counterpart: Source)
    returns (update: Option<string>)
    requires ValidSource(confirmed) && ValidSource(current) && ValidSource(counterpart)
    ensures update == Update(confirmed, current, counterpart)
  {
    hide ValidSource, Replaced, FenceText, FenceChanged;
    var n := |confirmed.fences|;
    if n == 0 || n != |current.fences| || n != |counterpart.fences| {
      return None;
    }
    var before := MaskCodeSpans(confirmed);
    var after := MaskCodeSpans(current);
    if before != after || (exists i :: 0 <= i < n && FenceChanged(confirmed, counterpart, i)) {
      return None;
    }
    var changed := ChangedFences(confirmed, current);
    if changed == map[] {
      return None;
    }
    var replaced := ReplaceSpanTexts(counterpart, changed);
    return Some(replaced.value);
  }

  // ---- All fences at once ----

  /** Every span replaced by its value. */
  function AllEdits(spans: seq<Span>, values: seq<seq<string>>): (edits: seq<Edit<string>>)
    requires |values| == |spans| && Positive(spans)
    ensures |edits| == |spans|
  {
    if spans == [] then []
    else [Edit(spans[0].startLine - 1, spans[0].endLine, values[0])] + AllEdits(spans[1..], values[1..])
  }

  lemma {:induction false} AllEditsFit(spans: seq<Span>, values: seq<seq<string>>, at: nat, length: nat)
    requires |values| == |spans| && Positive(spans) && InOrder(spans, at, length)
    ensures Fits(AllEdits(spans, values), at, length)
  {
    if spans != [] {
      AllEditsFit(spans[1..], values[1..], spans[0].endLine, length);
      assert AllEdits(spans, values)[1..] == AllEdits(spans[1..], values[1..]);
    }
  }

  /** Lines with every span replaced by its value, from line `at` on. */
  function WovenLines(lines: seq<string>, spans: seq<Span>, values: seq<seq<string>>, at: nat): seq<string>
    requires |values| == |spans| && InOrder(spans, at, |lines|)
  {
    InOrderIsPositive(spans, at, |lines|);
    AllEditsFit(spans, values, at, |lines|);
    Weave(lines, AllEdits(spans, values), at)
  }

  lemma {:induction false} WovenStep(lines: seq<string>, spans: seq<Span>, values: seq<seq<string>>, at: nat)
    requires |values| == |spans| && InOrder(spans, at, |lines|)
    ensures WovenLines(lines, spans, values, at) ==
      if spans == [] then lines[at..]
      else lines[at..spans[0].startLine - 1] + values[0] + WovenLines(lines, spans[1..], values[1..], spans[0].endLine)
  {
    InOrderIsPositive(spans, at, |lines|);
    AllEditsFit(spans, values, at, |lines|);
    if spans != [] {
      assert AllEdits(spans, values)[1..] == AllEdits(spans[1..], values[1..]);
    }
  }

  /** The prose of `s` in order, with the given values in place of its fences. */
  function Woven(s: Source, values: seq<seq<string>>): seq<string>
    requires ValidSource(s) && |values| == |s.fences|
  {
    WovenLines(LinesOf(s.markdown), s.fences, values, 0)
  }

  function Fences(s: Source): (fences: seq<seq<string>>)
    requires ValidSource(s)
    ensures |fences| == |s.fences|
  {
    seq(|s.fences|, i requires 0 <= i < |s.fences| => Fence(s, i))
  }

  /** Replacing some spans is replacing all, the others by their own lines. */
  lemma {:induction false} SomeIsAll(lines: seq<string>, spans: seq<Span>, replacements: map<nat, string>,
                                     values: seq<seq<string>>, i: nat)
    requires |values| == |spans| && i <= |spans| && Positive(spans) && InOrder(spans[i..], EndLine(spans, i), |lines|)
    requires forall k :: i <= k < |spans| ==> spans[k].startLine <= spans[k].endLine <= |lines|
    requires forall k :: i <= k < |spans| ==>
      values[k] == if k in replacements then LinesOf(replacements[k])
                   else lines[spans[k].startLine - 1..spans[k].endLine]
    ensures Fits(Edits(spans, replacements, i), EndLine(spans, i), |lines|)
    ensures Weave(lines, Edits(spans, replacements, i), EndLine(spans, i)) ==
            WovenLines(lines, spans[i..], values[i..], EndLine(spans, i))
    decreases |spans| - i
  {
    hide LinesOf;
    if i < |spans| {
      hide Weave, Edits, Fits, WovenLines;
      assert spans[i..][1..] == spans[i + 1..];
      EditsFit(spans, replacements, i, |lines|);
      WovenTail(lines, spans, values, i);
      SomeIsAll(lines, spans, replacements, values, i + 1);
      SomeIsAllStep(lines, spans, replacements, values[i], i);
    }
  }

  /** Weaving the spans from `i` on, one span at a time. */
  lemma {:induction false} WovenTail(lines: seq<string>, spans: seq<Span>, values: seq<seq<string>>, i: nat)
    requires |values| == |spans| && i < |spans| && InOrder(spans[i..], EndLine(spans, i), |lines|)
    ensures EndLine(spans, i) < spans[i].startLine <= spans[i].endLine <= |lines|
            && InOrder(spans[i + 1..], spans[i].endLine, |lines|)
    ensures WovenLines(lines, spans[i..], values[i..], EndLine(spans, i)) ==
      lines[EndLine(spans, i)..spans[i].startLine - 1] + values[i]
      + WovenLines(lines, spans[i + 1..], values[i + 1..], spans[i].endLine)
  {
    hide WovenLines;
    assert spans[i..][1..] == spans[i + 1..] && values[i..][1..] == values[i + 1..];
    WovenStep(lines, spans[i..], values[i..], EndLine(spans, i));
  }

  lemma {:induction false} SomeIsAllStep(lines: seq<string>, spans: seq<Span>, replacements: map<nat, string>,
                                         value: seq<string>, i: nat)
    requires i < |spans| && Positive(spans) && EndLine(spans, i) < spans[i].startLine <= spans[i].endLine <= |lines|
    requires Fits(Edits(spans, replacements, i + 1), spans[i].endLine, |lines|)
    requires value == if i in replacements then LinesOf(replacements[i])
                      else lines[spans[i].startLine - 1..spans[i].endLine]
    requires Fits(Edits(spans, replacements, i), EndLine(spans, i), |lines|)
    ensures Weave(lines, Edits(spans, replacements, i), EndLine(spans, i)) ==
      lines[EndLine(spans, i)..spans[i].startLine - 1] + value
      + Weave(lines, Edits(spans, replacements, i + 1), spans[i].endLine)
  {
    hide LinesOf;
    var at, rest := EndLine(spans, i), Edits(spans, replacements, i + 1);
    if i in replacements {
      assert Edits(spans, replacements, i)[1..] == rest;
    } else {
      WeaveFrom(lines, rest, at, spans[i].endLine);
      assert lines[at..spans[i].endLine] == lines[at..spans[i].startLine - 1] + value;
    }
  }

  lemma {:induction false} ReplacedIsWoven(s: Source, replacements: map<nat, string>, values: seq<seq<string>>)
    requires ValidSource(s) && |values| == |s.fences|
    requires forall k :: 0 <= k < |s.fences| ==>
               values[k] == if k in replacements then LinesOf(replacements[k]) else Fence(s, k)
    ensures Replaced(s, replacements) == Document(Woven(s, values))
  {
    hide Document, Weave, InOrder, Edits, LinesOf, AllEdits;
    var lines := LinesOf(s.markdown);
    assert s.fences[0..] == s.fences && values[0..] == values;
    InOrderIsPositive(s.fences, 0, |lines|);
    forall k | 0 <= k < |s.fences|
      ensures 0 < s.fences[k].startLine <= s.fences[k].endLine <= |lines|
    {
      InOrderAt(s.fences, 0, |lines|, k);
    }
    SomeIsAll(lines, s.fences, replacements, values, 0);
  }
}
