/** Masking HTML comments: global comment spans, their split into lines, and what stays visible. */
module MarkdownComments {
  import opened Measures
  import opened Outcomes
  import opened Text
  import opened Whitespace
  import opened Sorting

  /** The half-open range `start..end`, of a text or of one line. */
  datatype Span = Span(start: nat, end: nat)

  predicate In(s: Span, pos: int) { s.start <= pos < s.end }

  predicate Covered(spans: seq<Span>, pos: int) {
    exists k :: 0 <= k < |spans| && In(spans[k], pos)
  }

  // ---- Finding comments ----

  predicate HasAt(s: string, pat: string, i: nat) {
    i + |pat| <= |s| && s[i..i + |pat|] == pat
  }

  lemma {:induction false} HasAtIsExact(s: string, pat: string, i: nat)
    ensures HasAt(s, pat, i) <==> exists before: string, after: string :: |before| == i && s == before + pat + after
  {
    if HasAt(s, pat, i) {
      assert s == s[..i] + pat + s[i + |pat|..];
    }
    if before: string, after: string :| |before| == i && s == before + pat + after {
      assert s[i..i + |pat|] == pat;
    }
  }

  /** `s.indexOf(pat, from)` */
  function Find(s: string, pat: string, from: nat): (i: Option<nat>)
    ensures i.Some? ==> from <= i.value && HasAt(s, pat, i.value)
    decreases |s| - from
  {
    if from > |s| then None
    else if HasAt(s, pat, from) then Some(from)
    else if from == |s| then None
    else Find(s, pat, from + 1)
  }

  lemma {:induction false} FindIsFirst(s: string, pat: string, from: nat, j: nat)
    requires from <= j && HasAt(s, pat, j)
    ensures Find(s, pat, from).Some? && Find(s, pat, from).value <= j
    decreases j - from
  {
    if from < j {
      FindIsFirst(s, pat, from + 1, j);
    }
  }

  const OPEN := "<!--"
  const CLOSE := "-->"

  /** Where a comment that opens at `start` ends. */
  function CommentEnd(value: string, start: nat): (end: nat)
    requires HasAt(value, OPEN, start)
    ensures start + 4 <= end <= |value|
  {
    match Find(value, CLOSE, start + 4)
    case None => |value|
    case Some(close) => close + 3
  }

  function CommentsFrom(value: string, cursor: nat): seq<Span>
    decreases |value| - cursor
  {
    match Find(value, OPEN, cursor)
    case None => []
    case Some(start) => [Span(start, CommentEnd(value, start))] + CommentsFrom(value, CommentEnd(value, start))
  }

  /** The comments of one HTML node, at its place in the document. */
  method CommentsOf(value: string, offset: nat) returns (spans: seq<Span>)
    ensures spans == Moved(CommentsFrom(value, 0), offset)
    ensures MovedBy(CommentsFrom(value, 0), spans, offset)
  {
    hide HasAt, CommentEnd, CommentsFrom, Moved, MovedBy;
    spans := [];
    var cursor: nat := 0;
    while true
      invariant spans + Moved(CommentsFrom(value, cursor), offset) == Moved(CommentsFrom(value, 0), offset)
      decreases |value| - cursor
    {
      CommentsStep(value, offset, cursor);
      var start := Find(value, OPEN, cursor);
      if start.None? {
        MovedIs(CommentsFrom(value, 0), offset);
        return;
      }
      var end := CommentEnd(value, start.value);
      spans := spans + [Span(offset + start.value, offset + end)];
      cursor := end;
    }
  }

  lemma {:induction false} CommentsStep(value: string, offset: nat, cursor: nat)
    ensures var found := Find(value, OPEN, cursor);
            Moved(CommentsFrom(value, cursor), offset) ==
              if found.None? then []
              else
                var end := CommentEnd(value, found.value);
                [Span(offset + found.value, offset + end)] + Moved(CommentsFrom(value, end), offset)
  {
    hide HasAt, CommentEnd;
    var found := Find(value, OPEN, cursor);
    if found.Some? {
      var end := CommentEnd(value, found.value);
      assert ([Span(found.value, end)] + CommentsFrom(value, end))[1..] == CommentsFrom(value, end);
    }
  }

  function Moved(spans: seq<Span>, offset: nat): seq<Span> {
    if spans == [] then [] else [Span(offset + spans[0].start, offset + spans[0].end)] + Moved(spans[1..], offset)
  }

  /** Every span moved on by the same distance. */
  predicate MovedBy(spans: seq<Span>, moved: seq<Span>, offset: nat) {
    && |moved| == |spans|
    && forall k :: 0 <= k < |spans| ==>
         moved[k].start == spans[k].start + offset && moved[k].end == spans[k].end + offset
  }

  lemma {:induction false} MovedIs(spans: seq<Span>, offset: nat)
    ensures MovedBy(spans, Moved(spans, offset), offset)
  {
    if spans != [] {
      MovedIs(spans[1..], offset);
    }
  }

  /** A comment starts at an opener and ends behind the first closer after it, or with the text without one. */
  ghost predicate IsComment(value: string, s: Span) {
    HasAt(value, "<!--", s.start) && (EndsAtCloser(value, s) || RunsToEnd(value, s))
  }

  predicate EndsAtCloser(value: string, s: Span) {
    && s.start + 4 <= s.end - 3 && HasAt(value, "-->", s.end - 3)
    && forall j :: s.start + 4 <= j < s.end - 3 ==> !HasAt(value, "-->", j)
  }

  ghost predicate RunsToEnd(value: string, s: Span) {
    s.end == |value| && forall j :: s.start + 4 <= j ==> !HasAt(value, "-->", j)
  }

  lemma {:induction false} CommentEndIsExact(value: string, start: nat)
    requires HasAt(value, OPEN, start)
    ensures IsComment(value, Span(start, CommentEnd(value, start)))
  {
    hide HasAt;
    var close := Find(value, CLOSE, start + 4);
    forall j: nat | start + 4 <= j && HasAt(value, CLOSE, j)
      ensures close.Some? && close.value <= j
    {
      FindIsFirst(value, CLOSE, start + 4, j);
    }
  }

  /** The comments follow one another. */
  predicate InOrder(spans: seq<Span>, cursor: nat) {
    && (forall k :: 0 <= k < |spans| ==> cursor <= spans[k].start < spans[k].end)
    && forall i, j :: 0 <= i < j < |spans| ==> spans[i].end <= spans[j].start
  }

  lemma {:induction false} CommentsInOrder(value: string, cursor: nat)
    ensures InOrder(CommentsFrom(value, cursor), cursor)
    decreases |value| - cursor
  {
    hide HasAt, CommentEnd;
    var found := Find(value, OPEN, cursor);
    if found.Some? {
      CommentsInOrder(value, CommentEnd(value, found.value));
    }
  }

  lemma {:induction false} CoveredStep(first: Span, rest: seq<Span>, pos: int)
    ensures Covered([first] + rest, pos) <==> In(first, pos) || Covered(rest, pos)
  {
    var all := [first] + rest;
    assert all[0] == first;
    if k :| 0 <= k < |rest| && In(rest[k], pos) {
      assert In(all[k + 1], pos);
    }
    if k :| 0 < k < |all| && In(all[k], pos) {
      assert In(rest[k - 1], pos);
    }
  }

  /** Every opener of a node lies in one of its comments, every span found is a comment, and they are in order. */
  lemma {:induction false} CommentsAreExact(value: string, cursor: nat)
    ensures forall k :: 0 <= k < |CommentsFrom(value, cursor)| ==> IsComment(value, CommentsFrom(value, cursor)[k])
    ensures forall i :: cursor <= i && HasAt(value, "<!--", i) ==> Covered(CommentsFrom(value, cursor), i)
    ensures InOrder(CommentsFrom(value, cursor), cursor)
    decreases |value| - cursor
  {
    CommentsInOrder(value, cursor);
    hide In, HasAt, CommentEnd, InOrder, IsComment;
    var found := Find(value, OPEN, cursor);
    if found.Some? {
      var end := CommentEnd(value, found.value);
      CommentsAreExact(value, end);
      CommentEndIsExact(value, found.value);
      forall i | cursor <= i && HasAt(value, OPEN, i)
        ensures Covered(CommentsFrom(value, cursor), i)
      {
        FindIsFirst(value, OPEN, cursor, i);
        CoveredStep(Span(found.value, end), CommentsFrom(value, end), i);
        InMeans(Span(found.value, end), i);
      }
    } else {
      forall i | cursor <= i && HasAt(value, OPEN, i)
        ensures false
      {
        FindIsFirst(value, OPEN, cursor, i);
      }
    }
  }

  lemma {:induction false} InMeans(s: Span, pos: int)
    ensures In(s, pos) <==> s.start <= pos < s.end
  {
  }

  // ---- Splitting comments into lines ----

  /** Where a line starts in the document. */
  function LineOffset(lines: seq<string>, i: nat): nat
    requires i <= |lines|
  {
    if i == 0 then 0 else LineOffset(lines, i - 1) + |lines[i - 1]| + 1
  }

  /** In the document every line stands at its offset. */
  lemma {:induction false} LineStands(lines: seq<string>, i: nat)
    requires i < |lines|
    ensures var document, at := Join(lines, "\n"), LineOffset(lines, i);
            at + |lines[i]| <= |document| && document[at..at + |lines[i]|] == lines[i]
  {
    var document, first, rest := Join(lines, "\n"), lines[0], lines[1..];
    if i > 0 {
      LineStands(rest, i - 1);
      OffsetBehindFirst(lines, i);
      var at := LineOffset(rest, i - 1);
      assert document == first + "\n" + Join(rest, "\n");
      SliceBehind(first + "\n", Join(rest, "\n"), at, at + |lines[i]|);
    }
  }

  lemma {:induction false} SliceBehind(a: string, b: string, i: nat, j: nat)
    requires i <= j <= |b|
    ensures (a + b)[|a| + i..|a| + j] == b[i..j]
  {
  }

  lemma {:induction false} OffsetBehindFirst(lines: seq<string>, i: nat)
    requires 0 < i <= |lines|
    ensures LineOffset(lines, i) == |lines[0]| + 1 + LineOffset(lines[1..], i - 1)
  {
    if i > 1 {
      OffsetBehindFirst(lines, i - 1);
    }
  }

  function Min(a: int, b: int): int { if a < b then a else b }

  /** A comment's columns in the line at `offset`, if it touches the line. */
  function ColumnsOf(c: Span, offset: nat, length: nat): seq<Span> {
    var from, to := Max(c.start, offset), Min(c.end, offset + length);
    if from < to || (length == 0 && c.start <= offset < c.end) then [Span(from - offset, to - offset)] else []
  }

  function LineRanges(comments: seq<Span>, offset: nat, length: nat): seq<Span> {
    if comments == [] then [] else ColumnsOf(comments[0], offset, length) + LineRanges(comments[1..], offset, length)
  }

  /** The columns of every touched line, by line number. */
  method HtmlCommentRanges(rawLines: seq<string>, comments: seq<Span>) returns (ranges: map<nat, seq<Span>>)
    ensures forall i: nat :: i < |rawLines| ==> EntryOf(ranges, rawLines, comments, i)
  {
    hide LineRanges, EntryOf;
    ranges := map[];
    var lineOffset: nat := 0;
    for i := 0 to |rawLines|
      invariant lineOffset == LineOffset(rawLines, i)
      invariant forall k :: k in ranges ==> k <= i
      invariant forall k: nat :: k < i ==> EntryOf(ranges, rawLines, comments, k)
    {
      var lineRanges := RangesOfLine(comments, lineOffset, |rawLines[i]|);
      NewEntry(ranges, rawLines, comments, i, lineRanges);
      if lineRanges != [] {
        ranges := ranges[i + 1 := lineRanges];
      }
      lineOffset := lineOffset + |rawLines[i]| + 1;
    }
  }

  predicate EntryOf(ranges: map<nat, seq<Span>>, rawLines: seq<string>, comments: seq<Span>, i: nat)
    requires i < |rawLines|
  {
    Entry(ranges, i + 1, LineRanges(comments, LineOffset(rawLines, i), |rawLines[i]|))
  }

  lemma {:induction false} NewEntry(ranges: map<nat, seq<Span>>, rawLines: seq<string>, comments: seq<Span>, i: nat,
                                    lineRanges: seq<Span>)
    requires i < |rawLines| && lineRanges == LineRanges(comments, LineOffset(rawLines, i), |rawLines[i]|)
    requires forall k :: k in ranges ==> k <= i
    requires forall k: nat :: k < i ==> EntryOf(ranges, rawLines, comments, k)
    ensures var next := if lineRanges == [] then ranges else ranges[i + 1 := lineRanges];
            forall k: nat :: k <= i ==> EntryOf(next, rawLines, comments, k)
  {
    hide LineRanges, LineOffset;
    var next := if lineRanges == [] then ranges else ranges[i + 1 := lineRanges];
    forall k: nat | k <= i
      ensures EntryOf(next, rawLines, comments, k)
    {
      if k < i {
        assert EntryOf(ranges, rawLines, comments, k);
      }
    }
  }

  method RangesOfLine(comments: seq<Span>, offset: nat, length: nat) returns (ranges: seq<Span>)
    ensures ranges == LineRanges(comments, offset, length)
  {
    ranges := [];
    assert comments[0..] == comments;
    for k := 0 to |comments|
      invariant ranges + LineRanges(comments[k..], offset, length) == LineRanges(comments, offset, length)
    {
      assert comments[k..][1..] == comments[k + 1..];
      ranges := ranges + ColumnsOf(comments[k], offset, length);
    }
  }

  /** A line's entry holds its ranges, and there is no entry without ranges. */
  predicate Entry(ranges: map<nat, seq<Span>>, line: nat, expected: seq<Span>) {
    if expected == [] then line !in ranges else line in ranges && ranges[line] == expected
  }

  lemma {:induction false} CoveredConcat(a: seq<Span>, b: seq<Span>, pos: int)
    ensures Covered(a + b, pos) <==> Covered(a, pos) || Covered(b, pos)
  {
    if a == [] {
      assert a + b == b;
    } else {
      assert a + b == [a[0]] + (a[1..] + b);
      CoveredConcat(a[1..], b, pos);
      CoveredStep(a[0], a[1..] + b, pos);
      CoveredStep(a[0], a[1..], pos);
      assert [a[0]] + a[1..] == a;
    }
  }

  /** The split neither loses nor adds an offset. */
  lemma {:induction false} ColumnsAreExact(comments: seq<Span>, offset: nat, length: nat, column: nat)
    requires column < length
    ensures Covered(LineRanges(comments, offset, length), column) <==> Covered(comments, offset + column)
  {
    if comments != [] {
      var first, rest := comments[0], comments[1..];
      ColumnsAreExact(rest, offset, length, column);
      CoveredConcat(ColumnsOf(first, offset, length), LineRanges(rest, offset, length), column);
      assert comments == [first] + rest;
      CoveredStep(first, rest, offset + column);
      assert Covered(ColumnsOf(first, offset, length), column) <==> In(first, offset + column) by {
        if In(first, offset + column) {
          assert In(ColumnsOf(first, offset, length)[0], column);
        }
      }
    }
  }

  /** Some comment covers an offset of the line, or the newline of an empty line. */
  predicate Touched(comments: seq<Span>, offset: nat, length: nat) {
    exists pos :: offset <= pos < offset + Max(length, 1) && Covered(comments, pos)
  }

  lemma {:induction false} TouchedStep(first: Span, rest: seq<Span>, offset: nat, length: nat)
    ensures Touched([first] + rest, offset, length) <==>
              ColumnsOf(first, offset, length) != [] || Touched(rest, offset, length)
  {
    hide Covered;
    var all := [first] + rest;
    if pos :| offset <= pos < offset + Max(length, 1) && Covered(all, pos) {
      CoveredStep(first, rest, pos);
    }
    if pos :| offset <= pos < offset + Max(length, 1) && Covered(rest, pos) {
      CoveredStep(first, rest, pos);
    }
    if ColumnsOf(first, offset, length) != [] {
      CoveredStep(first, rest, Max(first.start, offset));
    }
  }

  lemma {:induction false} RangesWhenTouched(comments: seq<Span>, offset: nat, length: nat)
    ensures LineRanges(comments, offset, length) != [] <==> Touched(comments, offset, length)
  {
    hide ColumnsOf;
    if comments == [] {
      assert forall pos :: !Covered(comments, pos);
    } else {
      assert comments == [comments[0]] + comments[1..];
      RangesWhenTouched(comments[1..], offset, length);
      hide Touched;
      TouchedStep(comments[0], comments[1..], offset, length);
    }
  }

  lemma {:induction false} RangesInLine(comments: seq<Span>, offset: nat, length: nat)
    ensures InLine(LineRanges(comments, offset, length), length)
  {
    if comments != [] {
      RangesInLine(comments[1..], offset, length);
    }
  }

  predicate InLine(ranges: seq<Span>, length: nat) {
    forall k :: 0 <= k < |ranges| ==> ranges[k].start <= ranges[k].end <= length
  }

  // ---- What stays visible ----

  predicate StartsFirst(a: Span, b: Span) { a.start <= b.start }

  /** The text outside the sorted ranges, from `cursor` on. */
  function Sweep(raw: string, ranges: seq<Span>, cursor: nat): string {
    if ranges == [] then Slice(raw, cursor, |raw|)
    else Slice(raw, cursor, ranges[0].start) + Sweep(raw, ranges[1..], Max(cursor, ranges[0].end))
  }

  /** Whether a line keeps text once its comments disappear; a line without comments always does. */
  method HasRenderedTextOutsideComments(raw: string, ranges: Option<seq<Span>>) returns (rendered: bool)
    ensures rendered == (ranges.None? || Trim(Sweep(raw, Sort(ranges.value, StartsFirst), 0)) != "")
  {
    hide Trim, Slice, Sweep;
    if ranges.None? {
      return true;
    }
    var sorted := Sort(ranges.value, StartsFirst);
    var cursor: nat := 0;
    var visible := "";
    assert sorted[0..] == sorted;
    for i := 0 to |sorted|
      invariant visible + Sweep(raw, sorted[i..], cursor) == Sweep(raw, sorted, 0)
    {
      SweepNext(raw, sorted, i, cursor);
      visible := visible + Slice(raw, cursor, sorted[i].start);
      cursor := Max(cursor, sorted[i].end);
    }
    assert sorted[|sorted|..] == [];
    SweepEnds(raw, cursor);
    visible := visible + Slice(raw, cursor, |raw|);
    return |Trim(visible)| > 0;
  }

  lemma {:induction false} SweepEnds(raw: string, cursor: nat)
    ensures Sweep(raw, [], cursor) == Slice(raw, cursor, |raw|)
  {
  }

  lemma {:induction false} SweepNext(raw: string, sorted: seq<Span>, i: nat, cursor: nat)
    requires i < |sorted|
    ensures Sweep(raw, sorted[i..], cursor) ==
            Slice(raw, cursor, sorted[i].start) + Sweep(raw, sorted[i + 1..], Max(cursor, sorted[i].end))
  {
    assert sorted[i..][1..] == sorted[i + 1..];
  }

  /** A column that is neither whitespace nor inside a range. */
  predicate VisibleAt(raw: string, ranges: seq<Span>, c: int) {
    0 <= c < |raw| && !IsSpace(raw[c]) && !Covered(ranges, c)
  }

  ghost predicate VisibleFrom(raw: string, ranges: seq<Span>, cursor: nat) {
    exists c :: c >= cursor && VisibleAt(raw, ranges, c)
  }

  lemma {:induction false} SliceShows(raw: string, a: nat, b: nat)
    requires b <= |raw|
    ensures Shows(Slice(raw, a, b)) <==> exists c :: a <= c < b && !IsSpace(raw[c])
  {
    hide IsSpace;
    var s := Slice(raw, a, b);
    if i :| 0 <= i < |s| && !IsSpace(s[i]) {
      assert !IsSpace(raw[a + i]);
    }
    if c :| a <= c < b && !IsSpace(raw[c]) {
      assert s[c - a] == raw[c];
    }
  }

  predicate StartAfter(ranges: seq<Span>, bound: nat) {
    forall k :: 0 <= k < |ranges| ==> bound <= ranges[k].start
  }

  lemma {:induction false} BeforeAllRanges(ranges: seq<Span>, bound: nat, c: int)
    requires StartAfter(ranges, bound) && c < bound
    ensures !Covered(ranges, c)
  {
  }

  /** One step of the sweep passes over exactly the visible columns before the next cursor. */
  lemma {:induction false} SweepStep(raw: string, first: Span, rest: seq<Span>, cursor: nat)
    requires first.start <= first.end <= |raw| && StartAfter(rest, first.start)
    ensures VisibleFrom(raw, [first] + rest, cursor) <==>
      (exists c :: cursor <= c < first.start && !IsSpace(raw[c])) || VisibleFrom(raw, rest, Max(cursor, first.end))
  {
    hide IsSpace, Covered;
    var all := [first] + rest;
    if c :| c >= cursor && VisibleAt(raw, all, c) {
      CoveredStep(first, rest, c);
      assert c >= first.start ==> c >= Max(cursor, first.end) && VisibleAt(raw, rest, c);
    }
    if c :| cursor <= c < first.start && !IsSpace(raw[c]) {
      BeforeAllRanges(rest, first.start, c);
      CoveredStep(first, rest, c);
      assert VisibleAt(raw, all, c);
    }
    if c :| c >= Max(cursor, first.end) && VisibleAt(raw, rest, c) {
      CoveredStep(first, rest, c);
      assert VisibleAt(raw, all, c);
    }
  }

  /** The sweep over sorted ranges, overlapping or not, shows exactly what no range covers. */
  lemma {:induction false} SweepIsExact(raw: string, ranges: seq<Span>, cursor: nat)
    requires Sorted(ranges, StartsFirst) && InLine(ranges, |raw|)
    ensures Shows(Sweep(raw, ranges, cursor)) <==> VisibleFrom(raw, ranges, cursor)
  {
    hide IsSpace, Shows;
    if ranges == [] {
      SliceShows(raw, cursor, |raw|);
      NothingCovers(raw, cursor);
    } else {
      var first, rest := ranges[0], ranges[1..];
      assert ranges == [first] + rest;
      forall k | 0 <= k < |rest|
        ensures first.start <= rest[k].start
      {
        assert StartsFirst(ranges[0], ranges[k + 1]);
      }
      assert forall i, j :: 0 <= i < j < |rest| ==> rest[i] == ranges[i + 1] && rest[j] == ranges[j + 1];
      SweepIsExact(raw, rest, Max(cursor, first.end));
      hide VisibleFrom;
      SweepStep(raw, first, rest, cursor);
      SliceShows(raw, cursor, first.start);
      ShowsConcat(Slice(raw, cursor, first.start), Sweep(raw, rest, Max(cursor, first.end)));
    }
  }

  lemma {:induction false} NothingCovers(raw: string, cursor: nat)
    ensures VisibleFrom(raw, [], cursor) <==> exists c :: cursor <= c < |raw| && !IsSpace(raw[c])
  {
    hide IsSpace;
    if c :| cursor <= c < |raw| && !IsSpace(raw[c]) {
      assert VisibleAt(raw, [], c);
    }
  }

  lemma {:induction false} CoveredMembers(a: seq<Span>, b: seq<Span>, pos: int)
    requires forall s :: s in a <==> s in b
    ensures Covered(a, pos) <==> Covered(b, pos)
  {
    hide In;
    if k :| 0 <= k < |a| && In(a[k], pos) {
      assert a[k] in b;
    }
    if k :| 0 <= k < |b| && In(b[k], pos) {
      assert b[k] in a;
    }
  }

  /** Some character of the line is neither whitespace nor inside a comment of the document. */
  predicate ShownInDocument(raw: string, comments: seq<Span>, offset: nat) {
    exists c :: 0 <= c < |raw| && !IsSpace(raw[c]) && !Covered(comments, offset + c)
  }

  lemma {:induction false} LineOrDocument(raw: string, comments: seq<Span>, sorted: seq<Span>, offset: nat)
    requires forall s :: s in sorted <==> s in LineRanges(comments, offset, |raw|)
    ensures VisibleFrom(raw, sorted, 0) <==> ShownInDocument(raw, comments, offset)
  {
    hide IsSpace, Covered, LineRanges;
    var ranges := LineRanges(comments, offset, |raw|);
    if c :| c >= 0 && VisibleAt(raw, sorted, c) {
      CoveredMembers(sorted, ranges, c);
      ColumnsAreExact(comments, offset, |raw|, c);
    }
    if c :| 0 <= c < |raw| && !IsSpace(raw[c]) && !Covered(comments, offset + c) {
      CoveredMembers(sorted, ranges, c);
      ColumnsAreExact(comments, offset, |raw|, c);
      assert VisibleAt(raw, sorted, c);
    }
  }

  /**
   * The masking refines the per-character rule: a line that no comment touches is kept, and any other is
   * kept exactly when some non-whitespace character of it lies outside every comment.
   */
  lemma {:induction false} MaskingIsExact(raw: string, comments: seq<Span>, offset: nat)
    ensures var ranges := LineRanges(comments, offset, |raw|);
            && (ranges != [] <==> Touched(comments, offset, |raw|))
            && (Trim(Sweep(raw, Sort(ranges, StartsFirst), 0)) != "" <==> ShownInDocument(raw, comments, offset))
  {
    hide Trim, Sweep, Touched, ShownInDocument, VisibleFrom, Shows, InLine;
    var ranges := LineRanges(comments, offset, |raw|);
    var sorted := Sort(ranges, StartsFirst);
    RangesWhenTouched(comments, offset, |raw|);
    RangesInLine(comments, offset, |raw|);
    SortSorted(ranges, StartsFirst);
    SameMembers(sorted, ranges, multiset{});
    SortedInLine(ranges, sorted, |raw|);
    TrimShows(Sweep(raw, sorted, 0));
    SweepIsExact(raw, sorted, 0);
    LineOrDocument(raw, comments, sorted, offset);
  }

  lemma {:induction false} SortedInLine(ranges: seq<Span>, sorted: seq<Span>, length: nat)
    requires InLine(ranges, length) && forall s :: s in sorted <==> s in ranges
    ensures InLine(sorted, length)
  {
    forall k | 0 <= k < |sorted|
      ensures sorted[k].start <= sorted[k].end <= length
    {
      assert sorted[k] in ranges;
    }
  }

  // ---- Prose lines ----

  predicate Kept(rawLines: seq<string>, comments: seq<Span>, fenced: set<nat>, i: nat)
    requires i < |rawLines|
  {
    var offset, raw := LineOffset(rawLines, i), rawLines[i];
    i + 1 !in fenced && (Touched(comments, offset, |raw|) ==> ShownInDocument(raw, comments, offset))
  }

  datatype ProseLine = ProseLine(index: nat, raw: string)

  function ProseFrom(rawLines: seq<string>, comments: seq<Span>, fenced: set<nat>, i: nat): seq<ProseLine>
    requires i <= |rawLines|
    decreases |rawLines| - i
  {
    if i == |rawLines| then []
    else (if Kept(rawLines, comments, fenced, i) then [ProseLine(i + 1, rawLines[i])] else []) +
         ProseFrom(rawLines, comments, fenced, i + 1)
  }

  /** Each kept line carries its number, and is to be kept. */
  ghost predicate EachKept(kept: seq<ProseLine>, rawLines: seq<string>, comments: seq<Span>, fenced: set<nat>) {
    forall k :: 0 <= k < |kept| ==>
      0 < kept[k].index <= |rawLines| && kept[k].raw == rawLines[kept[k].index - 1]
      && Kept(rawLines, comments, fenced, kept[k].index - 1)
  }

  /** The lines are in order, from line `i` on. */
  predicate Rising(kept: seq<ProseLine>, i: nat) {
    && (forall k :: 0 <= k < |kept| ==> i < kept[k].index)
    && forall k, l :: 0 <= k < l < |kept| ==> kept[k].index < kept[l].index
  }

  ghost predicate NoneLost(kept: seq<ProseLine>, rawLines: seq<string>, comments: seq<Span>, fenced: set<nat>, i: nat) {
    forall n :: i <= n < |rawLines| && Kept(rawLines, comments, fenced, n) ==> ProseLine(n + 1, rawLines[n]) in kept
  }

  lemma {:induction false} ProseIsExact(rawLines: seq<string>, comments: seq<Span>, fenced: set<nat>, i: nat)
    requires i <= |rawLines|
    ensures var kept := ProseFrom(rawLines, comments, fenced, i);
            && EachKept(kept, rawLines, comments, fenced) && Rising(kept, i)
            && NoneLost(kept, rawLines, comments, fenced, i)
    decreases |rawLines| - i
  {
    if i == |rawLines| {
      assert ProseFrom(rawLines, comments, fenced, i) == [];
    } else {
      var rest := ProseFrom(rawLines, comments, fenced, i + 1);
      ProseStep(rawLines, comments, fenced, i);
      hide *;
      ProseIsExact(rawLines, comments, fenced, i + 1);
      KeepsOneMore(rest, rawLines, comments, fenced, i);
      NoneLostMore(rest, rawLines, comments, fenced, i);
    }
  }

  lemma {:induction false} ProseStep(rawLines: seq<string>, comments: seq<Span>, fenced: set<nat>, i: nat)
    requires i < |rawLines|
    ensures var rest := ProseFrom(rawLines, comments, fenced, i + 1);
            ProseFrom(rawLines, comments, fenced, i) ==
              if Kept(rawLines, comments, fenced, i) then [ProseLine(i + 1, rawLines[i])] + rest else rest
  {
    hide Kept;
  }

  lemma {:induction false} KeepsOneMore(rest: seq<ProseLine>, rawLines: seq<string>, comments: seq<Span>,
                                        fenced: set<nat>, i: nat)
    requires i < |rawLines| && EachKept(rest, rawLines, comments, fenced) && Rising(rest, i + 1)
    ensures Rising(rest, i) && Rising([ProseLine(i + 1, rawLines[i])] + rest, i)
    ensures Kept(rawLines, comments, fenced, i) ==>
              EachKept([ProseLine(i + 1, rawLines[i])] + rest, rawLines, comments, fenced)
  {
    hide Kept;
  }

  lemma {:induction false} NoneLostMore(rest: seq<ProseLine>, rawLines: seq<string>, comments: seq<Span>,
                                        fenced: set<nat>, i: nat)
    requires i < |rawLines| && NoneLost(rest, rawLines, comments, fenced, i + 1)
    ensures NoneLost([ProseLine(i + 1, rawLines[i])] + rest, rawLines, comments, fenced, i)
    ensures !Kept(rawLines, comments, fenced, i) ==> NoneLost(rest, rawLines, comments, fenced, i)
  {
    hide Kept;
    var kept := [ProseLine(i + 1, rawLines[i])] + rest;
    assert kept[0] == ProseLine(i + 1, rawLines[i]);
    forall n | i <= n < |rawLines| && Kept(rawLines, comments, fenced, n)
      ensures ProseLine(n + 1, rawLines[n]) in kept
    {
      assert i < n ==> ProseLine(n + 1, rawLines[n]) in rest;
    }
  }

  /** The lines outside code blocks and comments, in order with their numbers. */
  method MarkdownProseLines(rawLines: seq<string>, comments: seq<Span>, fenced: set<nat>) returns (kept: seq<ProseLine>)
    ensures kept == ProseFrom(rawLines, comments, fenced, 0)
    ensures EachKept(kept, rawLines, comments, fenced) && Rising(kept, 0)
    ensures NoneLost(kept, rawLines, comments, fenced, 0)
  {
    hide Touched, ShownInDocument, LineOffset, EntryOf, Kept, Sweep, Trim, EachKept, Rising, NoneLost;
    var ranges := HtmlCommentRanges(rawLines, comments);
    kept := [];
    for i := 0 to |rawLines|
      invariant kept + ProseFrom(rawLines, comments, fenced, i) == ProseFrom(rawLines, comments, fenced, 0)
    {
      var entry := if i + 1 in ranges then Some(ranges[i + 1]) else None;
      var rendered := HasRenderedTextOutsideComments(rawLines[i], entry);
      KeptWhenRendered(ranges, rawLines, comments, fenced, i, entry);
      if i + 1 !in fenced && rendered {
        kept := kept + [ProseLine(i + 1, rawLines[i])];
      }
    }
    ProseIsExact(rawLines, comments, fenced, 0);
  }

  lemma {:induction false} KeptWhenRendered(ranges: map<nat, seq<Span>>, rawLines: seq<string>, comments: seq<Span>,
                                            fenced: set<nat>, i: nat, entry: Option<seq<Span>>)
    requires i < |rawLines| && EntryOf(ranges, rawLines, comments, i)
    requires entry == if i + 1 in ranges then Some(ranges[i + 1]) else None
    ensures Kept(rawLines, comments, fenced, i) <==>
      i + 1 !in fenced && (entry.None? || Trim(Sweep(rawLines[i], Sort(entry.value, StartsFirst), 0)) != "")
  {
    hide Touched, ShownInDocument, LineOffset, Trim, Sweep, LineRanges;
    MaskingIsExact(rawLines[i], comments, LineOffset(rawLines, i));
  }
}
