/** The mechanical translation update: splicing edited code fences into the counterpart document. */
module TranslationBrief {
  import opened Outcomes
  import opened Text
  import opened LineEndings
  import opened Splices

  /** A fenced code block, by 1-based first and last line. */
  datatype Span = Span(startLine: nat, endLine: nat)

  /** A document and its code fences as the Markdown parser reports them. */
  datatype Source = Source(markdown: string, fences: seq<Span>)

  function LinesOf(markdown: string): seq<string> {
    var lines := Split(Normalise(markdown), '\n');
    if lines[|lines| - 1] == "" then lines[..|lines| - 1] else lines
  }

  /** Lines as they are written: each with a newline behind it, or the last, unless it is empty, without one. */
  predicate WrittenLines(text: string, lines: seq<string>) {
    && (forall k :: 0 <= k < |lines| ==> '\n' !in lines[k])
    && if lines == [] then text == ""
       else text == Document(lines) || (lines[|lines| - 1] != "" && text == Join(lines, "\n"))
  }

  /** The lines of a document are those with which it is written, once its line endings are normalised. */
  lemma {:induction false} LinesOfIsExact(markdown: string, lines: seq<string>)
    ensures LinesOf(markdown) == lines <==> WrittenLines(Normalise(markdown), lines)
  {
    var text := Normalise(markdown);
    LinesAreWritten(text);
    hide WrittenLines, Split;
    if WrittenLines(text, lines) {
      OnlyLinesWritten(text, lines);
    }
  }

  /** All lines but an empty last one. */
  function WithoutEmptyLast(lines: seq<string>): seq<string> {
    if lines != [] && lines[|lines| - 1] == "" then lines[..|lines| - 1] else lines
  }

  lemma {:induction false} LinesAreWritten(text: string)
    ensures WrittenLines(text, WithoutEmptyLast(Split(text, '\n')))
  {
    var all := Split(text, '\n');
    JoinSplit(text, '\n');
    forall k | 0 <= k < |all|
      ensures '\n' !in all[k]
    {
      SplitPieces(text, '\n', k);
    }
    hide Split, Join;
    if all[|all| - 1] == "" {
      var lines := all[..|all| - 1];
      JoinLast(lines);
      assert all == lines + [""];
    }
  }

  lemma {:induction false} OnlyLinesWritten(text: string, lines: seq<string>)
    requires WrittenLines(text, lines)
    ensures WithoutEmptyLast(Split(text, '\n')) == lines
  {
    if lines == [] {
      assert Split("", '\n') == [""];
    } else if text == Document(lines) {
      JoinLast(lines);
      hide Split, Join;
      SplitJoin(lines + [""], '\n');
      assert (lines + [""])[..|lines|] == lines;
    } else {
      hide Split, Join;
      SplitJoin(lines, '\n');
    }
  }

  lemma {:induction false} JoinLast(lines: seq<string>)
    ensures Join(lines + [""], "\n") == if lines == [] then "" else Document(lines)
  {
    if |lines| > 1 {
      JoinLast(lines[1..]);
      assert (lines + [""])[1..] == lines[1..] + [""];
    } else if lines != [] {
      assert (lines + [""])[1..] == [""];
      assert Join([""], "\n") == "";
    }
  }

  /** The spans are in order, share no line, and lie after line `at` and within `length` lines. */
  predicate InOrder(spans: seq<Span>, at: nat, length: nat) {
    if spans == [] then at <= length
    else at < spans[0].startLine <= spans[0].endLine <= length && InOrder(spans[1..], spans[0].endLine, length)
  }

  predicate ValidSource(s: Source) {
    InOrder(s.fences, 0, |LinesOf(s.markdown)|)
  }

  lemma {:induction false} InOrderAt(spans: seq<Span>, at: nat, length: nat, i: nat)
    requires InOrder(spans, at, length) && i < |spans|
    ensures at < spans[i].startLine <= spans[i].endLine <= length
    ensures InOrder(spans[i..], if i == 0 then at else spans[i - 1].endLine, length)
  {
    if i > 0 {
      InOrderAt(spans[1..], spans[0].endLine, length, i - 1);
      assert spans[1..][i - 1..] == spans[i..];
    }
  }

  /** The lines of fence `i`. */
  function Fence(s: Source, i: nat): (lines: seq<string>)
    requires ValidSource(s) && i < |s.fences|
    ensures lines != []
  {
    InOrderAt(s.fences, 0, |LinesOf(s.markdown)|, i);
    LinesOf(s.markdown)[s.fences[i].startLine - 1..s.fences[i].endLine]
  }

  function FenceText(s: Source, i: nat): string
    requires ValidSource(s) && i < |s.fences|
  {
    Document(Fence(s, i))
  }

  // ---- Replacing spans ----

  /** The edits that replacing spans `i` and later asks for. */
  function Edits(spans: seq<Span>, replacements: map<nat, string>, i: nat): seq<Edit<string>>
    requires i <= |spans| && forall k :: 0 <= k < |spans| ==> spans[k].startLine > 0
    decreases |spans| - i
  {
    if i == |spans| then []
    else
      var rest := Edits(spans, replacements, i + 1);
      if i in replacements then [Edit(spans[i].startLine - 1, spans[i].endLine, LinesOf(replacements[i]))] + rest
      else rest
  }

  predicate Positive(spans: seq<Span>) {
    forall k :: 0 <= k < |spans| ==> spans[k].startLine > 0
  }

  lemma {:induction false} InOrderIsPositive(spans: seq<Span>, at: nat, length: nat)
    requires InOrder(spans, at, length)
    ensures Positive(spans)
  {
    forall k | 0 <= k < |spans|
      ensures spans[k].startLine > 0
    {
      InOrderAt(spans, at, length, k);
    }
  }

  function EndLine(spans: seq<Span>, i: nat): nat
    requires i <= |spans|
  {
    if i == 0 then 0 else spans[i - 1].endLine
  }

  lemma {:induction false} EditsFit(spans: seq<Span>, replacements: map<nat, string>, i: nat, length: nat)
    requires Positive(spans) && i <= |spans| && InOrder(spans[i..], EndLine(spans, i), length)
    ensures Fits(Edits(spans, replacements, i), EndLine(spans, i), length)
    decreases |spans| - i
  {
    if i < |spans| {
      assert spans[i..][1..] == spans[i + 1..];
      EditsFit(spans, replacements, i + 1, length);
      FitsEarlier(Edits(spans, replacements, i + 1), EndLine(spans, i), EndLine(spans, i + 1), length);
    }
  }

  lemma {:induction false} FitsEarlier<T>(edits: seq<Edit<T>>, at: nat, k: nat, length: nat)
    requires at <= k && Fits(edits, k, length)
    ensures Fits(edits, at, length)
  {
  }

  /** A document with the replacements substituted all at once. */
  function Replaced(s: Source, replacements: map<nat, string>): string
    requires ValidSource(s)
  {
    InOrderIsPositive(s.fences, 0, |LinesOf(s.markdown)|);
    assert s.fences[0..] == s.fences;
    EditsFit(s.fences, replacements, 0, |LinesOf(s.markdown)|);
    Document(Weave(LinesOf(s.markdown), Edits(s.fences, replacements, 0), 0))
  }

  method LargestKey(replacements: map<nat, string>) returns (largest: Option<nat>)
    ensures largest.None? <==> replacements == map[]
    ensures largest.Some? ==> largest.value in replacements && forall k :: k in replacements ==> k <= largest.value
  {
    largest := None;
    var keys := replacements.Keys;
    while keys != {}
      invariant keys <= replacements.Keys
      invariant largest.None? ==> keys == replacements.Keys
      invariant largest.Some? ==> largest.value in replacements
      invariant largest.Some? ==> forall k :: k in replacements && k !in keys ==> k <= largest.value
      decreases keys
    {
      var k :| k in keys;
      largest := if largest.None? || largest.value < k then Some(k) else largest;
      keys := keys - {k};
    }
  }

  /**
   * Splice the replacements into the lines in place, from the last span to the first. A replacement
   * for a span that does not exist is an error, and the largest such key is reported.
   */
  method ReplaceSpanTexts(s: Source, replacements: map<nat, string>) returns (replaced: Result<string, nat>)
    requires ValidSource(s)
    ensures replaced.Err? <==> exists k :: k in replacements && k >= |s.fences|
    ensures replaced.Err? ==> replaced.error in replacements && forall k :: k in replacements ==> k <= replaced.error
    ensures replaced.Ok? ==> replaced.value == Replaced(s, replacements)
  {
    hide LinesOf, Fits, Edits, Weave, Document, InOrder;
    var largest := LargestKey(replacements);
    if largest.Some? && largest.value >= |s.fences| {
      return Err(largest.value);
    }
    var original := LinesOf(s.markdown);
    InOrderIsPositive(s.fences, 0, |original|);
    var lines := original;
    NoEdits(s.fences, replacements, original);
    for i := |s.fences| downto 0
      invariant Positive(s.fences)
      invariant Fits(Edits(s.fences, replacements, i), 0, |original|)
      invariant lines == Weave(original, Edits(s.fences, replacements, i), 0)
    {
      SpliceSpan(s.fences, replacements, i, original);
      if i in replacements {
        var span := s.fences[i];
        lines := lines[..span.startLine - 1] + LinesOf(replacements[i]) + lines[span.endLine..];
      }
    }
    return Ok(Document(lines));
  }

  lemma {:induction false} NoEdits(spans: seq<Span>, replacements: map<nat, string>, lines: seq<string>)
    requires Positive(spans)
    ensures Edits(spans, replacements, |spans|) == [] && Fits(Edits(spans, replacements, |spans|), 0, |lines|)
    ensures Weave(lines, Edits(spans, replacements, |spans|), 0) == lines
  {
  }

  lemma {:induction false} SpliceSpan(spans: seq<Span>, replacements: map<nat, string>, i: nat, lines: seq<string>)
    requires i < |spans| && Positive(spans) && InOrder(spans, 0, |lines|)
    requires Fits(Edits(spans, replacements, i + 1), 0, |lines|)
    ensures Fits(Edits(spans, replacements, i), 0, |lines|)
    ensures var w := Weave(lines, Edits(spans, replacements, i + 1), 0);
            if i in replacements
              then spans[i].startLine - 1 <= spans[i].endLine <= |w|
                && Weave(lines, Edits(spans, replacements, i), 0)
                   == w[..spans[i].startLine - 1] + LinesOf(replacements[i]) + w[spans[i].endLine..]
              else Weave(lines, Edits(spans, replacements, i), 0) == w
  {
    hide LinesOf;
    InOrderAt(spans, 0, |lines|, i);
    EditsFit(spans, replacements, i, |lines|);
    var edits := Edits(spans, replacements, i);
    FitsEarlier(edits, 0, EndLine(spans, i), |lines|);
    if i in replacements {
      assert edits[1..] == Edits(spans, replacements, i + 1);
      SpliceEarlier(lines, edits);
    }
  }
}
