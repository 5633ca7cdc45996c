/**
 * Correcting the language switcher of a translated document: exactly when a second correction
 * overrides the first without a trace.
 */
module LanguageSwitcher {
  import opened Outcomes
  import opened Text
  import opened LineEndings
  import opened ResponseText
  import opened Whitespace

  datatype SwitcherError = UnterminatedFrontmatter | NoHeading

  datatype Language = English | Chinese

  datatype NameError = NotABasename | LanguageMismatch

  const EN_OPEN := "[English]("
  const EN_CLOSE := ") | 中文"
  const ZH_OPEN := "English | [中文]("
  const ZH_CLOSE := ")"

  /** The switcher of the translation of a document in `language`. */
  function TargetSwitcher(filename: string, language: Language): Result<string, NameError> {
    var chinese := EndsWith(filename, ".zh.md");
    var english := EndsWith(filename, ".md") && !chinese;
    if '/' in filename then Err(NotABasename)
    else if (language == Chinese && !chinese) || (language == English && !english) then Err(LanguageMismatch)
    else if chinese then Ok(ZH_OPEN + filename + ZH_CLOSE)
    else Ok(EN_OPEN + filename + EN_CLOSE)
  }

  predicate Around(line: string, open: string, close: string) {
    |open| + |close| < |line| && open <= line && EndsWith(line, close)
  }

  /** A language switcher line; its link target is any text without line terminators. */
  predicate IsSwitcher(line: string) {
    OneLine(line) && (Around(line, ZH_OPEN, ZH_CLOSE) || Around(line, EN_OPEN, EN_CLOSE))
  }

  /** `/^#\s+\S/` */
  predicate IsHeading(line: string) {
    |line| > 2 && line[0] == '#' && IsSpace(line[1]) && TrimStart(line[1..]) != ""
  }

  function DropBlankEnd(lines: seq<string>): (kept: seq<string>)
    ensures kept <= lines
  {
    if lines != [] && lines[|lines| - 1] == "" then DropBlankEnd(lines[..|lines| - 1]) else lines
  }

  /** The first line at or after `i` that is not blank. */
  function SkipBlank(lines: seq<string>, i: nat): (j: nat)
    requires i <= |lines|
    ensures i <= j <= |lines|
    decreases |lines| - i
  {
    if i < |lines| && lines[i] == "" then SkipBlank(lines, i + 1) else i
  }

  /** The first `---` line at or after `i`. */
  function FindRule(lines: seq<string>, i: nat): (j: nat)
    requires i <= |lines|
    ensures i <= j <= |lines|
    decreases |lines| - i
  {
    if i < |lines| && lines[i] != "---" then FindRule(lines, i + 1) else i
  }

  /** Where the H1 heading must be: first, or first after the frontmatter. */
  function HeadingIndex(lines: seq<string>): Result<nat, SwitcherError> {
    if lines == [] || lines[0] != "---" then Ok(0)
    else
      var end := FindRule(lines, 1);
      if end == |lines| then Err(UnterminatedFrontmatter) else Ok(SkipBlank(lines, end + 1))
  }

  /** Where the content after the heading and an old switcher starts. */
  function ContentStart(lines: seq<string>, heading: nat): (c: nat)
    requires heading < |lines|
    ensures heading < c <= |lines|
  {
    var c := SkipBlank(lines, heading + 1);
    SkipBlank(lines, if c < |lines| && IsSwitcher(lines[c]) then c + 1 else c)
  }

  function Output(lines: seq<string>, heading: nat, content: nat, switcher: string): seq<string>
    requires heading < content <= |lines|
  {
    lines[..heading + 1] + ["", switcher] + if content < |lines| then [""] + lines[content..] else []
  }

  /** The corrected lines of a document without blank lines at its end. */
  function CorrectLines(lines: seq<string>, switcher: string): Result<seq<string>, SwitcherError> {
    match HeadingIndex(lines)
    case Err(e) => Err(e)
    case Ok(h) =>
      if h < |lines| && IsHeading(lines[h]) then Ok(Output(lines, h, ContentStart(lines, h), switcher))
      else Err(NoHeading)
  }

  function LinesOf(markdown: string): seq<string> {
    DropBlankEnd(Split(Normalise(markdown), '\n'))
  }

  function Correct(markdown: string, switcher: string): Result<string, SwitcherError> {
    match CorrectLines(LinesOf(markdown), switcher)
    case Err(e) => Err(e)
    case Ok(lines) => Ok(Document(lines))
  }

  method PastBlanks(lines: seq<string>, i: nat) returns (j: nat)
    requires i <= |lines|
    ensures i <= j <= |lines| && j == SkipBlank(lines, i)
  {
    j := i;
    while j < |lines| && lines[j] == ""
      invariant i <= j <= |lines| && SkipBlank(lines, j) == SkipBlank(lines, i)
      decreases |lines| - j
    {
      j := j + 1;
    }
  }

  /** The correction as the script runs it. */
  method CorrectLanguageSwitcher(markdown: string, switcher: string) returns (corrected: Result<string, SwitcherError>)
    ensures corrected == Correct(markdown, switcher)
  {
    hide IsHeading, IsSwitcher, Normalise, Split, Join;
    var lines := Split(Normalise(markdown), '\n');
    while lines != [] && lines[|lines| - 1] == ""
      invariant DropBlankEnd(lines) == LinesOf(markdown)
      decreases |lines|
    {
      lines := lines[..|lines| - 1];
    }
    var headingIndex: nat := 0;
    if lines != [] && lines[0] == "---" {
      var frontmatterEnd := FindRule(lines, 1);
      if frontmatterEnd == |lines| {
        return Err(UnterminatedFrontmatter);
      }
      headingIndex := PastBlanks(lines, frontmatterEnd + 1);
    }
    if headingIndex >= |lines| || !IsHeading(lines[headingIndex]) {
      return Err(NoHeading);
    }
    var contentStart := PastBlanks(lines, headingIndex + 1);
    if contentStart < |lines| && IsSwitcher(lines[contentStart]) {
      contentStart := contentStart + 1;
    }
    contentStart := PastBlanks(lines, contentStart);
    var output := lines[..headingIndex + 1] + ["", switcher];
    if contentStart < |lines| {
      output := output + ([""] + lines[contentStart..]);
    }
    assert output == Output(lines, headingIndex, ContentStart(lines, headingIndex), switcher);
    return Ok(Document(output));
  }

  // ---- Corrected lines, corrected again ----

  lemma {:induction false} SkipBlankSpec(lines: seq<string>, i: nat)
    requires i <= |lines|
    ensures var j := SkipBlank(lines, i); (j < |lines| ==> lines[j] != "") && forall k :: i <= k < j ==> lines[k] == ""
    decreases |lines| - i
  {
    if i < |lines| && lines[i] == "" {
      SkipBlankSpec(lines, i + 1);
    }
  }

  lemma {:induction false} SkipBlankIs(lines: seq<string>, i: nat, j: nat)
    requires i <= j <= |lines| && (j < |lines| ==> lines[j] != "") && forall k :: i <= k < j ==> lines[k] == ""
    ensures SkipBlank(lines, i) == j
    decreases j - i
  {
    if i < j {
      SkipBlankIs(lines, i + 1, j);
    }
  }

  /** A search in a shared prefix finds the same line. */
  lemma {:induction false} FindRuleShared(lines: seq<string>, other: seq<string>, i: nat, n: nat)
    requires i <= n <= |lines| && n <= |other| && lines[..n] == other[..n] && FindRule(lines, i) < n
    ensures FindRule(other, i) == FindRule(lines, i)
    decreases n - i
  {
    assert lines[..n][i] == other[..n][i];
    if lines[i] != "---" {
      FindRuleShared(lines, other, i + 1, n);
    }
  }

  lemma {:induction false} HeadingShared(lines: seq<string>, other: seq<string>, h: nat)
    requires HeadingIndex(lines) == Ok(h) && h < |lines| && IsHeading(lines[h])
    requires h < |other| && lines[..h + 1] == other[..h + 1]
    ensures HeadingIndex(other) == Ok(h) && other[h] == lines[h]
  {
    assert forall k {:trigger lines[k]} :: 0 <= k <= h ==> lines[k] == lines[..h + 1][k] == other[k];
    if lines[0] == "---" {
      var end := FindRule(lines, 1);
      SkipBlankSpec(lines, end + 1);
      FindRuleShared(lines, other, 1, h + 1);
      SkipBlankIs(other, end + 1, h);
    }
  }

  lemma {:induction false} ContentStartAgain(out: seq<string>, h: nat)
    requires h + 2 < |out| && out[h + 1] == "" && IsSwitcher(out[h + 2])
    requires |out| == h + 3 || (|out| > h + 4 && out[h + 3] == "" && out[h + 4] != "")
    ensures ContentStart(out, h) == if |out| == h + 3 then h + 3 else h + 4
  {
    SkipBlankIs(out, h + 1, h + 2);
    SkipBlankIs(out, h + 3, if |out| == h + 3 then h + 3 else h + 4);
  }

  /** The last of two corrections wins, line by line. */
  lemma {:induction false} LastLinesWin(lines: seq<string>, first: string, second: string)
    requires IsSwitcher(first) && CorrectLines(lines, first).Ok?
    ensures CorrectLines(CorrectLines(lines, first).value, second) == CorrectLines(lines, second)
  {
    hide IsSwitcher, IsHeading;
    var h := HeadingIndex(lines).value;
    var c := ContentStart(lines, h);
    ContentStartSpec(lines, h);
    var out := Output(lines, h, c, first);
    assert out[..h + 1] == lines[..h + 1];
    HeadingShared(lines, out, h);
    assert c < |lines| ==> out[h + 4..] == lines[c..] && out[h + 4] == lines[c];
    ContentStartAgain(out, h);
  }

  lemma {:induction false} ContentStartSpec(lines: seq<string>, h: nat)
    requires h < |lines|
    ensures var c := ContentStart(lines, h); c < |lines| ==> lines[c] != ""
    ensures forall k :: h < k < ContentStart(lines, h) ==> lines[k] == "" || IsSwitcher(lines[k])
  {
    hide IsSwitcher;
    var c := SkipBlank(lines, h + 1);
    SkipBlankSpec(lines, h + 1);
    SkipBlankSpec(lines, if c < |lines| && IsSwitcher(lines[c]) then c + 1 else c);
  }

  /** Corrected lines do not end in a blank line. */
  lemma {:induction false} OutputEndsFull(lines: seq<string>, switcher: string)
    requires IsSwitcher(switcher) && CorrectLines(lines, switcher).Ok? && DropBlankEnd(lines) == lines
    ensures DropBlankEnd(CorrectLines(lines, switcher).value) == CorrectLines(lines, switcher).value
  {
    var h := HeadingIndex(lines).value;
    ContentStartSpec(lines, h);
  }

  // ---- Line endings ----

  lemma {:induction false} BlankEndHasNoReturn(lines: seq<string>)
    ensures SomeReturn(DropBlankEnd(lines)) <==> SomeReturn(lines)
  {
    if lines != [] && lines[|lines| - 1] == "" {
      BlankEndHasNoReturn(lines[..|lines| - 1]);
      if k :| 0 <= k < |lines| && EndsInReturn(lines[k]) {
        assert EndsInReturn(lines[..|lines| - 1][k]);
      }
      var rest := lines[..|lines| - 1];
      if k :| 0 <= k < |rest| && EndsInReturn(rest[k]) {
        assert EndsInReturn(lines[k]);
      }
    }
  }

  // ---- Counting carriage returns ----

  function Returns(s: string): nat {
    if s == "" then 0 else (if s[0] == '\r' then 1 else 0) + Returns(s[1..])
  }

  function ReturnsIn(lines: seq<string>): nat {
    if lines == [] then 0 else Returns(lines[0]) + ReturnsIn(lines[1..])
  }

  lemma {:induction false} ReturnsConcat(a: string, b: string)
    ensures Returns(a + b) == Returns(a) + Returns(b)
  {
    if a == "" {
      assert a + b == b;
    } else {
      assert (a + b)[1..] == a[1..] + b;
      ReturnsConcat(a[1..], b);
    }
  }

  lemma {:induction false} ReturnsInConcat(a: seq<string>, b: seq<string>)
    ensures ReturnsIn(a + b) == ReturnsIn(a) + ReturnsIn(b)
  {
    if a == [] {
      assert a + b == b;
    } else {
      assert (a + b)[1..] == a[1..] + b;
      ReturnsInConcat(a[1..], b);
    }
  }

  lemma {:induction false} ReturnsOfDocument(lines: seq<string>)
    ensures Returns(Document(lines)) == ReturnsIn(lines)
  {
    if |lines| > 1 {
      ReturnsOfDocument(lines[1..]);
      assert Document(lines) == lines[0] + "\n" + Document(lines[1..]);
      ReturnsConcat(lines[0] + "\n", Document(lines[1..]));
      ReturnsConcat(lines[0], "\n");
    } else if lines != [] {
      ReturnsConcat(lines[0], "\n");
      assert ReturnsIn(lines[1..]) == 0;
    }
  }

  lemma {:induction false} NoReturns(s: string)
    requires OneLine(s)
    ensures Returns(s) == 0
  {
    if s != "" {
      NoReturns(s[1..]);
    }
  }

  lemma {:induction false} NoReturnsIn(lines: seq<string>)
    requires forall k :: 0 <= k < |lines| ==> lines[k] == "" || IsSwitcher(lines[k])
    ensures ReturnsIn(lines) == 0
  {
    if lines != [] {
      NoReturns(lines[0]);
      NoReturnsIn(lines[1..]);
    }
  }

  lemma {:induction false} DroppingBlanksKeepsReturns(lines: seq<string>)
    ensures ReturnsIn(DropBlankEnd(lines)) == ReturnsIn(lines)
  {
    if lines != [] && lines[|lines| - 1] == "" {
      var n := |lines| - 1;
      DroppingBlanksKeepsReturns(lines[..n]);
      assert lines == lines[..n] + [lines[n]];
      ReturnsInConcat(lines[..n], [lines[n]]);
      assert ReturnsIn([lines[n]]) == 0;
    }
  }

  /** Correcting removes no carriage return and adds none. */
  lemma {:induction false} CorrectingKeepsReturns(lines: seq<string>, switcher: string)
    requires IsSwitcher(switcher) && CorrectLines(lines, switcher).Ok?
    ensures ReturnsIn(CorrectLines(lines, switcher).value) == ReturnsIn(lines)
  {
    hide IsSwitcher, IsHeading, HeadingIndex, ContentStart;
    var h := HeadingIndex(lines).value;
    var c := ContentStart(lines, h);
    ContentStartSpec(lines, h);
    var head, middle, tail := lines[..h + 1], lines[h + 1..c], lines[c..];
    NoReturnsIn(middle);
    NoReturnsIn(["", switcher]);
    NoReturnsIn([""]);
    assert lines == head + middle + tail;
    ReturnsInConcat(head + middle, tail);
    ReturnsInConcat(head, middle);
    var end := if c < |lines| then [""] + tail else [];
    ReturnsInConcat(head + ["", switcher], end);
    ReturnsInConcat(head, ["", switcher]);
    ReturnsInConcat([""], tail);
  }

  lemma {:induction false} StrippingDropsReturns(lines: seq<string>)
    ensures ReturnsIn(StripReturns(lines)) <= ReturnsIn(lines)
    ensures SomeReturn(lines) ==> ReturnsIn(StripReturns(lines)) < ReturnsIn(lines)
    ensures !SomeReturn(lines) ==> StripReturns(lines) == lines
  {
    if lines != [] {
      var line := lines[0];
      StrippingDropsReturns(lines[1..]);
      assert lines == [line] + lines[1..];
      SomeReturnStep(line, lines[1..]);
      if EndsInReturn(line) {
        assert line == StripReturn(line) + "\r";
        ReturnsConcat(StripReturn(line), "\r");
      }
    }
  }

  // ---- The main results ----

  lemma {:induction false} DropAppendedBlank(lines: seq<string>)
    ensures DropBlankEnd(lines + [""]) == DropBlankEnd(lines)
  {
    assert (lines + [""])[..|lines|] == lines;
  }

  /** The corrected document read back: its lines with one carriage return less at each end. */
  lemma {:induction false} ReadBack(lines: seq<string>)
    requires lines != [] && (forall k :: 0 <= k < |lines| ==> '\n' !in lines[k])
    ensures LinesOf(Document(lines)) == DropBlankEnd(StripReturns(lines))
  {
    LinesOfDocument(lines);
    DropAppendedBlank(StripReturns(lines));
  }

  lemma {:induction false} NoNewlines(markdown: string)
    ensures forall k :: 0 <= k < |LinesOf(markdown)| ==> '\n' !in LinesOf(markdown)[k]
  {
    forall k | 0 <= k < |LinesOf(markdown)|
      ensures '\n' !in LinesOf(markdown)[k]
    {
      SplitPieces(Normalise(markdown), '\n', k);
    }
  }

  lemma {:induction false} OutputHasNoNewlines(lines: seq<string>, switcher: string)
    requires IsSwitcher(switcher) && CorrectLines(lines, switcher).Ok?
    requires forall k :: 0 <= k < |lines| ==> '\n' !in lines[k]
    ensures forall k :: 0 <= k < |CorrectLines(lines, switcher).value| ==>
              '\n' !in CorrectLines(lines, switcher).value[k]
    ensures CorrectLines(lines, switcher).value != []
  {
    hide IsHeading, HeadingIndex, ContentStart;
    var h := HeadingIndex(lines).value;
    var c := ContentStart(lines, h);
    var out := Output(lines, h, c, switcher);
    forall k | 0 <= k < |out|
      ensures '\n' !in out[k]
    {
      if k > h + 3 {
        assert out[k] == lines[c..][k - h - 4];
      }
    }
  }

  lemma {:induction false} DroppedOnce(lines: seq<string>)
    ensures DropBlankEnd(DropBlankEnd(lines)) == DropBlankEnd(lines)
  {
    if lines != [] && lines[|lines| - 1] == "" {
      DroppedOnce(lines[..|lines| - 1]);
    }
  }

  lemma {:induction false} CorrectingKeepsSomeReturn(lines: seq<string>, switcher: string)
    requires IsSwitcher(switcher) && CorrectLines(lines, switcher).Ok?
    ensures SomeReturn(CorrectLines(lines, switcher).value) <==> SomeReturn(lines)
  {
    hide IsHeading, HeadingIndex, ContentStart;
    var h := HeadingIndex(lines).value;
    var c := ContentStart(lines, h);
    ContentStartSpec(lines, h);
    var out := Output(lines, h, c, switcher);
    assert c < |lines| ==> out[h + 4..] == lines[c..];
    if k :| 0 <= k < |lines| && EndsInReturn(lines[k]) {
      assert k <= h || k >= c;
      assert if k <= h then out[k] == lines[k] else out[h + 4..][k - c] == lines[k];
      assert if k <= h then EndsInReturn(out[k]) else EndsInReturn(out[h + 4 + (k - c)]);
    }
    if k :| 0 <= k < |out| && EndsInReturn(out[k]) {
      assert !EndsInReturn(out[h + 1]) && !EndsInReturn(out[h + 2]);
      assert k > h ==> k >= h + 4 && out[k] == lines[c..][k - h - 4];
      assert if k <= h then EndsInReturn(lines[k]) else EndsInReturn(lines[c + (k - h - 4)]);
    }
  }

  /**
   * The last of two corrections wins, as if the first had not happened, exactly when the document has
   * no stray carriage return.
   */
  lemma {:induction false} LastCorrectionWins(markdown: string, first: string, second: string)
    requires IsSwitcher(first) && IsSwitcher(second) && Correct(markdown, first).Ok?
    ensures Correct(Correct(markdown, first).value, second) == Correct(markdown, second) <==> !Stray(markdown)
  {
    hide IsSwitcher, Stray, SomeReturn, DropBlankEnd, CorrectLines, Normalise;
    var raw := Split(Normalise(markdown), '\n');
    var lines := DropBlankEnd(raw);
    StrayReturns(markdown);
    BlankEndHasNoReturn(raw);
    CorrectingKeepsSomeReturn(lines, first);
    var out := CorrectLines(lines, first).value;
    NoNewlines(markdown);
    OutputHasNoNewlines(lines, first);
    ReadBack(out);
    var again := DropBlankEnd(StripReturns(out));
    LastLinesWin(lines, first, second);
    StrippingDropsReturns(out);
    DroppingBlanksKeepsReturns(StripReturns(out));
    if SomeReturn(lines) {
      StrayDiffers(lines, first, second, again);
    } else {
      DroppedOnce(raw);
      OutputEndsFull(lines, first);
    }
  }

  lemma {:induction false} StrayDiffers(lines: seq<string>, first: string, second: string, again: seq<string>)
    requires IsSwitcher(first) && IsSwitcher(second) && CorrectLines(lines, first).Ok?
    requires ReturnsIn(again) < ReturnsIn(CorrectLines(lines, first).value)
    ensures CorrectLines(lines, second).Ok?
    ensures CorrectLines(again, second).Ok? ==>
      Document(CorrectLines(again, second).value) != Document(CorrectLines(lines, second).value)
  {
    hide IsSwitcher, HeadingIndex, IsHeading, Output;
    CorrectingKeepsReturns(lines, first);
    CorrectingKeepsReturns(lines, second);
    if CorrectLines(again, second).Ok? {
      CorrectingKeepsReturns(again, second);
      ReturnsOfDocument(CorrectLines(again, second).value);
      ReturnsOfDocument(CorrectLines(lines, second).value);
    }
  }

  /** The switcher of a translated document is recognised, and so replaced rather than repeated. */
  lemma {:induction false} TargetSwitcherIsRecognised(filename: string, language: Language)
    requires OneLine(filename)
    ensures TargetSwitcher(filename, language).Ok? ==> IsSwitcher(TargetSwitcher(filename, language).value)
  {
    var r := TargetSwitcher(filename, language);
    if r.Ok? {
      assert filename != "";
      if language == Chinese {
        assert r.value == ZH_OPEN + filename + ZH_CLOSE;
      } else {
        assert r.value == EN_OPEN + filename + EN_CLOSE;
      }
    }
  }

  /** Correcting is idempotent exactly on documents without stray carriage returns. */
  lemma {:induction false} CorrectionIsIdempotent(markdown: string, filename: string, language: Language)
    requires OneLine(filename) && TargetSwitcher(filename, language).Ok?
    ensures var switcher := TargetSwitcher(filename, language).value;
            Correct(markdown, switcher).Ok? ==>
              (Correct(Correct(markdown, switcher).value, switcher) == Correct(markdown, switcher) <==>
                 !Stray(markdown))
  {
    hide *;
    TargetSwitcherIsRecognised(filename, language);
    var switcher := TargetSwitcher(filename, language).value;
    if Correct(markdown, switcher).Ok? {
      LastCorrectionWins(markdown, switcher, switcher);
    }
  }
}
