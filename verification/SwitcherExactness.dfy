/**
 * The corrected document told by its lines alone: what a switcher and a heading are, how an accepted
 * document is laid out, and what becomes of each part.
 */
module SwitcherExactness {
  import opened Outcomes
  import opened Text
  import opened ResponseText
  import opened Whitespace
  import opened LanguageSwitcher

  // ---- Switchers and headings ----

  /** A line `English | [中文](t)` or `[English](t) | 中文`. */
  ghost predicate SwitcherLine(line: string) {
    exists t: string :: LinksTo(line, t)
  }

  predicate LinksTo(line: string, t: string) {
    && t != "" && OneLine(t)
    && (line == "English | [中文](" + t + ")" || line == "[English](" + t + ") | 中文")
  }

  lemma {:induction false} Inside(line: string, open: string, close: string) returns (t: string)
    requires Around(line, open, close)
    ensures t != "" && line == open + t + close
  {
    t := line[|open|..|line| - |close|];
    assert line == line[..|open|] + t + line[|line| - |close|..];
  }

  lemma {:induction false} OneLineParts(a: string, b: string, c: string)
    ensures OneLine(a + b + c) <==> OneLine(a) && OneLine(b) && OneLine(c)
  {
    var s := a + b + c;
    hide IsTerminator;
    assert forall i :: 0 <= i < |a| ==> s[i] == a[i];
    assert forall i :: 0 <= i < |b| ==> s[|a| + i] == b[i];
    assert forall i :: 0 <= i < |c| ==> s[|a| + |b| + i] == c[i];
  }

  lemma {:induction false} SwitcherIsExact(line: string)
    ensures IsSwitcher(line) <==> SwitcherLine(line)
  {
    assert OneLine(ZH_OPEN) && OneLine(ZH_CLOSE) && OneLine(EN_OPEN) && OneLine(EN_CLOSE);
    hide OneLine;
    if IsSwitcher(line) {
      if Around(line, ZH_OPEN, ZH_CLOSE) {
        var t := Inside(line, ZH_OPEN, ZH_CLOSE);
        OneLineParts(ZH_OPEN, t, ZH_CLOSE);
        assert LinksTo(line, t);
      } else {
        var t := Inside(line, EN_OPEN, EN_CLOSE);
        OneLineParts(EN_OPEN, t, EN_CLOSE);
        assert LinksTo(line, t);
      }
    }
    if t: string :| LinksTo(line, t) {
      OneLineParts(ZH_OPEN, t, ZH_CLOSE);
      OneLineParts(EN_OPEN, t, EN_CLOSE);
      assert line == ZH_OPEN + t + ZH_CLOSE ==> Around(line, ZH_OPEN, ZH_CLOSE);
      assert line == EN_OPEN + t + EN_CLOSE ==> Around(line, EN_OPEN, EN_CLOSE);
    }
  }

  /** A number sign, some whitespace, something else, and the rest. */
  ghost predicate HeadingLine(line: string) {
    exists n: nat :: 2 <= n < |line| && line[0] == '#' && AllSpace(line[1..n]) && !IsSpace(line[n])
  }

  lemma {:induction false} TrimmedStart(s: string)
    ensures TrimStart(s) != "" <==> exists n: nat :: n < |s| && AllSpace(s[..n]) && !IsSpace(s[n])
  {
    hide IsSpace;
    if s != "" {
      if IsSpace(s[0]) {
        TrimmedStart(s[1..]);
        if n: nat :| n < |s[1..]| && AllSpace(s[1..][..n]) && !IsSpace(s[1..][n]) {
          assert s[..n + 1] == [s[0]] + s[1..][..n];
          assert AllSpace(s[..n + 1]) && !IsSpace(s[n + 1]);
        }
        if n: nat :| n < |s| && AllSpace(s[..n]) && !IsSpace(s[n]) {
          assert s[..n] == [s[0]] + s[1..][..n - 1];
          assert s[1..][..n - 1] == s[..n][1..];
          assert AllSpace(s[1..][..n - 1]) && !IsSpace(s[1..][n - 1]);
        }
      } else {
        assert AllSpace(s[..0]) && !IsSpace(s[0]);
      }
    }
  }

  lemma {:induction false} HeadingIsExact(line: string)
    ensures IsHeading(line) <==> HeadingLine(line)
  {
    hide IsSpace;
    if |line| > 2 && line[0] == '#' {
      TrimmedStart(line[1..]);
      if n: nat :| n < |line[1..]| && AllSpace(line[1..][..n]) && !IsSpace(line[1..][n]) && IsSpace(line[1]) {
        assert line[1..][..n] == line[1..n + 1];
        assert n > 0;
        assert 2 <= n + 1 < |line| && AllSpace(line[1..n + 1]) && !IsSpace(line[n + 1]);
      }
      if n: nat :| 2 <= n < |line| && AllSpace(line[1..n]) && !IsSpace(line[n]) {
        assert line[1..][..n - 1] == line[1..n];
        assert line[1..n][0] == line[1];
        assert AllSpace(line[1..][..n - 1]) && !IsSpace(line[1..][n - 1]);
      }
    }
  }

  // ---- The switcher of a translation ----

  /** The name of a document in each language. */
  ghost predicate Named(filename: string, language: Language) {
    && '/' !in filename
    && match language
       case Chinese => exists stem: string :: filename == stem + ".zh.md"
       case English => (exists stem: string :: filename == stem + ".md")
                       && !exists stem: string :: filename == stem + ".zh.md"
  }

  lemma {:induction false} EndsWithIsExact(s: string, suffix: string)
    ensures EndsWith(s, suffix) <==> exists stem: string :: s == stem + suffix
  {
    if EndsWith(s, suffix) {
      assert s == s[..|s| - |suffix|] + suffix;
    }
  }

  /** The switcher links back to the document translated, and names the other language first or last. */
  lemma {:induction false} TargetSwitcherIsExact(filename: string, language: Language)
    ensures var r := TargetSwitcher(filename, language);
            && (r.Ok? <==> Named(filename, language))
            && (r == Err(NotABasename) <==> '/' in filename)
            && (r.Ok? && language == Chinese ==> r.value == "English | [中文](" + filename + ")")
            && (r.Ok? && language == English ==> r.value == "[English](" + filename + ") | 中文")
  {
    EndsWithIsExact(filename, ".zh.md");
    EndsWithIsExact(filename, ".md");
  }

  // ---- The layout of a document ----

  /**
   * A document in front of its heading, the heading, blank lines, possibly a switcher and further blank
   * lines, and the content.
   */
  datatype Layout = Layout(front: seq<string>, heading: string, above: nat, previous: seq<string>, below: nat,
                           content: seq<string>)

  function Blank(n: nat): seq<string> {
    seq(n, _ => "")
  }

  function LayoutLines(l: Layout): seq<string> {
    l.front + [l.heading] + Blank(l.above) + l.previous + Blank(l.below) + l.content
  }

  /** Nothing, or frontmatter between two rules and blank lines after it. */
  ghost predicate IsFront(front: seq<string>) {
    front == [] || exists body: seq<string>, n: nat :: Frontmatter(front, body, n)
  }

  predicate Frontmatter(front: seq<string>, body: seq<string>, n: nat) {
    "---" !in body && front == ["---"] + body + ["---"] + Blank(n)
  }

  ghost predicate IsLayout(l: Layout) {
    && IsFront(l.front) && HeadingLine(l.heading)
    && (if l.previous == [] then l.below == 0 else |l.previous| == 1 && SwitcherLine(l.previous[0]))
    && (l.content != [] ==> l.content[0] != "" && (l.previous == [] ==> !SwitcherLine(l.content[0])))
  }

  /** The document with the switcher below the heading and everything else as it was. */
  function Corrected(l: Layout, switcher: string): seq<string> {
    l.front + [l.heading, "", switcher] + if l.content == [] then [] else [""] + l.content
  }

  // ---- The parts as the correction finds them ----

  lemma {:induction false} RuleAfter(body: seq<string>, rest: seq<string>, i: nat)
    requires "---" !in body && i <= |body|
    ensures FindRule(["---"] + body + ["---"] + rest, 1 + i) == 1 + |body|
    decreases |body| - i
  {
    var lines := ["---"] + body + ["---"] + rest;
    if i < |body| {
      assert lines[1 + i] == body[i] && body[i] in body;
      RuleAfter(body, rest, i + 1);
    } else {
      assert lines[1 + i] == "---";
    }
  }

  lemma {:induction false} BlanksAfter(before: seq<string>, n: nat, rest: seq<string>)
    requires rest != [] ==> rest[0] != ""
    ensures SkipBlank(before + Blank(n) + rest, |before|) == |before| + n
  {
    var lines := before + Blank(n) + rest;
    forall k | |before| <= k < |before| + n
      ensures lines[k] == ""
    {
      assert lines[k] == Blank(n)[k - |before|];
    }
    assert rest != [] ==> lines[|before| + n] == rest[0];
    SkipBlankIs(lines, |before|, |before| + n);
  }

  lemma {:induction false} HeadingLineIsFull(line: string)
    requires HeadingLine(line)
    ensures line != "" && line != "---"
  {
  }

  /** A front and a heading are found where they are laid out. */
  lemma {:induction false} HeadingFound(front: seq<string>, heading: string, rest: seq<string>)
    requires IsFront(front) && HeadingLine(heading)
    ensures HeadingIndex(front + [heading] + rest) == Ok(|front|)
  {
    var lines := front + [heading] + rest;
    HeadingLineIsFull(heading);
    if front == [] {
      assert lines[0] == heading;
    } else {
      var body: seq<string>, n: nat :| Frontmatter(front, body, n);
      FrontmatterPassed(body, n, [heading] + rest);
      assert lines == ["---"] + body + ["---"] + Blank(n) + ([heading] + rest);
    }
  }

  lemma {:induction false} FrontmatterPassed(body: seq<string>, n: nat, rest: seq<string>)
    requires "---" !in body && rest != [] && rest[0] != ""
    ensures HeadingIndex(["---"] + body + ["---"] + Blank(n) + rest) == Ok(2 + |body| + n)
  {
    var lines, front := ["---"] + body + ["---"] + Blank(n) + rest, ["---"] + body + ["---"];
    assert lines == front + (Blank(n) + rest) == front + Blank(n) + rest;
    RuleAfter(body, Blank(n) + rest, 0);
    BlanksAfter(front, n, rest);
    assert lines[0] == "---";
    hide FindRule, SkipBlank;
  }

  /** The content is found where it is laid out. */
  lemma {:induction false} ContentFound(l: Layout)
    requires IsLayout(l)
    ensures var lines, h := LayoutLines(l), |l.front|;
            ContentStart(lines, h) == |lines| - |l.content|
  {
    var lines, before := LayoutLines(l), l.front + [l.heading];
    hide IsFront, HeadingLine, SwitcherLine, IsSwitcher, SkipBlank;
    if l.previous == [] {
      assert Blank(l.below) == [] && lines == before + Blank(l.above) + l.content;
      BlanksAfter(before, l.above, l.content);
      StaysAt(lines, |before| + l.above, l.content);
    } else {
      var line := l.previous[0];
      assert l.previous == [line];
      SwitcherIsExact(line);
      SwitcherIsFull(line);
      assert lines == before + Blank(l.above) + ([line] + Blank(l.below) + l.content);
      BlanksAfter(before, l.above, [line] + Blank(l.below) + l.content);
      assert lines[|before| + l.above] == line;
      assert lines == (before + Blank(l.above) + [line]) + Blank(l.below) + l.content;
      BlanksAfter(before + Blank(l.above) + [line], l.below, l.content);
    }
  }

  /** Content that is no switcher is left alone. */
  lemma {:induction false} StaysAt(lines: seq<string>, c: nat, content: seq<string>)
    requires c <= |lines| && lines[c..] == content
    requires content != [] ==> content[0] != "" && !SwitcherLine(content[0])
    ensures SkipBlank(lines, c) == c && (c < |lines| ==> !IsSwitcher(lines[c]))
  {
    if c < |lines| {
      assert lines[c] == content[0];
      SwitcherIsExact(lines[c]);
    }
  }

  lemma {:induction false} SwitcherIsFull(line: string)
    requires SwitcherLine(line)
    ensures line != ""
  {
  }

  /** Every document that is laid out so is accepted, and its parts are kept. */
  lemma {:induction false} LayoutCorrected(l: Layout, switcher: string)
    requires IsLayout(l)
    ensures CorrectLines(LayoutLines(l), switcher) == Ok(Corrected(l, switcher))
  {
    hide IsFront, HeadingLine, ContentStart, HeadingIndex;
    var rest := Blank(l.above) + l.previous + Blank(l.below) + l.content;
    var lines := LayoutLines(l);
    assert lines == l.front + [l.heading] + rest;
    HeadingFound(l.front, l.heading, rest);
    HeadingIsExact(l.heading);
    ContentFound(l);
    assert lines[|l.front|] == l.heading;
    assert lines[..|l.front| + 1] == l.front + [l.heading];
    assert lines[|lines| - |l.content|..] == l.content;
    assert (l.front + [l.heading]) + ["", switcher] == l.front + [l.heading, "", switcher];
  }

  // ---- Every accepted document has a layout ----

  lemma {:induction false} BlanksFound(lines: seq<string>, i: nat)
    requires i <= |lines|
    ensures var j := SkipBlank(lines, i); lines[i..j] == Blank(j - i) && (j < |lines| ==> lines[j] != "")
  {
    SkipBlankSpec(lines, i);
  }

  lemma {:induction false} RuleFound(lines: seq<string>, i: nat)
    requires i <= |lines|
    ensures var j := FindRule(lines, i); "---" !in lines[i..j] && (j < |lines| ==> lines[j] == "---")
    decreases |lines| - i
  {
    if i < |lines| && lines[i] != "---" {
      RuleFound(lines, i + 1);
      assert lines[i..FindRule(lines, i)] == [lines[i]] + lines[i + 1..FindRule(lines, i)];
    }
  }

  lemma {:induction false} FrontFound(lines: seq<string>)
    ensures var h := HeadingIndex(lines); h.Ok? ==> h.value <= |lines| && IsFront(lines[..h.value])
    ensures HeadingIndex(lines).Err? <==> lines != [] && lines[0] == "---" && "---" !in lines[1..]
  {
    if lines != [] && lines[0] == "---" {
      var end := FindRule(lines, 1);
      RuleFound(lines, 1);
      if end < |lines| {
        var h := SkipBlank(lines, end + 1);
        BlanksFound(lines, end + 1);
        assert lines[..h] == ["---"] + lines[1..end] + ["---"] + lines[end + 1..h];
        assert Frontmatter(lines[..h], lines[1..end], h - end - 1);
        assert lines[1..][end - 1] == "---";
      } else {
        assert lines[1..end] == lines[1..];
      }
    }
  }

  lemma {:induction false} LayoutFound(lines: seq<string>, switcher: string) returns (l: Layout)
    requires CorrectLines(lines, switcher).Ok?
    ensures IsLayout(l) && LayoutLines(l) == lines
  {
    var h := HeadingIndex(lines).value;
    FrontFound(lines);
    HeadingIsExact(lines[h]);
    hide HeadingLine, IsHeading, IsFront, HeadingIndex, SwitcherLine, ContentStart;
    l := LayoutFrom(lines, h);
  }

  lemma {:induction false} LayoutFrom(lines: seq<string>, h: nat) returns (l: Layout)
    requires h < |lines| && IsFront(lines[..h]) && HeadingLine(lines[h])
    ensures IsLayout(l) && LayoutLines(l) == lines
  {
    var c := SkipBlank(lines, h + 1);
    BlanksFound(lines, h + 1);
    hide HeadingLine, IsFront, SwitcherLine, SkipBlank;
    if c < |lines| && SwitcherLine(lines[c]) {
      l := WithSwitcher(lines, h, c);
    } else {
      l := Layout(lines[..h], lines[h], c - h - 1, [], 0, lines[c..]);
      FourParts(lines, h, c);
    }
  }

  lemma {:induction false} WithSwitcher(lines: seq<string>, h: nat, c: nat) returns (l: Layout)
    requires h < c < |lines| && IsFront(lines[..h]) && HeadingLine(lines[h]) && SwitcherLine(lines[c])
    requires lines[h + 1..c] == Blank(c - h - 1)
    ensures IsLayout(l) && LayoutLines(l) == lines
  {
    var e := SkipBlank(lines, c + 1);
    BlanksFound(lines, c + 1);
    hide HeadingLine, IsFront, SwitcherLine, SkipBlank;
    l := Layout(lines[..h], lines[h], c - h - 1, [lines[c]], e - c - 1, lines[e..]);
    SixParts(lines, h, c, e);
  }

  lemma {:induction false} SixParts(lines: seq<string>, h: nat, c: nat, e: nat)
    requires h < c < e <= |lines|
    ensures lines == lines[..h] + [lines[h]] + lines[h + 1..c] + [lines[c]] + lines[c + 1..e] + lines[e..]
  {
  }

  lemma {:induction false} FourParts(lines: seq<string>, h: nat, c: nat)
    requires h < c <= |lines|
    ensures lines == lines[..h] + [lines[h]] + lines[h + 1..c] + [] + Blank(0) + lines[c..]
  {
  }

  /** A document is accepted exactly when it has a layout, and comes back with only its switcher changed. */
  ghost predicate CorrectedFrom(lines: seq<string>, switcher: string, result: seq<string>) {
    exists l: Layout :: IsLayout(l) && LayoutLines(l) == lines && result == Corrected(l, switcher)
  }

  lemma {:induction false} CorrectionIsExact(lines: seq<string>, switcher: string, result: seq<string>)
    ensures CorrectLines(lines, switcher) == Ok(result) <==> CorrectedFrom(lines, switcher, result)
    ensures CorrectLines(lines, switcher) == Err(UnterminatedFrontmatter) <==>
            lines != [] && lines[0] == "---" && "---" !in lines[1..]
  {
    FrontFound(lines);
    hide IsLayout, LayoutLines, Corrected;
    if CorrectLines(lines, switcher).Ok? {
      var l := LayoutFound(lines, switcher);
      LayoutCorrected(l, switcher);
    }
    if l: Layout :| IsLayout(l) && LayoutLines(l) == lines && result == Corrected(l, switcher) {
      LayoutCorrected(l, switcher);
    }
  }

  // ---- No content is lost ----

  function Full(lines: seq<string>): seq<string> {
    if lines == [] then [] else (if lines[0] == "" then [] else [lines[0]]) + Full(lines[1..])
  }

  lemma {:induction false} FullConcat(a: seq<string>, b: seq<string>)
    ensures Full(a + b) == Full(a) + Full(b)
  {
    if a == [] {
      assert a + b == b;
    } else {
      assert (a + b)[1..] == a[1..] + b;
      FullConcat(a[1..], b);
    }
  }

  lemma {:induction false} FullOne(line: string)
    ensures Full([line]) == if line == "" then [] else [line]
  {
    assert [line][1..] == [];
  }

  lemma {:induction false} FullBlank(n: nat)
    ensures Full(Blank(n)) == []
  {
    if n > 0 {
      assert Blank(n)[1..] == Blank(n - 1);
      FullBlank(n - 1);
    }
  }

  /**
   * The nonblank lines of the result are those of the document, with the switcher below the heading in the
   * place of at most one line, itself a switcher.
   */
  lemma {:induction false} ContentSurvives(lines: seq<string>, switcher: string)
    returns (before: seq<string>, heading: string, removed: seq<string>, after: seq<string>)
    requires switcher != "" && CorrectLines(lines, switcher).Ok?
    ensures HeadingLine(heading) && |removed| <= 1 && forall k :: 0 <= k < |removed| ==> SwitcherLine(removed[k])
    ensures Full(lines) == before + [heading] + removed + after
    ensures Full(CorrectLines(lines, switcher).value) == before + [heading, switcher] + after
  {
    var l := LayoutFound(lines, switcher);
    LayoutCorrected(l, switcher);
    HeadingLineIsFull(l.heading);
    before, heading, removed, after := Full(l.front), l.heading, l.previous, Full(l.content);
    PreviousIsFull(l);
    hide IsLayout, CorrectLines, HeadingLine, SwitcherLine, Full;
    FullLayout(l);
    FullCorrected(l, switcher);
  }

  lemma {:induction false} PreviousIsFull(l: Layout)
    requires IsLayout(l)
    ensures |l.previous| <= 1 && forall k :: 0 <= k < |l.previous| ==> SwitcherLine(l.previous[k])
    ensures Full(l.previous) == l.previous
  {
    if l.previous != [] {
      FullOne(l.previous[0]);
      assert l.previous == [l.previous[0]];
    }
  }

  lemma {:induction false} FullLayout(l: Layout)
    requires l.heading != "" && Full(l.previous) == l.previous
    ensures Full(LayoutLines(l)) == Full(l.front) + [l.heading] + l.previous + Full(l.content)
  {
    hide Full;
    FullConcat(l.front + [l.heading] + Blank(l.above) + l.previous + Blank(l.below), l.content);
    FullConcat(l.front + [l.heading] + Blank(l.above) + l.previous, Blank(l.below));
    FullConcat(l.front + [l.heading] + Blank(l.above), l.previous);
    FullConcat(l.front + [l.heading], Blank(l.above));
    FullConcat(l.front, [l.heading]);
    FullBlank(l.above);
    FullBlank(l.below);
    FullOne(l.heading);
  }

  lemma {:induction false} FullCorrected(l: Layout, switcher: string)
    requires l.heading != "" && switcher != ""
    ensures Full(Corrected(l, switcher)) == Full(l.front) + [l.heading, switcher] + Full(l.content)
  {
    var end := if l.content == [] then [] else [""] + l.content;
    FullBehind(l.content);
    FullThree(l.heading, switcher);
    hide Full;
    FullConcat(l.front + [l.heading, "", switcher], end);
    FullConcat(l.front, [l.heading, "", switcher]);
  }

  lemma {:induction false} FullBehind(content: seq<string>)
    ensures Full(if content == [] then [] else [""] + content) == Full(content)
  {
    assert ([""] + content)[1..] == content;
  }

  lemma {:induction false} FullThree(heading: string, switcher: string)
    requires heading != "" && switcher != ""
    ensures Full([heading, "", switcher]) == [heading, switcher]
  {
    FullOne(heading);
    FullOne("");
    FullOne(switcher);
    hide Full;
    assert [heading, "", switcher] == [heading] + [""] + [switcher];
    FullConcat([heading] + [""], [switcher]);
    FullConcat([heading], [""]);
  }
}
