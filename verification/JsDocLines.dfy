/** The lines of a comment as they are written, and what the machine is fed of them. */
module JsDocLines {
  import opened Outcomes
  import opened Text
  import opened Whitespace
  import opened JsDoc

  // ---- One line ----

  /** What may stand before a line's text: nothing, a star, or a star and one whitespace character. */
  predicate IsMarker(marker: string, text: string) {
    if marker == "" then StartsFull(text) && (text == "" || text[0] != '*')
    else marker[0] == '*' && (if |marker| == 1 then StartsFull(text) else |marker| == 2 && IsSpace(marker[1]))
  }

  /** The line is whitespace, a marker, the text, and whitespace again; the text does not end in whitespace. */
  ghost predicate WrittenAs(line: string, text: string) {
    exists lead: string, marker: string, tail: string :: IsWriting(line, lead, marker, text, tail)
  }

  predicate IsWriting(line: string, lead: string, marker: string, text: string, tail: string) {
    && line == lead + marker + (text + tail)
    && AllSpace(lead) && AllSpace(tail) && EndsFull(text) && IsMarker(marker, text + tail)
  }

  lemma {:induction false} MarkerStripped(lead: string, marker: string, rest: string)
    requires AllSpace(lead) && IsMarker(marker, rest)
    ensures StripLine(lead + marker + rest) == TrimEnd(rest)
  {
    hide IsSpace;
    var a := marker + rest;
    assert StartsFull(a) by {
      assert marker != "" ==> a[0] == '*' && !IsSpace('*') by { StarIsFull(); }
    }
    assert lead + marker + rest == lead + a;
    TrimStartIs(lead, a);
    if marker == "" {
      assert a == rest;
    } else if |marker| == 1 {
      assert a[1..] == rest;
    } else {
      assert a[1] == marker[1] && a[2..] == rest;
    }
  }

  lemma {:induction false} StarIsFull()
    ensures !IsSpace('*')
  {
  }

  /** The text of a line is what is left of it when it is stripped. */
  lemma {:induction false} StripLineIsExact(line: string, text: string)
    ensures StripLine(line) == text <==> WrittenAs(line, text)
  {
    hide IsSpace;
    if lead: string, marker: string, tail: string :| IsWriting(line, lead, marker, text, tail) {
      MarkerStripped(lead, marker, text + tail);
      TrimEndIs(text, tail);
    }
    if StripLine(line) == text {
      hide IsWriting;
      var lead, marker, tail := Writing(line);
      assert IsWriting(line, lead, marker, text, tail);
    }
  }

  lemma {:induction false} Writing(line: string) returns (lead: string, marker: string, tail: string)
    ensures IsWriting(line, lead, marker, StripLine(line), tail)
  {
    lead := TrimStartCuts(line);
    var a := TrimStart(line);
    marker := MarkerOf(a);
    var rest := a[|marker|..];
    tail := TrimEndCuts(rest);
    hide IsSpace, AllSpace, TrimStart, TrimEnd, StartsFull, EndsFull, IsMarker, StripLine;
    assert lead + a == lead + marker + rest;
    MarkerStripped(lead, marker, rest);
  }

  lemma {:induction false} MarkerOf(a: string) returns (marker: string)
    requires StartsFull(a)
    ensures |marker| <= |a| && a == marker + a[|marker|..] && IsMarker(marker, a[|marker|..])
  {
    hide IsSpace;
    if a == "" || a[0] != '*' {
      marker := "";
    } else if |a| > 1 && IsSpace(a[1]) {
      marker := a[..2];
    } else {
      marker := a[..1];
    }
  }

  // ---- The whole comment ----

  lemma {:induction false} StripLinesAt(lines: seq<string>, k: nat)
    requires k < |lines|
    ensures |StripLines(lines)| == |lines| && StripLines(lines)[k] == StripLine(lines[k])
    decreases k
  {
    StripLinesLength(lines);
    if k > 0 {
      StripLinesAt(lines[1..], k - 1);
    }
  }

  lemma {:induction false} StripLinesLength(lines: seq<string>)
    ensures |StripLines(lines)| == |lines|
  {
    if lines != [] {
      StripLinesLength(lines[1..]);
    }
  }

  /** The inner lines of a comment are the texts of the lines between its delimiters. */
  lemma {:induction false} InnerLinesOfComment(lines: seq<string>)
    requires lines != [] && forall k :: 0 <= k < |lines| ==> '\n' !in lines[k]
    ensures var inner := InnerLines("/**" + Join(lines, "\n") + "*/");
            |inner| == |lines| && forall k :: 0 <= k < |lines| ==> WrittenAs(lines[k], inner[k])
  {
    var body := Join(lines, "\n");
    var raw := "/**" + body + "*/";
    assert raw[..3] == "/**" && raw[3..] == body + "*/";
    assert (body + "*/")[|body|..] == "*/" && (body + "*/")[..|body|] == body;
    SplitJoin(lines, '\n');
    var inner := StripLines(lines);
    assert InnerLines(raw) == inner;
    StripLinesLength(lines);
    hide WrittenAs, StripLine, StripLines, InnerLines;
    forall k | 0 <= k < |lines|
      ensures WrittenAs(lines[k], inner[k])
    {
      StripLinesAt(lines, k);
      StripLineIsExact(lines[k], inner[k]);
    }
  }

  // ---- Tags ----

  /** A block tag: an at sign, possibly behind whitespace. */
  ghost predicate TagLine(line: string) {
    exists lead: string, rest: string :: AllSpace(lead) && line == lead + "@" + rest
  }

  lemma {:induction false} AtIsFull()
    ensures !IsSpace('@') && !IsSpace('m')
  {
  }

  lemma {:induction false} TagIsExact(line: string)
    ensures IsTag(line) <==> TagLine(line)
  {
    if IsTag(line) {
      var lead := TrimStartCuts(line);
      TagCut(line, lead, TrimStart(line));
    }
    if lead: string, rest: string :| AllSpace(lead) && line == lead + "@" + rest {
      TagFound(line, lead, rest);
    }
  }

  lemma {:induction false} TagCut(line: string, lead: string, t: string)
    requires AllSpace(lead) && line == lead + t && t != "" && t[0] == '@'
    ensures TagLine(line)
  {
    hide AllSpace;
    assert line == lead + "@" + t[1..];
  }

  lemma {:induction false} TagFound(line: string, lead: string, rest: string)
    requires AllSpace(lead) && line == lead + "@" + rest
    ensures IsTag(line)
  {
    AtIsFull();
    hide IsSpace, TrimStart;
    assert line == lead + ("@" + rest);
    TrimStartIs(lead, "@" + rest);
  }

  /** The tag `@mode`, not followed by a letter, a digit or an underscore. */
  ghost predicate ModeTagLine(line: string) {
    exists lead: string, rest: string ::
      AllSpace(lead) && line == lead + ("@mode" + rest) && (rest == "" || !IsWordChar(rest[0]))
  }

  lemma {:induction false} ModeTagIsExact(line: string)
    ensures IsModeTag(line) <==> ModeTagLine(line)
  {
    AtIsFull();
    hide IsSpace, TrimStart, IsWordChar;
    if IsModeTag(line) {
      var lead := TrimStartCuts(line);
      var rest := TrimStart(line)[5..];
      assert TrimStart(line) == "@mode" + rest;
      assert AllSpace(lead) && line == lead + ("@mode" + rest);
    }
    if lead: string, rest: string :|
      AllSpace(lead) && line == lead + ("@mode" + rest) && (rest == "" || !IsWordChar(rest[0])) {
      var t := "@mode" + rest;
      TrimStartIs(lead, t);
      assert t[..5] == "@mode" && t[5..] == rest;
    }
  }

  predicate Names(name: string, mode: Mode) {
    match mode
    case Emit => name == "emit"
    case Waterfall => name == "waterfall"
    case Parallel => name == "parallel"
    case Serial => name == "serial"
    case Bail => name == "bail"
  }

  /** A mode tag with a mode's name and nothing else but whitespace. */
  ghost predicate ModeLine(line: string, mode: Mode) {
    exists lead: string, gap: string, name: string, tail: string ::
      IsModeLine(line, mode, lead, gap, name, tail)
  }

  predicate IsModeLine(line: string, mode: Mode, lead: string, gap: string, name: string, tail: string) {
    && AllSpace(lead) && gap != "" && AllSpace(gap) && AllSpace(tail) && Names(name, mode)
    && line == lead + ("@mode" + (gap + (name + tail)))
  }

  lemma {:induction false} NameIsFull(name: string, mode: Mode)
    requires Names(name, mode)
    ensures name != "" && StartsFull(name) && EndsFull(name) && ModeNamed(name) == Some(mode)
  {
  }

  lemma {:induction false} NamedMode(name: string)
    ensures ModeNamed(name).Some? ==> Names(name, ModeNamed(name).value)
  {
  }

  lemma {:induction false} ModeIsExact(line: string, mode: Mode)
    ensures ModeOf(line) == Some(mode) <==> ModeLine(line, mode)
  {
    hide IsSpace, ModeNamed, Names;
    if lead: string, gap: string, name: string, tail: string :| IsModeLine(line, mode, lead, gap, name, tail) {
      ModeFound(line, mode, lead, gap, name, tail);
    }
    if ModeOf(line) == Some(mode) {
      ModeTaken(line, mode);
    }
  }

  lemma {:induction false} ModeFound(line: string, mode: Mode, lead: string, gap: string, name: string, tail: string)
    requires IsModeLine(line, mode, lead, gap, name, tail)
    ensures ModeOf(line) == Some(mode)
  {
    AtIsFull();
    NameIsFull(name, mode);
    hide IsSpace, ModeNamed, Names, TrimStart, TrimEnd;
    var rest := gap + (name + tail);
    var t := "@mode" + rest;
    TrimStartIs(lead, t);
    assert t[5..] == rest && t[5] == rest[0] == gap[0] && t[..5] == "@mode";
    assert StartsFull(name + tail);
    TrimStartIs(gap, name + tail);
    TrimEndIs(name, tail);
  }

  lemma {:induction false} ModeTaken(line: string, mode: Mode)
    requires ModeOf(line) == Some(mode)
    ensures ModeLine(line, mode)
  {
    hide IsSpace, ModeNamed, Names, TrimStart, TrimEnd;
    var lead := TrimStartCuts(line);
    var t := TrimStart(line);
    var rest := t[5..];
    var gap := TrimStartCuts(rest);
    var tail := TrimEndCuts(TrimStart(rest));
    var name := Trim(rest);
    NamedMode(name);
    assert t == "@mode" + rest;
    NonemptyGap(rest, gap);
    assert IsModeLine(line, mode, lead, gap, name, tail);
  }

  lemma {:induction false} NonemptyGap(rest: string, gap: string)
    requires rest != "" && IsSpace(rest[0]) && rest == gap + TrimStart(rest) && StartsFull(TrimStart(rest))
    ensures gap != ""
  {
    hide IsSpace;
  }

  // ---- Items and blank lines ----

  /** An item is a dash and whitespace. */
  lemma {:induction false} ItemIsExact(line: string)
    ensures IsItem(line) <==> exists space: char, rest: string :: IsSpace(space) && line == "-" + ([space] + rest)
  {
    hide IsSpace;
    if IsItem(line) {
      assert line == "-" + ([line[1]] + line[2..]);
    }
  }

  /** A blank line is whitespace and nothing else. */
  lemma {:induction false} BlankIsExact(line: string)
    ensures IsBlank(line) <==> AllSpace(line)
  {
    hide IsSpace;
    TrimShows(line);
  }

  /** The prose is the lines before the first block tag. */
  lemma {:induction false} ProseIsExact(lines: seq<string>)
    ensures var n := |Prose(lines)|;
            && n <= |lines| && Prose(lines) == lines[..n] && (n < |lines| ==> TagLine(lines[n]))
            && forall k :: 0 <= k < n ==> !TagLine(lines[k])
  {
    hide IsTag, TagLine;
    if lines != [] {
      TagIsExact(lines[0]);
      if !IsTag(lines[0]) {
        var n := |Prose(lines[1..])|;
        ProseIsExact(lines[1..]);
        assert forall k :: 0 < k < n + 1 ==> lines[k] == lines[1..][k - 1];
      }
    }
  }

  /** The mode is that of the last line that names one. */
  lemma {:induction false} LastModeIsExact(lines: seq<string>, mode: Mode)
    ensures LastMode(lines) == Some(mode) <==> exists k :: LastNamed(lines, mode, k)
    ensures LastMode(lines).None? <==> forall k :: 0 <= k < |lines| ==> ModeOf(lines[k]).None?
  {
    hide ModeOf, ModeLine;
    if lines != [] {
      var rest := lines[1..];
      LastModeIsExact(rest, mode);
      assert forall k :: 0 < k < |lines| ==> lines[k] == rest[k - 1];
      ModeIsExact(lines[0], mode);
      if LastMode(lines) == Some(mode) {
        if LastMode(rest).Some? {
          var k :| LastNamed(rest, mode, k);
          assert LastNamed(lines, mode, k + 1);
        } else {
          assert LastNamed(lines, mode, 0);
        }
      }
      if k :| LastNamed(lines, mode, k) {
        if k > 0 {
          assert LastNamed(rest, mode, k - 1);
        } else {
          assert forall j :: 0 <= j < |rest| ==> ModeOf(rest[j]).None?;
        }
      }
    }
  }

  /** The line names this mode, and none behind it names any. */
  ghost predicate LastNamed(lines: seq<string>, mode: Mode, k: int) {
    0 <= k < |lines| && ModeLine(lines[k], mode) && forall j :: k < j < |lines| ==> ModeOf(lines[j]).None?
  }
}
