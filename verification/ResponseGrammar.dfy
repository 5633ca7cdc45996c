/** What the response parser accepts, what it makes of it and which error it reports, told by the text alone. */
module ResponseGrammar {
  import opened Outcomes
  import opened Text
  import opened Whitespace
  import opened ResponseText
  import opened TranslationResponse
  import opened ResponseRoundTrip
  import opened ResponseStability

  // ---- Lines and matches ----

  /** The text stands on one line and on no other. */
  ghost predicate OnlyLine(lines: seq<string>, line: string) {
    exists k :: IsOnly(lines, line, k)
  }

  predicate IsOnly(lines: seq<string>, line: string, k: int) {
    0 <= k < |lines| && lines[k] == line && forall j :: 0 <= j < |lines| && j != k ==> lines[j] != line
  }

  lemma {:induction false} CountIsExact(lines: seq<string>, line: string)
    ensures Count(lines, line) == 0 <==> line !in lines
    ensures Count(lines, line) == 1 <==> OnlyLine(lines, line)
  {
    if lines != [] {
      var rest := lines[1..];
      CountIsExact(rest, line);
      assert lines == [lines[0]] + rest;
      assert forall k :: 0 < k < |lines| ==> lines[k] == rest[k - 1];
      if lines[0] == line && line !in rest {
        assert IsOnly(lines, line, 0);
      }
      if k :| IsOnly(rest, line, k) {
        assert lines[0] != line ==> IsOnly(lines, line, k + 1);
      }
      if k :| IsOnly(lines, line, k) {
        assert k > 0 ==> IsOnly(rest, line, k - 1);
        assert k == 0 ==> forall j :: 0 <= j < |rest| ==> rest[j] == lines[j + 1] != line;
      }
    }
  }

  /** The first place where the text stands between line terminators. */
  ghost predicate FirstMatch(s: string, pat: string, at: nat) {
    MatchAt(s, at, pat) && forall i :: MatchAt(s, i, pat) ==> at <= i
  }

  lemma {:induction false} SearchIsExact(s: string, pat: string, at: nat)
    requires OneLine(pat)
    ensures Search(s, pat) == Some(at) <==> FirstMatch(s, pat, at)
  {
    SearchIsFirstMatch(s, pat);
    hide MatchAt, Search;
    if FirstMatch(s, pat, at) {
      assert MatchAt(s, at, pat);
      assert Search(s, pat).Some?;
      assert MatchAt(s, Search(s, pat).value, pat);
    }
  }

  // ---- One section ----

  /** The text between the tags without the newline behind the open tag and the one before the close tag. */
  predicate IsContent(inner: string, content: string) {
    if inner == "\n" then content == ""
    else
      var behind := if inner != "" && inner[0] == '\n' then inner[1..] else inner;
      content == if behind != "" && behind[|behind| - 1] == '\n' then behind[..|behind| - 1] else behind
  }

  /** A section's tags stand on one line each, where they are first found, the open tag where it belongs. */
  ghost predicate SectionAt(body: string, i: nat, open: string, close: string, previous: nat, o: nat, c: nat) {
    && OnlyLine(Split(body, '\n'), open) && OnlyLine(Split(body, '\n'), close)
    && FirstMatch(body, open, o) && FirstMatch(body, close, c) && o <= c
    && (if i == 0 then o <= previous else previous < o && forall k :: previous <= k < o ==> body[k] == '\n')
  }

  /** The value of such a section, and where it ends. */
  ghost predicate SectionGives(body: string, open: string, close: string, o: nat, c: nat, value: string, end: nat) {
    && o + |open| <= c <= |body| && end == c + |close|
    && exists content: string :: IsContent(body[o + |open|..c], content) && value == UnescapeBody(content)
  }

  lemma {:induction false} ContentIsExact(body: string, openEnd: nat, c: nat)
    requires openEnd < c <= |body|
    ensures IsContent(body[openEnd..c], Content(body, openEnd, c))
  {
    var inner := body[openEnd..c];
    var n := |inner|;
    assert inner[0] == body[openEnd] && inner[n - 1] == body[c - 1];
    if inner != "\n" {
      if inner[0] == '\n' {
        assert n > 1 by {
          assert n == 1 ==> inner == "\n";
        }
        assert inner[1..][n - 2] == inner[n - 1];
        assert inner[1..][..n - 2] == inner[1..n - 1];
        Within(body, openEnd, c, 1, n - 1);
        Within(body, openEnd, c, 1, n);
      } else {
        Within(body, openEnd, c, 0, n - 1);
      }
    }
  }

  lemma {:induction false} Within(s: string, a: nat, b: nat, i: nat, j: nat)
    requires a <= b <= |s| && i <= j <= b - a
    ensures s[a..b][i..j] == s[a + i..a + j]
  {
    assert s[a..b][..j] == s[a..a + j];
    assert s[a..b][i..j] == s[a..b][..j][i..];
    assert s[a..a + j][i..] == s[a + i..a + j];
  }

  lemma {:induction false} OneContent(inner: string, a: string, b: string)
    requires IsContent(inner, a) && IsContent(inner, b)
    ensures a == b
  {
  }

  lemma {:induction false} SeparatorIsExact(body: string, i: nat, previous: nat, o: nat)
    requires previous <= |body| && o <= |body|
    ensures GoodSeparator(body, i, previous, o) <==>
      if i == 0 then o <= previous else previous < o && forall k :: previous <= k < o ==> body[k] == '\n'
  {
    var separator := Slice(body, previous, o);
    if previous < o {
      assert separator == body[previous..o];
      assert forall k :: previous <= k < o ==> body[k] == separator[k - previous];
    }
  }

  /** Where a section's tags are. */
  ghost predicate TagsFound(body: string, open: string, close: string, o: nat, c: nat) {
    && OnlyLine(Split(body, '\n'), open) && OnlyLine(Split(body, '\n'), close)
    && FirstMatch(body, open, o) && FirstMatch(body, close, c)
  }

  lemma {:induction false} LocateIsExact(body: string, i: nat, open: string, close: string, o: nat, c: nat)
    requires OneLine(open) && OneLine(close)
    ensures Locate(body, i, open, close) == Ok((o, c)) <==> TagsFound(body, open, close, o, c)
  {
    var lines := Split(body, '\n');
    CountIsExact(lines, open);
    CountIsExact(lines, close);
    SearchIsExact(body, open, o);
    SearchIsExact(body, close, c);
    hide Count, OnlyLine, FirstMatch, Search, Split, OneLine;
  }

  /** A section is accepted exactly when its tags are where they belong, and gives the text between them. */
  lemma {:induction false} SectionIsExact(body: string, i: nat, previous: nat, value: string, end: nat)
    requires i < 3 && previous <= |body|
    ensures ParseSection(body, i, previous) == Ok((value, end)) <==> Section(body, i, previous, value, end)
  {
    var open, close := OpenTag(i), CloseTag(i);
    TagShape(i);
    hide UnescapeBody, Content, OneLine, OpenTag, CloseTag, Search, Locate, GoodSeparator, OnlyLine, FirstMatch;
    if ParseSection(body, i, previous) == Ok((value, end)) {
      var (o, c) := Locate(body, i, open, close).value;
      SectionParsed(body, i, open, close, previous, o, c, value, end);
    }
    if o: nat, c: nat :| SectionAt(body, i, open, close, previous, o, c)
                         && SectionGives(body, open, close, o, c, value, end) {
      SectionAccepted(body, i, open, close, previous, o, c, value, end);
    }
  }

  ghost predicate Section(body: string, i: nat, previous: nat, value: string, end: nat)
    requires i < 3
  {
    exists o: nat, c: nat :: SectionAt(body, i, OpenTag(i), CloseTag(i), previous, o, c)
                             && SectionGives(body, OpenTag(i), CloseTag(i), o, c, value, end)
  }

  /** The two tags of a section: each on one line, and one is no part of the other. */
  predicate Tags(open: string, close: string) {
    OneLine(open) && OneLine(close) && |open| > 1 && |close| > 1 && open[1] != close[1]
  }

  lemma {:induction false} FoundApart(body: string, open: string, close: string, o: nat, c: nat)
    requires Tags(open, close) && FirstMatch(body, open, o) && FirstMatch(body, close, c) && o <= c
    ensures o + |open| < c && c + |close| <= |body|
  {
    SearchIsExact(body, open, o);
    SearchIsExact(body, close, c);
    hide Search, FirstMatch, OneLine;
    TagsApart(body, open, close);
  }

  lemma {:induction false} SectionParsed(body: string, i: nat, open: string, close: string, previous: nat, o: nat,
                                         c: nat, value: string, end: nat)
    requires Tags(open, close) && previous <= |body| && Locate(body, i, open, close) == Ok((o, c))
    requires ParseBetween(body, i, open, close, previous) == Ok((value, end))
    ensures SectionAt(body, i, open, close, previous, o, c) && SectionGives(body, open, close, o, c, value, end)
  {
    hide UnescapeBody, Content, OneLine, GoodSeparator, OnlyLine, FirstMatch, Locate, IsContent;
    LocateIsExact(body, i, open, close, o, c);
    FoundApart(body, open, close, o, c);
    SeparatorIsExact(body, i, previous, o);
    ContentIsExact(body, o + |open|, c);
  }

  lemma {:induction false} SectionAccepted(body: string, i: nat, open: string, close: string, previous: nat, o: nat,
                                           c: nat, value: string, end: nat)
    requires Tags(open, close) && previous <= |body|
    requires SectionAt(body, i, open, close, previous, o, c) && SectionGives(body, open, close, o, c, value, end)
    ensures ParseBetween(body, i, open, close, previous) == Ok((value, end))
  {
    hide UnescapeBody, Content, OneLine, GoodSeparator, OnlyLine, FirstMatch, Locate, IsContent;
    LocateIsExact(body, i, open, close, o, c);
    FoundApart(body, open, close, o, c);
    SeparatorIsExact(body, i, previous, o);
    ContentIsExact(body, o + |open|, c);
    var content: string :| IsContent(body[o + |open|..c], content) && value == UnescapeBody(content);
    OneContent(body[o + |open|..c], content, Content(body, o + |open|, c));
  }

  // ---- The whole response ----

  /** The three sections, one after the other, and nothing else. */
  ghost predicate IsResponse(body: string, r: Response) {
    exists end0: nat, end1: nat ::
      Section(body, 0, 0, r.translation, end0) && Section(body, 1, end0, r.review, end1)
      && Section(body, 2, end1, r.final, |body|)
  }

  lemma {:induction false} SectionEnds(body: string, i: nat, previous: nat, value: string, end: nat)
    requires i < 3 && Section(body, i, previous, value, end)
    ensures end <= |body|
  {
    TagShape(i);
    hide OneLine, OpenTag, CloseTag, OnlyLine;
    var o: nat, c: nat :| SectionAt(body, i, OpenTag(i), CloseTag(i), previous, o, c)
                          && SectionGives(body, OpenTag(i), CloseTag(i), o, c, value, end);
    FoundApart(body, OpenTag(i), CloseTag(i), o, c);
  }

  /** A text without wrapper is accepted exactly when it is three sections. */
  lemma {:induction false} ParseBodyIsExact(body: string, r: Response)
    ensures ParseBody(body) == Ok(r) <==> IsResponse(body, r)
  {
    hide ParseSection, Section;
    if ParseBody(body) == Ok(r) {
      BodyParsed(body, r);
    }
    if end0: nat, end1: nat :|
      Section(body, 0, 0, r.translation, end0) && Section(body, 1, end0, r.review, end1)
      && Section(body, 2, end1, r.final, |body|) {
      SectionEnds(body, 0, 0, r.translation, end0);
      SectionEnds(body, 1, end0, r.review, end1);
      SectionIsExact(body, 0, 0, r.translation, end0);
      SectionIsExact(body, 1, end0, r.review, end1);
      SectionIsExact(body, 2, end1, r.final, |body|);
    }
  }

  lemma {:induction false} BodyParsed(body: string, r: Response)
    requires ParseBody(body) == Ok(r)
    ensures IsResponse(body, r)
  {
    hide ParseSection, Section;
    var (translation, end0) := ParseSection(body, 0, 0).value;
    SectionIsExact(body, 0, 0, translation, end0);
    SectionEnds(body, 0, 0, translation, end0);
    var (review, end1) := ParseSection(body, 1, end0).value;
    SectionIsExact(body, 1, end0, review, end1);
    SectionEnds(body, 1, end0, review, end1);
    var (final, end2) := ParseSection(body, 2, end1).value;
    SectionIsExact(body, 2, end1, final, end2);
  }

  /** What a section that is not accepted is reported for. */
  lemma {:induction false} SectionErrors(body: string, i: nat, previous: nat)
    requires i < 3
    ensures var lines, parsed := Split(body, '\n'), ParseSection(body, i, previous);
            && (parsed == Err(MissingSection(i)) <==> OpenTag(i) !in lines || CloseTag(i) !in lines)
            && (parsed == Err(DuplicateSection(i)) <==>
                  && OpenTag(i) in lines && CloseTag(i) in lines
                  && !(OnlyLine(lines, OpenTag(i)) && OnlyLine(lines, CloseTag(i))))
            && (parsed.Err? ==> parsed.error in {MissingSection(i), DuplicateSection(i), OutOfOrder(i)})
  {
    var lines := Split(body, '\n');
    CountIsExact(lines, OpenTag(i));
    CountIsExact(lines, CloseTag(i));
    hide Count, OnlyLine, Search, GoodSeparator, Content, UnescapeBody, OpenTag, CloseTag;
  }

  /** The first section that is not accepted decides the error; what is behind the last is an error of its own. */
  lemma {:induction false} BodyErrors(body: string)
    ensures var first := ParseSection(body, 0, 0);
            && (first.Err? ==> ParseBody(body) == Err(first.error))
            && (first.Ok? ==>
                  var second := ParseSection(body, 1, first.value.1);
                  && (second.Err? ==> ParseBody(body) == Err(second.error))
                  && (second.Ok? ==>
                        var third := ParseSection(body, 2, second.value.1);
                        && (third.Err? ==> ParseBody(body) == Err(third.error))
                        && (third.Ok? && third.value.1 != |body| ==> ParseBody(body) == Err(OutsideSections))))
  {
    hide ParseSection;
  }

  // ---- Tags and wrapper ----

  lemma {:induction false} DelimiterIsExact(line: string)
    ensures IsDelimiter(line) <==>
      line in {"<translation>", "</translation>", "<review>", "</review>", "<final>", "</final>"}
    ensures OpenTag(0) == "<translation>" && OpenTag(1) == "<review>" && OpenTag(2) == "<final>"
    ensures CloseTag(0) == "</translation>" && CloseTag(1) == "</review>" && CloseTag(2) == "</final>"
  {
    assert OpenTag(0) == "<translation>" && OpenTag(1) == "<review>" && OpenTag(2) == "<final>";
    assert CloseTag(0) == "</translation>" && CloseTag(1) == "</review>" && CloseTag(2) == "</final>";
    hide OpenTag, CloseTag;
    if line == OpenTag(0) || line == CloseTag(0) {
    } else if line == OpenTag(1) || line == CloseTag(1) {
    } else if line == OpenTag(2) || line == CloseTag(2) {
    }
  }

  /** A text in a fence, with or without a language. */
  ghost predicate InFence(s: string, inner: string) {
    s == "```\n" + inner + "\n```" || s == "```xml\n" + inner + "\n```"
  }

  /** One fence around the whole text is taken off, with whitespace inside it; any other text is left alone. */
  lemma {:induction false} UnfenceIsExact(s: string)
    ensures forall inner :: InFence(s, inner) ==> Unfence(s) == Trim(inner)
    ensures (forall inner :: !InFence(s, inner)) ==> Unfence(s) == s
  {
    hide Trim;
    forall inner | InFence(s, inner)
      ensures Unfence(s) == Trim(inner)
    {
      FenceTaken(s, inner);
    }
    if Fenced(s, XML_FENCE_OPEN) {
      assert s == XML_FENCE_OPEN + s[7..|s| - 4] + FENCE_CLOSE;
      assert InFence(s, s[7..|s| - 4]);
    } else if Fenced(s, FENCE_OPEN) {
      assert s == FENCE_OPEN + s[4..|s| - 4] + FENCE_CLOSE;
      assert InFence(s, s[4..|s| - 4]);
    }
  }

  lemma {:induction false} FenceTaken(s: string, inner: string)
    requires InFence(s, inner)
    ensures Unfence(s) == Trim(inner)
  {
    hide Trim;
    if s == "```xml\n" + inner + "\n```" {
      assert s[..7] == XML_FENCE_OPEN && s[7..|s| - 4] == inner && s[|s| - 4..] == FENCE_CLOSE;
    } else {
      assert s[3] == '\n' && XML_FENCE_OPEN[3] == 'x';
      assert s[..4] == FENCE_OPEN && s[4..|s| - 4] == inner && s[|s| - 4..] == FENCE_CLOSE;
    }
  }

  /** What the parser accepts: three sections, in a fence or not, with whitespace around. */
  lemma {:induction false} ParseIsExact(text: string, r: Response)
    ensures Parse(text) == Ok(r) <==> IsResponse(Unfence(Trim(text)), r)
  {
    hide ParseBody, IsResponse, Unfence, Trim;
    ParseBodyIsExact(Unfence(Trim(text)), r);
  }
}
