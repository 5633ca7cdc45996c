/** Consequences of the exact round trip: the documented protocol, its limit, and stability of parsed responses. */
module ResponseStability {
  import opened Outcomes
  import opened Text
  import opened ResponseText
  import opened TranslationResponse
  import opened Whitespace
  import opened ResponseRoundTrip
  import opened ResponseExactness

  // ---- Searching a text line by line ----

  /** A joined text has the line exactly when one of its parts has it. */
  lemma {:induction false} SearchAnyPart(parts: seq<string>, pat: string)
    requires parts != []
    ensures Search(Join(parts, "\n"), pat).Some? <==> exists k :: 0 <= k < |parts| && Search(parts[k], pat).Some?
  {
    SearchJoin(parts, pat);
    if |parts| > 1 {
      var rest := parts[1..];
      SearchAnyPart(rest, pat);
      if k :| 0 <= k < |rest| && Search(rest[k], pat).Some? {
        assert Search(parts[k + 1], pat).Some?;
      }
      if k :| 0 < k < |parts| && Search(parts[k], pat).Some? {
        assert rest[k - 1] == parts[k];
      }
    }
  }

  // ---- Bodies whose only line terminator is the newline ----

  predicate NewlinesOnly(s: string) {
    forall i :: 0 <= i < |s| && IsTerminator(s[i]) ==> s[i] == '\n'
  }

  lemma {:induction false} SplitKeepsChars(s: string, c: char, k: nat)
    requires k < |Split(s, c)|
    ensures forall x :: x in Split(s, c)[k] ==> x in s
    decreases |s|
  {
    var i := IndexOf(s, c);
    if i < |s| && k > 0 {
      SplitKeepsChars(s[i + 1..], c, k - 1);
    }
  }

  lemma {:induction false} PlainLine(value: string, k: nat)
    requires NewlinesOnly(value) && k < |Split(value, '\n')|
    ensures OneLine(Split(value, '\n')[k])
  {
    var line := Split(value, '\n')[k];
    SplitPieces(value, '\n', k);
    SplitKeepsChars(value, '\n', k);
    forall x | 0 <= x < |line|
      ensures !IsTerminator(line[x])
    {
      assert line[x] in value;
      var y :| 0 <= y < |value| && value[y] == line[x];
    }
  }

  lemma {:induction false} EscapedLineHasNoTag(line: string, tag: string)
    requires OneLine(line) && IsDelimiter(tag)
    ensures Search(EscapeLine(line), tag).None?
  {
    EscapeLineFacts(line);
    hide IsDelimiter;
    SearchOneLine(EscapeLine(line), tag);
  }

  lemma {:induction false} PlainBodyHasNoTag(value: string, tag: string)
    requires NewlinesOnly(value) && IsDelimiter(tag)
    ensures Search(EscapeBody(value), tag).None?
  {
    hide IsDelimiter, NewlinesOnly;
    var lines := Split(value, '\n');
    SearchAnyPart(EscapeLines(lines), tag);
    forall k | 0 <= k < |lines|
      ensures Search(EscapeLines(lines)[k], tag).None?
    {
      PlainLine(value, k);
      EscapeLinesFacts(lines, k);
      EscapedLineHasNoTag(lines[k], tag);
    }
  }

  lemma {:induction false} TagsAreDelimiters(i: nat)
    requires i < 3
    ensures IsDelimiter(OpenTag(i)) && IsDelimiter(CloseTag(i))
  {
  }

  lemma {:induction false} PlainIsClear(r: Response, i: nat)
    requires i < 3 && NewlinesOnly(r.translation) && NewlinesOnly(r.review) && NewlinesOnly(r.final)
    ensures Clear(EscapedBodies(r), i)
  {
    hide NewlinesOnly, EscapeBody, IsDelimiter, OpenTag, CloseTag;
    TagsAreDelimiters(i);
    PlainBodyHasNoTag(r.translation, OpenTag(i));
    PlainBodyHasNoTag(r.translation, CloseTag(i));
    PlainBodyHasNoTag(r.review, OpenTag(i));
    PlainBodyHasNoTag(r.review, CloseTag(i));
    PlainBodyHasNoTag(r.final, CloseTag(i));
  }

  /**
   * The documented protocol: every response whose bodies use no line terminator but the newline
   * round-trips, however many bare or backslashed delimiter lines they hold.
   */
  lemma {:induction false} PlainResponsesRoundTrip(r: Response)
    requires NewlinesOnly(r.translation) && NewlinesOnly(r.review) && NewlinesOnly(r.final)
    ensures Parse(Render(r)) == Ok(r)
  {
    hide *;
    forall i | 0 <= i < 3
      ensures Clear(EscapedBodies(r), i)
    {
      PlainIsClear(r, i);
    }
    FaithfulMeans(r);
    RoundTrip(r);
  }

  const HIDDEN_CLOSE: string := "a\r</translation>\rb"

  lemma {:induction false} NotADelimiter(line: string)
    requires line != [] && line[0] != '<'
    ensures !IsDelimiter(line)
  {
    forall i | 0 <= i < 3
      ensures line != OpenTag(i) && line != CloseTag(i)
    {
      TagShape(i);
    }
  }

  lemma {:induction false} HiddenCloseEscapesToItself()
    ensures EscapeBody(HIDDEN_CLOSE) == HIDDEN_CLOSE
  {
    hide IsDelimiter;
    SplitFirst(HIDDEN_CLOSE, '\n', "");
    NotADelimiter(HIDDEN_CLOSE);
    assert StripBackslashes(HIDDEN_CLOSE) == HIDDEN_CLOSE;
    var lines := [HIDDEN_CLOSE];
    assert EscapeLines(lines[1..]) == [];
    assert EscapeLines(lines) == lines;
  }

  lemma {:induction false} HiddenCloseIsExposed(tag: string)
    requires tag == "</translation>" && OneLine(tag)
    ensures Search(HIDDEN_CLOSE, tag).Some?
  {
    hide OneLine;
    assert MatchAt(HIDDEN_CLOSE, 2, tag);
    SearchNotLater(HIDDEN_CLOSE, tag, 2);
  }

  /** A carriage return hides a close tag from the escaper but not from the parser's search. */
  lemma {:induction false} CarriageReturnBreaksRoundTrip()
    ensures Parse(Render(Response(HIDDEN_CLOSE, "", ""))) != Ok(Response(HIDDEN_CLOSE, "", ""))
  {
    hide Parse, Render, EscapeBody, Search, OpenTag;
    TagShape(0);
    assert CloseTag(0) == "</translation>";
    hide CloseTag;
    HiddenCloseEscapesToItself();
    HiddenCloseIsExposed(CloseTag(0));
    var r := Response(HIDDEN_CLOSE, "", "");
    assert EscapedBodies(r)[0] == HIDDEN_CLOSE;
    assert !Clear(EscapedBodies(r), 0);
    FaithfulMeans(r);
    RoundTrip(r);
  }

  // ---- The fenced wrapper ----

  predicate Unpadded(s: string) {
    s != [] && !IsSpace(s[0]) && !IsSpace(s[|s| - 1])
  }

  lemma {:induction false} UnfenceWrapped(s: string, open: string)
    requires Unpadded(s) && (open == FENCE_OPEN || open == XML_FENCE_OPEN)
    ensures Unfence(Trim(open + s + FENCE_CLOSE)) == s
  {
    var text := open + s + FENCE_CLOSE;
    assert text[0] == '`' && text[|text| - 1] == '`';
    assert Trim(text) == text;
    assert text[|text| - 4..] == FENCE_CLOSE;
    assert text[|open|..|text| - 4] == s;
    assert text[3] == open[3];
    assert Trim(s) == s;
  }

  /** One fenced wrapper around a rendering changes nothing. */
  lemma {:induction false} FencedRenderingParsesAlike(r: Response, open: string)
    requires open == FENCE_OPEN || open == XML_FENCE_OPEN
    ensures Parse(open + Render(r) + FENCE_CLOSE) == Parse(Render(r))
  {
    hide *;
    var es := EscapedBodies(r);
    var text := Join(Pieces(es), "\n");
    RenderIsJoin(r);
    var at := LayoutOf(text, es);
    RenderingStandsAlone(text, at, es);
    RenderingIsUnpadded(text, at, es);
    UnfenceWrapped(text, open);
    ParseMeans(open + text + FENCE_CLOSE);
  }

  lemma {:induction false} ParseMeans(text: string)
    ensures Parse(text) == ParseBody(Unfence(Trim(text)))
  {
  }

  lemma {:induction false} RenderingIsUnpadded(text: string, at: seq<nat>, es: seq<string>)
    requires LaidOut(text, at, es)
    ensures Unpadded(text)
  {
    assert StandsAt(text, at, es, 0) && StandsAt(text, at, es, 10);
    TagShape(0);
    TagShape(2);
    assert text[0] == Piece(es, 0)[0] == '<';
    assert text[|text| - 1] == Piece(es, 10)[|Piece(es, 10)| - 1] == '>';
  }

  // ---- Whatever parses, renders to something that parses to the same ----

  /** Re-escaping an unescaped line exposes nothing that was not exposed before. */
  lemma {:induction false} ReescapedLine(line: string, tag: string)
    requires OneLine(tag) && tag != [] && tag[0] != '\\'
    ensures Search(EscapeLine(UnescapeLine(line)), tag).Some? ==> Search(line, tag).Some?
  {
    var again := EscapeLine(UnescapeLine(line));
    if again != line {
      BareDelimiter(line);
      SearchOneLine(again, tag);
    }
  }

  lemma {:induction false} BackslashedLine(line: string)
    requires line != [] && line[0] == '\\'
    ensures EscapeLine(UnescapeLine(line)) == line
  {
    assert StripBackslashes(line) == StripBackslashes(line[1..]);
    assert "\\" + line[1..] == line;
  }

  /** Re-escaping changes only bare delimiter lines. */
  lemma {:induction false} BareDelimiter(line: string)
    requires EscapeLine(UnescapeLine(line)) != line
    ensures EscapeLine(UnescapeLine(line)) == "\\" + line && OneLine("\\" + line)
  {
    if line == [] || line[0] != '\\' {
      StripIsSuffix(line);
      assert IsDelimiter(line);
      var i :| 0 <= i < 3 && (line == OpenTag(i) || line == CloseTag(i));
      TagShape(i);
    } else {
      BackslashedLine(line);
    }
  }

  lemma {:induction false} SplitUnescaped(value: string)
    ensures Split(UnescapeBody(value), '\n') == UnescapeLines(Split(value, '\n'))
  {
    var lines := Split(value, '\n');
    forall k | 0 <= k < |lines|
      ensures '\n' !in UnescapeLines(lines)[k]
    {
      EscapeLinesFacts(lines, k);
      SplitPieces(value, '\n', k);
    }
    SplitJoin(UnescapeLines(lines), '\n');
  }

  lemma {:induction false} ReescapedBody(value: string, tag: string)
    requires OneLine(tag) && tag != [] && tag[0] != '\\'
    requires Search(EscapeBody(UnescapeBody(value)), tag).Some?
    ensures Search(value, tag).Some?
  {
    hide EscapeLine, UnescapeLine, Search, OneLine;
    var lines := Split(value, '\n');
    SplitUnescaped(value);
    var again := EscapeLines(UnescapeLines(lines));
    SearchAnyPart(again, tag);
    var k :| 0 <= k < |again| && Search(again[k], tag).Some?;
    EscapeLinesFacts(lines, k);
    EscapeLinesFacts(UnescapeLines(lines), k);
    ReescapedLine(lines[k], tag);
    SearchAnyPart(lines, tag);
    JoinSplit(value, '\n');
  }

  /** A match holds its pattern's characters, no terminator among them. */
  lemma {:induction false} MatchChar(text: string, o: nat, pat: string, k: nat)
    requires MatchAt(text, o, pat) && OneLine(pat) && k < |pat|
    ensures text[o + k] == pat[k] && !IsTerminator(text[o + k])
  {
  }

  /** A nonempty content is a slice from the line boundary after the open tag to the one before the close tag. */
  lemma {:induction false} ContentSlice(text: string, openEnd: nat, c: nat) returns (start: nat, end: nat)
    requires openEnd < c < |text| && Content(text, openEnd, c) != ""
    ensures start <= end <= c && Content(text, openEnd, c) == text[start..end]
    ensures start == openEnd || (start == openEnd + 1 && text[openEnd] == '\n')
    ensures end == c || (end == c - 1 && text[end] == '\n')
  {
    start := if text[openEnd] == '\n' then openEnd + 1 else openEnd;
    end := if text[c - 1] == '\n' then c - 1 else c;
  }

  /** A match inside a slice cut at line boundaries is a match of the whole text. */
  lemma {:induction false} SliceMatch(text: string, start: nat, end: nat, tag: string, q: nat)
    requires start <= end <= |text| && MatchAt(text[start..end], q, tag)
    requires q > 0 || start == 0 || IsTerminator(text[start - 1])
    requires q + |tag| < end - start || end == |text| || IsTerminator(text[end])
    ensures MatchAt(text, start + q, tag)
  {
    var content := text[start..end];
    assert forall k {:trigger tag[k]} :: 0 <= k < |tag| ==> content[q + k] == text[start + q + k];
    assert q > 0 ==> content[q - 1] == text[start + q - 1];
    assert q + |tag| < |content| ==> content[q + |tag|] == text[start + q + |tag|];
  }

  /** A tag on a line inside a section's content is on a line of the whole text. */
  lemma {:induction false} ContentMatch(text: string, openEnd: nat, c: nat, tag: string, q: nat)
    requires openEnd < c < |text| && IsTerminator(text[openEnd]) && IsTerminator(text[c - 1])
    requires MatchAt(Content(text, openEnd, c), q, tag)
    requires OneLine(tag) && |tag| > 0
    ensures exists p :: MatchAt(text, p, tag) && p < c
  {
    hide Content;
    var start, end := ContentSlice(text, openEnd, c);
    var content := text[start..end];
    MatchChar(content, q, tag, 0);
    MatchChar(content, q, tag, |tag| - 1);
    assert content[0] == text[start] && content[|content| - 1] == text[end - 1];
    hide MatchAt, OneLine;
    SliceMatch(text, start, end, tag, q);
  }

  /** What a parsed section says about the text. */
  predicate Located(text: string, open: string, close: string, o: nat, c: nat, body: string) {
    && Search(text, open) == Some(o) && Search(text, close) == Some(c) && o + |open| < c
    && body == UnescapeBody(Content(text, o + |open|, c))
  }

  /** A close tag on a line of its own cannot start inside the open tag's line. */
  lemma {:induction false} TagsApart(text: string, open: string, close: string)
    requires OneLine(open) && OneLine(close) && |open| > 1 && |close| > 1 && open[1] != close[1]
    requires Search(text, open).Some? && Search(text, close).Some?
             && Search(text, open).value <= Search(text, close).value
    ensures Search(text, open).value + |open| < Search(text, close).value
  {
    SearchMatches(text, open);
    SearchMatches(text, close);
    var o, c := Search(text, open).value, Search(text, close).value;
    MatchChar(text, o, open, 1);
    MatchChar(text, c, close, 1);
    if o < c <= o + |open| {
      MatchChar(text, o, open, c - 1 - o);
    }
  }

  lemma {:induction false} ParsedSection(text: string, i: nat, previous: nat) returns (o: nat, c: nat)
    requires i < 3 && ParseSection(text, i, previous).Ok?
    ensures Located(text, OpenTag(i), CloseTag(i), o, c, ParseSection(text, i, previous).value.0)
    ensures ParseSection(text, i, previous).value.1 == c + |CloseTag(i)|
    ensures i > 0 ==> previous < o
  {
    hide UnescapeBody, Content, OneLine, OpenTag, CloseTag, Search;
    o, c := Search(text, OpenTag(i)).value, Search(text, CloseTag(i)).value;
    TagShape(i);
    TagsApart(text, OpenTag(i), CloseTag(i));
  }

  /** A tag exposed in a parsed body is found before that body's close tag. */
  lemma {:induction false} ExposedInParsed(text: string, open: string, close: string, o: nat, c: nat, body: string,
                                           tag: string)
    requires Located(text, open, close, o, c, body) && close != ""
    requires OneLine(tag) && tag != [] && tag[0] != '\\'
    requires Search(EscapeBody(body), tag).Some?
    ensures Search(text, tag).Some? && Search(text, tag).value < c
  {
    hide Content, Search, EscapeBody, UnescapeBody;
    var content := Content(text, o + |open|, c);
    ReescapedBody(content, tag);
    SearchMatches(text, open);
    SearchMatches(text, close);
    SearchMatches(content, tag);
    ContentMatch(text, o + |open|, c, tag, Search(content, tag).value);
    var p :| MatchAt(text, p, tag) && p < c;
    SearchNotLater(text, tag, p);
  }

  /** The three sections of a parsed text, in order. */
  lemma {:induction false} ParsedIsClear(text: string, os: seq<nat>, cs: seq<nat>, bodies: seq<string>, i: nat)
    requires |os| == |cs| == |bodies| == 3 && i < 3
    requires forall k :: 0 <= k < 3 ==> Located(text, OpenTag(k), CloseTag(k), os[k], cs[k], bodies[k])
    requires cs[0] < os[1] && cs[1] < os[2]
    ensures Clear([EscapeBody(bodies[0]), EscapeBody(bodies[1]), EscapeBody(bodies[2])], i)
  {
    hide EscapeBody, Search, OneLine, OpenTag, CloseTag, UnescapeBody, Content;
    var es := [EscapeBody(bodies[0]), EscapeBody(bodies[1]), EscapeBody(bodies[2])];
    TagShape(i);
    forall k | 0 <= k < 3
      ensures k < i ==> Search(es[k], OpenTag(i)).None?
      ensures k <= i ==> Search(es[k], CloseTag(i)).None?
    {
      assert Located(text, OpenTag(k), CloseTag(k), os[k], cs[k], bodies[k]);
      TagShape(k);
      if k < i && Search(es[k], OpenTag(i)).Some? {
        ExposedInParsed(text, OpenTag(k), CloseTag(k), os[k], cs[k], bodies[k], OpenTag(i));
      }
      if k <= i && Search(es[k], CloseTag(i)).Some? {
        ExposedInParsed(text, OpenTag(k), CloseTag(k), os[k], cs[k], bodies[k], CloseTag(i));
      }
    }
  }

  lemma {:induction false} ParsedIsFaithful(text: string, r: Response)
    requires ParseBody(text) == Ok(r)
    ensures Faithful(r)
  {
    hide ParseSection, Located, Clear, EscapeBody, CloseTag, OpenTag;
    var first := ParseSection(text, 0, 0).value;
    var second := ParseSection(text, 1, first.1).value;
    var o0, c0 := ParsedSection(text, 0, 0);
    var o1, c1 := ParsedSection(text, 1, first.1);
    var o2, c2 := ParsedSection(text, 2, second.1);
    forall i | 0 <= i < 3
      ensures Clear(EscapedBodies(r), i)
    {
      ParsedIsClear(text, [o0, o1, o2], [c0, c1, c2], [r.translation, r.review, r.final], i);
    }
  }

  /** Stability, for every text: what the parser accepts renders to a text it accepts with the same value. */
  lemma {:induction false} ParsedResponsesAreStable(text: string)
    ensures Parse(text).Ok? ==> Parse(Render(Parse(text).value)) == Parse(text)
  {
    if Parse(text).Ok? {
      var r := Parse(text).value;
      ParsedIsFaithful(Unfence(Trim(text)), r);
      RoundTrip(r);
    }
  }
}
