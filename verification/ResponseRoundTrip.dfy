/**
 * The response round trip: which responses parse back from their rendering, and why whatever the
 * parser accepts renders to something it accepts again with the same value.
 */
module ResponseRoundTrip {
  import opened Outcomes
  import opened Text
  import opened ResponseText
  import opened TranslationResponse

  // ---- Tags ----

  lemma {:induction false} TagShape(i: nat)
    requires i < 3
    ensures OneLine(OpenTag(i)) && OneLine(CloseTag(i))
    ensures |OpenTag(i)| > 2 && |CloseTag(i)| > 2
    ensures OpenTag(i)[0] == CloseTag(i)[0] == '<' && OpenTag(i)[1] != '/' && CloseTag(i)[1] == '/'
    ensures OpenTag(i)[1] == CloseTag(i)[2] == ['t', 'r', 'f'][i]
  {
    assert OpenTag(0) == "<translation>" && OpenTag(1) == "<review>" && OpenTag(2) == "<final>";
    assert CloseTag(0) == "</translation>" && CloseTag(1) == "</review>" && CloseTag(2) == "</final>";
  }

  lemma {:induction false} TagFacts(i: nat, j: nat)
    requires i < 3 && j < 3
    ensures OneLine(OpenTag(i)) && OneLine(CloseTag(i))
    ensures OpenTag(i) != CloseTag(j)
    ensures (OpenTag(i) == OpenTag(j) <==> i == j) && (CloseTag(i) == CloseTag(j) <==> i == j)
    ensures |OpenTag(i)| > 0 && |CloseTag(i)| > 0
    ensures OpenTag(i)[0] == CloseTag(i)[0] == '<'
  {
    TagShape(i);
    TagShape(j);
  }

  /** A one-line text is found in itself only as a whole. */
  lemma {:induction false} SearchOneLine(s: string, pat: string)
    requires OneLine(s)
    ensures Search(s, pat) == if s == pat then Some(0) else None
  {
    LineEndOfLine(s, |s|);
    assert s[..|s|] == s;
  }

  lemma {:induction false} SplitOneLine(s: string, line: string)
    requires OneLine(s)
    ensures Count(Split(s, '\n'), line) == if s == line then 1 else 0
  {
    assert '\n' !in s;
    SplitFirst(s, '\n', "");
  }

  // ---- Escaping ----

  lemma {:induction false} StripIsSuffix(line: string)
    ensures |StripBackslashes(line)| <= |line|
    ensures forall c :: c in StripBackslashes(line) ==> c in line
    ensures line != [] && line[0] != '\\' ==> StripBackslashes(line) == line
  {
    if line != [] && line[0] == '\\' {
      StripIsSuffix(line[1..]);
    }
  }

  /** An escaped line is never a delimiter, and unescaping gives the line back. */
  lemma {:induction false} EscapeLineFacts(line: string)
    ensures UnescapeLine(EscapeLine(line)) == line
    ensures !IsDelimiter(EscapeLine(line))
    ensures '\n' !in line ==> '\n' !in EscapeLine(line)
  {
    if IsDelimiter(StripBackslashes(line)) {
      assert EscapeLine(line)[1..] == line && EscapeLine(line)[0] == '\\';
      if IsDelimiter(EscapeLine(line)) {
        var i :| 0 <= i < 3 && (EscapeLine(line) == OpenTag(i) || EscapeLine(line) == CloseTag(i));
        TagFacts(i, i);
        assert false;
      }
    } else if IsDelimiter(line) {
      var i :| 0 <= i < 3 && (line == OpenTag(i) || line == CloseTag(i));
      TagFacts(i, i);
      StripIsSuffix(line);
      assert false;
    }
  }

  lemma {:induction false} EscapeLinesFacts(lines: seq<string>, k: nat)
    requires k < |lines|
    ensures EscapeLines(lines)[k] == EscapeLine(lines[k])
    ensures UnescapeLines(lines)[k] == UnescapeLine(lines[k])
  {
    if k > 0 {
      EscapeLinesFacts(lines[1..], k - 1);
    }
  }

  lemma {:induction false} UnescapeEscapeLines(lines: seq<string>)
    ensures UnescapeLines(EscapeLines(lines)) == lines
  {
    forall k | 0 <= k < |lines|
      ensures UnescapeLines(EscapeLines(lines))[k] == lines[k]
    {
      EscapeLinesFacts(lines, k);
      EscapeLinesFacts(EscapeLines(lines), k);
      EscapeLineFacts(lines[k]);
    }
  }

  lemma {:induction false} SplitEscaped(value: string)
    ensures Split(EscapeBody(value), '\n') == EscapeLines(Split(value, '\n'))
  {
    var lines := Split(value, '\n');
    forall k | 0 <= k < |lines|
      ensures '\n' !in EscapeLines(lines)[k]
    {
      EscapeLinesFacts(lines, k);
      EscapeLineFacts(lines[k]);
      SplitPieces(value, '\n', k);
    }
    SplitJoin(EscapeLines(lines), '\n');
  }

  /** Unescaping inverts escaping on every body, bare or backslashed delimiter lines included. */
  lemma {:induction false} UnescapeEscape(value: string)
    ensures UnescapeBody(EscapeBody(value)) == value
  {
    SplitEscaped(value);
    UnescapeEscapeLines(Split(value, '\n'));
    JoinSplit(value, '\n');
  }

  lemma {:induction false} CountNone(lines: seq<string>, tag: string)
    requires forall k :: 0 <= k < |lines| ==> lines[k] != tag
    ensures Count(lines, tag) == 0
  {
    if lines != [] {
      CountNone(lines[1..], tag);
    }
  }

  lemma {:induction false} EscapedHasNoTag(value: string, i: nat)
    requires i < 3
    ensures Count(Split(EscapeBody(value), '\n'), OpenTag(i)) == 0
    ensures Count(Split(EscapeBody(value), '\n'), CloseTag(i)) == 0
  {
    SplitEscaped(value);
    var lines := Split(value, '\n');
    forall k | 0 <= k < |lines|
      ensures EscapeLines(lines)[k] != OpenTag(i) && EscapeLines(lines)[k] != CloseTag(i)
    {
      EscapeLinesFacts(lines, k);
      EscapeLineFacts(lines[k]);
    }
    CountNone(EscapeLines(lines), OpenTag(i));
    CountNone(EscapeLines(lines), CloseTag(i));
  }

  // ---- The rendering, piece by piece ----

  /** The `j`th piece of a rendering with these escaped bodies. */
  function Piece(es: seq<string>, j: nat): string
    requires |es| == 3 && j < 11
  {
    if j % 4 == 0 then OpenTag(j / 4)
    else if j % 4 == 1 then es[j / 4]
    else if j % 4 == 2 then CloseTag(j / 4)
    else ""
  }

  function Pieces(es: seq<string>): (pieces: seq<string>)
    requires |es| == 3
    ensures |pieces| == 11
  {
    seq(11, j requires 0 <= j < 11 => Piece(es, j))
  }

  function EscapedBodies(r: Response): (es: seq<string>)
    ensures |es| == 3
  {
    [EscapeBody(r.translation), EscapeBody(r.review), EscapeBody(r.final)]
  }

  lemma {:induction false} SectionIsJoin(open: string, e: string, close: string)
    ensures open + "\n" + e + "\n" + close == Join([open, e, close], "\n")
  {
    assert [open, e, close][1..] == [e, close] && [e, close][1..] == [close];
    assert Join([e, close], "\n") == e + "\n" + close;
    assert open + "\n" + e + "\n" + close == open + "\n" + (e + "\n" + close);
  }

  lemma {:induction false} BlankBetween(a: seq<string>, b: seq<string>)
    requires a != [] && b != []
    ensures Join(a + [""] + b, "\n") == Join(a, "\n") + "\n\n" + Join(b, "\n")
  {
    JoinConcat(a + [""], b, "\n");
    JoinConcat(a, [""], "\n");
  }

  lemma {:induction false} JoinThree(a: string, b: string, c: string, sep: string)
    ensures Join([a, b, c], sep) == a + sep + (b + sep + c)
  {
    assert [a, b, c][1..] == [b, c] && [b, c][1..] == [c];
    assert Join([b, c], sep) == b + sep + c;
  }

  lemma {:induction false} PiecesJoin(es: seq<string>, s0: seq<string>, s1: seq<string>, s2: seq<string>)
    requires |es| == 3
    requires s0 == [OpenTag(0), es[0], CloseTag(0)]
    requires s1 == [OpenTag(1), es[1], CloseTag(1)]
    requires s2 == [OpenTag(2), es[2], CloseTag(2)]
    ensures Join(Pieces(es), "\n") == Join(s0, "\n") + "\n\n" + (Join(s1, "\n") + "\n\n" + Join(s2, "\n"))
  {
    BlankBetween(s0, s1 + [""] + s2);
    BlankBetween(s1, s2);
    assert Pieces(es) == s0 + [""] + (s1 + [""] + s2);
  }

  lemma {:induction false} RenderIsJoin(r: Response)
    ensures Render(r) == Join(Pieces(EscapedBodies(r)), "\n")
  {
    var es := EscapedBodies(r);
    PiecesJoin(es, [OpenTag(0), es[0], CloseTag(0)], [OpenTag(1), es[1], CloseTag(1)],
               [OpenTag(2), es[2], CloseTag(2)]);
    SectionIsJoin(OpenTag(0), es[0], CloseTag(0));
    SectionIsJoin(OpenTag(1), es[1], CloseTag(1));
    SectionIsJoin(OpenTag(2), es[2], CloseTag(2));
    JoinThree(RenderSection(r, 0), RenderSection(r, 1), RenderSection(r, 2), "\n\n");
  }

  // ---- Positions ----

  /** Piece `j` stands at `at[j]` and is followed by a newline, or by the end after the last piece. */
  predicate StandsAt(text: string, at: seq<nat>, es: seq<string>, j: nat)
    requires |es| == 3 && |at| == 11 && j < 11
  {
    var piece := Piece(es, j);
    && at[j] + |piece| <= |text| && text[at[j]..at[j] + |piece|] == piece
    && (j < 10 ==> at[j + 1] == at[j] + |piece| + 1 <= |text| && text[at[j] + |piece|] == '\n')
    && (j == 10 ==> at[j] + |piece| == |text|)
  }

  ghost predicate LaidOut(text: string, at: seq<nat>, es: seq<string>) {
    |es| == 3 && |at| == 11 && at[0] == 0 && forall j :: 0 <= j < 11 ==> StandsAt(text, at, es, j)
  }

  lemma {:induction false} LayoutOf(text: string, es: seq<string>) returns (at: seq<nat>)
    requires |es| == 3 && text == Join(Pieces(es), "\n")
    ensures LaidOut(text, at, es)
    ensures forall j :: 0 <= j < 11 ==> at[j] == Offset(Pieces(es), j)
  {
    var pieces := Pieces(es);
    at := seq(11, j requires 0 <= j < 11 => Offset(pieces, j));
    forall j | 0 <= j < 11
      ensures StandsAt(text, at, es, j)
    {
      PieceAt(pieces, j);
      OffsetStep(pieces, j);
      assert pieces[j] == Piece(es, j);
    }
  }

  lemma {:induction false} PositionsIncrease(text: string, at: seq<nat>, es: seq<string>, j: nat, k: nat)
    requires LaidOut(text, at, es) && j < k < 11
    ensures at[j] + |Piece(es, j)| < at[k]
    decreases k
  {
    assert StandsAt(text, at, es, k - 1);
    if j < k - 1 {
      PositionsIncrease(text, at, es, j, k - 1);
    }
  }

  /** Between two sections there are two newlines. */
  lemma {:induction false} SeparatorOf(text: string, at: seq<nat>, es: seq<string>, j: nat)
    requires LaidOut(text, at, es) && (j == 2 || j == 6)
    ensures at[j + 2] == at[j] + |Piece(es, j)| + 2
    ensures OnlyNewlines(Slice(text, at[j] + |Piece(es, j)|, at[j + 2]))
  {
    hide StandsAt, Slice, OnlyNewlines, OpenTag, CloseTag;
    assert StandsAt(text, at, es, j) && StandsAt(text, at, es, j + 1);
    NewlineAfter(text, at, es, j);
    NewlineAfter(text, at, es, j + 1);
    TwoNewlines(text, at[j] + |Piece(es, j)|);
  }

  lemma {:induction false} NewlineAfter(text: string, at: seq<nat>, es: seq<string>, j: nat)
    requires |es| == 3 && |at| == 11 && j < 10 && StandsAt(text, at, es, j)
    ensures at[j + 1] == at[j] + |Piece(es, j)| + 1 <= |text| && text[at[j] + |Piece(es, j)|] == '\n'
  {
    hide OpenTag, CloseTag;
  }

  lemma {:induction false} TwoNewlines(text: string, p: nat)
    requires p + 2 <= |text| && text[p] == text[p + 1] == '\n'
    ensures OnlyNewlines(Slice(text, p, p + 2))
  {
  }

  /** `e` stands after a newline at `before` and is followed by another newline. */
  predicate Framed(text: string, before: nat, e: string) {
    && before + 1 + |e| < |text| && text[before] == '\n'
    && text[before + 1..before + 1 + |e|] == e && text[before + 1 + |e|] == '\n'
  }

  /** The content that ends where `e` does, or at an earlier position, after the newline of an open tag. */
  lemma {:induction false} ContentOf(text: string, openEnd: nat, e: string, closeStart: nat)
    requires Framed(text, openEnd, e)
    requires openEnd < closeStart <= openEnd + 2 + |e|
    ensures closeStart == openEnd + 2 + |e| ==> Content(text, openEnd, closeStart) == e
    ensures closeStart < openEnd + 2 + |e| ==>
      var content := Content(text, openEnd, closeStart);
      |content| <= closeStart - openEnd - 1 && content == e[..|content|]
  {
  }

  // ---- Searching a rendering ----

  lemma {:induction false} NoneBeforeAll(pieces: seq<string>, pat: string, k: nat)
    requires k <= |pieces| && forall j :: 0 <= j < k ==> Search(pieces[j], pat).None?
    ensures NoneBefore(pieces, pat, k)
  {
    if k > 0 {
      forall j | 0 <= j < k - 1
        ensures Search(pieces[1..][j], pat).None?
      {
        assert pieces[1..][j] == pieces[j + 1];
      }
      NoneBeforeAll(pieces[1..], pat, k - 1);
    }
  }

  /** The first piece that has the line. */
  lemma {:induction false} FirstWithLine(pieces: seq<string>, pat: string, bound: nat) returns (k: nat)
    requires bound < |pieces| && Search(pieces[bound], pat).Some?
    ensures k <= bound && Search(pieces[k], pat).Some? && NoneBefore(pieces, pat, k)
  {
    k := 0;
    while Search(pieces[k], pat).None?
      invariant k <= bound && forall j :: 0 <= j < k ==> Search(pieces[j], pat).None?
      decreases bound - k
    {
      k := k + 1;
    }
    NoneBeforeAll(pieces, pat, k);
  }

  /** Where each tag turns up among the pieces. */
  lemma {:induction false} TagInPieces(es: seq<string>, i: nat, j: nat)
    requires |es| == 3 && i < 3 && j < 11
    ensures j % 4 != 1 ==> (Search(Pieces(es)[j], OpenTag(i)) == if j == 4 * i then Some(0) else None)
    ensures j % 4 != 1 ==> (Search(Pieces(es)[j], CloseTag(i)) == if j == 4 * i + 2 then Some(0) else None)
    ensures j % 4 == 1 ==> Pieces(es)[j] == es[j / 4]
  {
    if j % 4 != 1 {
      TagFacts(i, j / 4);
      TagFacts(j / 4, i);
      SearchOneLine(Pieces(es)[j], OpenTag(i));
      SearchOneLine(Pieces(es)[j], CloseTag(i));
    }
  }

  // ---- Counting the tags of a rendering ----

  lemma {:induction false} CountPiece(r: Response, i: nat, j: nat)
    requires i < 3 && j < 11
    ensures Count(Split(Pieces(EscapedBodies(r))[j], '\n'), OpenTag(i)) == if j == 4 * i then 1 else 0
    ensures Count(Split(Pieces(EscapedBodies(r))[j], '\n'), CloseTag(i)) == if j == 4 * i + 2 then 1 else 0
  {
    var pieces := Pieces(EscapedBodies(r));
    if j % 4 == 1 {
      EscapedHasNoTag(Body(r, j / 4), i);
    } else {
      TagFacts(i, j / 4);
      TagFacts(j / 4, i);
      SplitOneLine(pieces[j], OpenTag(i));
      SplitOneLine(pieces[j], CloseTag(i));
    }
  }

  lemma {:induction false} CountOnce(pieces: seq<string>, line: string, k: nat)
    requires k < |pieces|
    requires forall j :: 0 <= j < |pieces| ==> Count(Split(pieces[j], '\n'), line) == if j == k then 1 else 0
    ensures CountPieces(pieces, line) == 1
  {
    var rest := pieces[1..];
    forall j | 0 <= j < |rest|
      ensures rest[j] == pieces[j + 1]
    {
    }
    if k == 0 {
      CountNever(rest, line);
    } else {
      CountOnce(rest, line, k - 1);
    }
  }

  lemma {:induction false} CountNever(pieces: seq<string>, line: string)
    requires forall j :: 0 <= j < |pieces| ==> Count(Split(pieces[j], '\n'), line) == 0
    ensures CountPieces(pieces, line) == 0
  {
    if pieces != [] {
      CountNever(pieces[1..], line);
    }
  }

  /** Every tag of a rendering stands on exactly one line of its own. */
  predicate Once(text: string, line: string) {
    Count(Split(text, '\n'), line) == 1
  }

  lemma {:induction false} TagsOccurOnce(r: Response, i: nat)
    requires i < 3
    ensures Once(Join(Pieces(EscapedBodies(r)), "\n"), OpenTag(i))
            && Once(Join(Pieces(EscapedBodies(r)), "\n"), CloseTag(i))
  {
    var pieces := Pieces(EscapedBodies(r));
    CountJoin(pieces, OpenTag(i));
    CountJoin(pieces, CloseTag(i));
    forall j | 0 <= j < 11
      ensures Count(Split(pieces[j], '\n'), OpenTag(i)) == if j == 4 * i then 1 else 0
      ensures Count(Split(pieces[j], '\n'), CloseTag(i)) == if j == 4 * i + 2 then 1 else 0
    {
      CountPiece(r, i, j);
    }
    CountOnce(pieces, OpenTag(i), 4 * i);
    CountOnce(pieces, CloseTag(i), 4 * i + 2);
  }
}
