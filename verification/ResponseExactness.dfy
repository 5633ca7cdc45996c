/** Exactly which responses survive rendering and parsing. */
module ResponseExactness {
  import opened Outcomes
  import opened Text
  import opened ResponseText
  import opened TranslationResponse
  import opened Whitespace
  import opened ResponseRoundTrip

  // ---- Sections that parse ----

  /**
   * No line of the escaped bodies, split at any terminator, can be mistaken for section `i`'s own
   * tags: its open tag in an earlier body, or its close tag in an earlier body or its own.
   */
  predicate Clear(es: seq<string>, i: nat)
    requires |es| == 3 && i < 3
  {
    forall k :: 0 <= k < 3 ==>
      && (k < i ==> Search(es[k], OpenTag(i)).None?)
      && (k <= i ==> Search(es[k], CloseTag(i)).None?)
  }

  /** Where the section before `i` ends. */
  function PreviousEnd(at: seq<nat>, i: nat): nat
    requires |at| == 11 && i <= 3
  {
    if i == 0 then 0 else at[4 * i - 2] + |CloseTag(i - 1)|
  }

  /** In a clear section the search finds the section's own tags. */
  lemma {:induction false} ClearTagsFound(es: seq<string>, i: nat)
    requires |es| == 3 && i < 3 && Clear(es, i)
    ensures Search(Join(Pieces(es), "\n"), OpenTag(i)) == Some(Offset(Pieces(es), 4 * i))
    ensures Search(Join(Pieces(es), "\n"), CloseTag(i)) == Some(Offset(Pieces(es), 4 * i + 2))
  {
    OpenTagFound(es, i);
    CloseTagFound(es, i);
  }

  lemma {:induction false} CloseTagFound(es: seq<string>, i: nat)
    requires |es| == 3 && i < 3 && forall k :: 0 <= k <= i ==> Search(es[k], CloseTag(i)).None?
    ensures Search(Join(Pieces(es), "\n"), CloseTag(i)) == Some(Offset(Pieces(es), 4 * i + 2))
  {
    TagInPieces(es, i, 4 * i + 2);
    forall j | 0 <= j < 4 * i + 2
      ensures Search(Pieces(es)[j], CloseTag(i)).None?
    {
      TagInPieces(es, i, j);
    }
    NoneBeforeAll(Pieces(es), CloseTag(i), 4 * i + 2);
    SearchPieces(Pieces(es), CloseTag(i), 4 * i + 2);
  }

  lemma {:induction false} OpenTagFound(es: seq<string>, i: nat)
    requires |es| == 3 && i < 3 && forall k :: 0 <= k < i ==> Search(es[k], OpenTag(i)).None?
    ensures Search(Join(Pieces(es), "\n"), OpenTag(i)) == Some(Offset(Pieces(es), 4 * i))
  {
    TagInPieces(es, i, 4 * i);
    forall j | 0 <= j < 4 * i
      ensures Search(Pieces(es)[j], OpenTag(i)).None?
    {
      TagInPieces(es, i, j);
    }
    NoneBeforeAll(Pieces(es), OpenTag(i), 4 * i);
    SearchPieces(Pieces(es), OpenTag(i), 4 * i);
  }

  /** What a section parses to once its tags are found in order behind a good separator. */
  lemma {:induction false} ParseFound(text: string, i: nat, open: string, close: string, previous: nat,
                                      openStart: nat, closeStart: nat, content: string)
    requires Once(text, open) && Once(text, close)
    requires Search(text, open) == Some(openStart) && Search(text, close) == Some(closeStart)
    requires openStart <= closeStart && GoodSeparator(text, i, previous, openStart)
    requires Content(text, openStart + |open|, closeStart) == content
    ensures ParseBetween(text, i, open, close, previous) == Ok((UnescapeBody(content), closeStart + |close|))
  {
    assert Locate(text, i, open, close) == Ok((openStart, closeStart));
  }

  lemma {:induction false} SeparatorBefore(text: string, at: seq<nat>, es: seq<string>, i: nat)
    requires LaidOut(text, at, es) && i < 3
    ensures GoodSeparator(text, i, PreviousEnd(at, i), at[4 * i])
  {
    if i > 0 {
      SeparatorOf(text, at, es, 4 * i - 2);
    }
  }

  lemma {:induction false} BodyStands(text: string, at: seq<nat>, es: seq<string>, i: nat, openEnd: nat)
    requires LaidOut(text, at, es) && i < 3 && openEnd == at[4 * i] + |OpenTag(i)|
    ensures Framed(text, openEnd, es[i])
    ensures at[4 * i + 1] == openEnd + 1 && at[4 * i + 2] == openEnd + 2 + |es[i]|
  {
    assert StandsAt(text, at, es, 4 * i) && StandsAt(text, at, es, 4 * i + 1);
    assert Piece(es, 4 * i) == OpenTag(i) && Piece(es, 4 * i + 1) == es[i];
  }

  lemma {:induction false} OwnContent(text: string, at: seq<nat>, es: seq<string>, i: nat, openEnd: nat,
                                      closeStart: nat)
    requires LaidOut(text, at, es) && i < 3 && openEnd == at[4 * i] + |OpenTag(i)| && closeStart == at[4 * i + 2]
    ensures openEnd < closeStart <= |text| && Content(text, openEnd, closeStart) == es[i]
  {
    BodyStands(text, at, es, i, openEnd);
    ContentOf(text, openEnd, es[i], closeStart);
  }

  /** A section whose own tags are found parses to its body. */
  lemma {:induction false} SectionExact(text: string, at: seq<nat>, es: seq<string>, i: nat, open: string,
                                        close: string)
    requires LaidOut(text, at, es) && i < 3 && open == OpenTag(i) && close == CloseTag(i)
    requires Once(text, open) && Once(text, close)
    requires Search(text, open) == Some(at[4 * i]) && Search(text, close) == Some(at[4 * i + 2])
    ensures ParseBetween(text, i, open, close, PreviousEnd(at, i)) == Ok((UnescapeBody(es[i]), at[4 * i + 2] + |close|))
  {
    hide UnescapeBody, Content, GoodSeparator, OpenTag, CloseTag, ParseBetween, Once, StandsAt;
    var openStart, closeStart, previous, e := at[4 * i], at[4 * i + 2], PreviousEnd(at, i), es[i];
    OwnContent(text, at, es, i, openStart + |open|, closeStart);
    SeparatorBefore(text, at, es, i);
    ParseFound(text, i, open, close, previous, openStart, closeStart, e);
  }

  // ---- Sections that do not ----

  /** Characters other than backslashes: what unescaping never removes. */
  function Weight(s: string): nat {
    if s == [] then 0 else (if s[0] == '\\' then 0 else 1) + Weight(s[1..])
  }

  lemma {:induction false} WeightConcat(a: string, b: string)
    ensures Weight(a + b) == Weight(a) + Weight(b)
  {
    if a == [] {
      assert a + b == b;
    } else {
      assert (a + b)[1..] == a[1..] + b;
      WeightConcat(a[1..], b);
    }
  }

  lemma {:induction false} WeightJoinStep(first: string, rest: string)
    ensures Weight(first + "\n" + rest) == Weight(first) + 1 + Weight(rest)
  {
    WeightConcat(first + "\n", rest);
    WeightConcat(first, "\n");
  }

  lemma {:induction false} WeightUnescapeLines(lines: seq<string>)
    ensures Weight(Join(UnescapeLines(lines), "\n")) == Weight(Join(lines, "\n"))
  {
    if lines != [] {
      var rest := UnescapeLines(lines[1..]);
      assert Weight(UnescapeLine(lines[0])) == Weight(lines[0]);
      assert UnescapeLines(lines)[1..] == rest;
      WeightUnescapeLines(lines[1..]);
      if |lines| > 1 {
        JoinStep(lines);
        JoinStep(UnescapeLines(lines));
        WeightJoinStep(lines[0], Join(lines[1..], "\n"));
        WeightJoinStep(UnescapeLine(lines[0]), Join(rest, "\n"));
      }
    }
  }

  lemma {:induction false} WeightUnescape(value: string)
    ensures Weight(UnescapeBody(value)) == Weight(value)
  {
    WeightUnescapeLines(Split(value, '\n'));
    JoinSplit(value, '\n');
  }

  /** A prefix that stops at or before a character other than a backslash weighs less. */
  lemma {:induction false} PrefixWeighsLess(s: string, cut: nat, at: nat)
    requires cut <= at < |s| && s[at] != '\\'
    ensures Weight(s[..cut]) < Weight(s)
  {
    assert s == s[..cut] + s[cut..];
    WeightConcat(s[..cut], s[cut..]);
    assert s[cut..] == s[cut..at] + s[at..];
    WeightConcat(s[cut..at], s[at..]);
  }

  /** Unescaping cannot bring back what a proper prefix lost. */
  lemma {:induction false} TruncationShows(e: string, content: string, q: nat, tag: string)
    requires Search(e, tag) == Some(q) && |tag| > 0 && tag[0] == '<'
    requires |content| <= q && content == e[..|content|]
    ensures UnescapeBody(content) != UnescapeBody(e)
  {
    SearchMatches(e, tag);
    assert e[q + 0] == tag[0];
    PrefixWeighsLess(e, |content|, q);
    WeightUnescape(content);
    WeightUnescape(e);
  }

  /** An open tag found before the previous section ends leaves no separator. */
  lemma {:induction false} EarlyOpenFails(text: string, i: nat, open: string, close: string, previous: nat)
    requires i > 0 && Search(text, open).Some? && Search(text, open).value < previous
    ensures ParseBetween(text, i, open, close, previous).Err?
  {
  }

  lemma {:induction false} EarlyCloseFails(text: string, i: nat, open: string, close: string, previous: nat)
    requires Search(text, open).Some? && Search(text, close).Some?
    requires Search(text, close).value < Search(text, open).value
    ensures ParseBetween(text, i, open, close, previous).Err?
  {
  }

  lemma {:induction false} OnlyOwnContent(text: string, i: nat, open: string, close: string, previous: nat,
                                          openStart: nat, closeStart: nat)
    requires Search(text, open) == Some(openStart) && Search(text, close) == Some(closeStart)
    ensures ParseBetween(text, i, open, close, previous).Ok? ==>
      ParseBetween(text, i, open, close, previous).value.0 ==
      UnescapeBody(Content(text, openStart + |open|, closeStart))
  {
  }

  /** An open tag exposed in an earlier body is found too early. */
  lemma {:induction false} ExposedOpenFails(text: string, at: seq<nat>, es: seq<string>, i: nat, k: nat)
    requires LaidOut(text, at, es) && text == Join(Pieces(es), "\n")
    requires forall j :: 0 <= j < 11 ==> at[j] == Offset(Pieces(es), j)
    requires k < i < 3 && Search(es[k], OpenTag(i)).Some?
    ensures ParseSection(text, i, PreviousEnd(at, i)).Err?
  {
    TagInPieces(es, i, 4 * k + 1);
    var j := FirstWithLine(Pieces(es), OpenTag(i), 4 * k + 1);
    SearchPieces(Pieces(es), OpenTag(i), j);
    PositionsIncrease(text, at, es, j, 4 * i - 2);
    EarlyOpenFails(text, i, OpenTag(i), CloseTag(i), PreviousEnd(at, i));
  }

  lemma {:induction false} TruncatedSection(text: string, i: nat, open: string, close: string, previous: nat,
                                            openStart: nat, e: string, q: nat)
    requires Framed(text, openStart + |open|, e) && |close| > 0 && close[0] == '<'
    requires Search(e, close) == Some(q)
    requires Search(text, open) == Some(openStart) && Search(text, close) == Some(openStart + |open| + 1 + q)
    ensures var parsed := ParseBetween(text, i, open, close, previous);
            parsed.Ok? ==> parsed.value.0 != UnescapeBody(e)
  {
    hide Content, ParseBetween, Search, UnescapeBody;
    var openEnd := openStart + |open|;
    ContentOf(text, openEnd, e, openEnd + 1 + q);
    TruncationShows(e, Content(text, openEnd, openEnd + 1 + q), q, close);
    OnlyOwnContent(text, i, open, close, previous, openStart, openEnd + 1 + q);
  }

  /** Where an exposed close tag is found: before the section's open tag, or inside its own body. */
  lemma {:induction false} ExposedCloseFound(text: string, at: seq<nat>, es: seq<string>, i: nat, k: nat, tag: string)
    returns (c: nat)
    requires LaidOut(text, at, es) && text == Join(Pieces(es), "\n")
    requires forall j :: 0 <= j < 11 ==> at[j] == Offset(Pieces(es), j)
    requires k <= i < 3 && tag == CloseTag(i) && Search(es[k], tag).Some?
    ensures Search(text, tag) == Some(c)
    ensures c < at[4 * i] || (Search(es[i], tag).Some? && c == at[4 * i + 1] + Search(es[i], tag).value)
  {
    hide Search, CloseTag, OpenTag, StandsAt, Join, Offset, NoneBefore;
    TagInPieces(es, i, 4 * k + 1);
    var j := FirstWithLine(Pieces(es), tag, 4 * k + 1);
    TagInPieces(es, i, j);
    SearchPieces(Pieces(es), tag, j);
    c := Search(text, tag).value;
    if j < 4 * i {
      PositionsIncrease(text, at, es, j, 4 * i);
    }
  }

  /** An exposed close tag comes before the open tag, or truncates the body. */
  lemma {:induction false} ExposedCloseFails(text: string, at: seq<nat>, es: seq<string>, i: nat, c: nat, open: string,
                                             close: string)
    requires LaidOut(text, at, es) && i < 3 && open == OpenTag(i) && |close| > 0 && close[0] == '<'
    requires Search(text, open) == Some(at[4 * i]) && Search(text, close) == Some(c)
    requires c < at[4 * i] || (Search(es[i], close).Some? && c == at[4 * i + 1] + Search(es[i], close).value)
    ensures var parsed := ParseBetween(text, i, open, close, PreviousEnd(at, i));
            parsed.Ok? ==> parsed.value.0 != UnescapeBody(es[i])
  {
    hide StandsAt, Search, ParseBetween, UnescapeBody, OpenTag, Framed;
    var openStart, previous, e := at[4 * i], PreviousEnd(at, i), es[i];
    if c < openStart {
      EarlyCloseFails(text, i, open, close, previous);
    } else {
      BodyStands(text, at, es, i, openStart + |open|);
      TruncatedSection(text, i, open, close, previous, openStart, e, Search(e, close).value);
    }
  }

  /** A section parses to its own body exactly when it is clear. */
  lemma {:induction false} SectionIff(text: string, at: seq<nat>, es: seq<string>, i: nat)
    requires LaidOut(text, at, es) && text == Join(Pieces(es), "\n")
    requires forall j :: 0 <= j < 11 ==> at[j] == Offset(Pieces(es), j)
    requires i < 3 && Once(text, OpenTag(i)) && Once(text, CloseTag(i))
    ensures var parsed := ParseSection(text, i, PreviousEnd(at, i));
            && (Clear(es, i) ==> parsed == Ok((UnescapeBody(es[i]), PreviousEnd(at, i + 1))))
            && (!Clear(es, i) && parsed.Ok? ==> parsed.value.0 != UnescapeBody(es[i]))
  {
    hide UnescapeBody, OpenTag, CloseTag, ParseBetween, Once, StandsAt;
    if Clear(es, i) {
      ClearTagsFound(es, i);
      SectionExact(text, at, es, i, OpenTag(i), CloseTag(i));
    } else if k :| 0 <= k < i && Search(es[k], OpenTag(i)).Some? {
      ExposedOpenFails(text, at, es, i, k);
    } else {
      var k :| 0 <= k <= i && Search(es[k], CloseTag(i)).Some?;
      OpenTagFound(es, i);
      TagFacts(i, i);
      var c := ExposedCloseFound(text, at, es, i, k, CloseTag(i));
      ExposedCloseFails(text, at, es, i, c, OpenTag(i), CloseTag(i));
    }
  }

  // ---- The round trip, exactly ----

  /**
   * No body can be mistaken for a tag it would be cut short or misplaced by. Only a body with a
   * carriage return or a Unicode line separator beside a tag fails this: a tag on a newline-delimited
   * line of its own is escaped.
   */
  predicate Faithful(r: Response) {
    forall i :: 0 <= i < 3 ==> Clear(EscapedBodies(r), i)
  }

  lemma {:induction false} UnescapeBodies(r: Response)
    ensures UnescapeBody(EscapedBodies(r)[0]) == r.translation
    ensures UnescapeBody(EscapedBodies(r)[1]) == r.review
    ensures UnescapeBody(EscapedBodies(r)[2]) == r.final
  {
    UnescapeEscape(r.translation);
    UnescapeEscape(r.review);
    UnescapeEscape(r.final);
  }

  /** Parsing section by section gives the bodies back exactly when every section does. */
  lemma {:induction false} BodyParse(text: string, at: seq<nat>, es: seq<string>, r: Response)
    requires |at| == 11 && |es| == 3 && PreviousEnd(at, 3) == |text|
    requires r == Response(UnescapeBody(es[0]), UnescapeBody(es[1]), UnescapeBody(es[2]))
    requires forall i :: 0 <= i < 3 ==>
      var parsed := ParseSection(text, i, PreviousEnd(at, i));
      && (Clear(es, i) ==> parsed == Ok((UnescapeBody(es[i]), PreviousEnd(at, i + 1))))
      && (!Clear(es, i) && parsed.Ok? ==> parsed.value.0 != UnescapeBody(es[i]))
    ensures ParseBody(text) == Ok(r) <==> forall i :: 0 <= i < 3 ==> Clear(es, i)
  {
    hide UnescapeBody, ParseSection, Clear;
    assert PreviousEnd(at, 0) == 0;
  }

  /** A rendering is neither trimmed nor unfenced before it is parsed. */
  lemma {:induction false} RenderingStandsAlone(text: string, at: seq<nat>, es: seq<string>)
    requires LaidOut(text, at, es)
    ensures Parse(text) == ParseBody(text)
  {
    hide ParseBody;
    assert StandsAt(text, at, es, 0) && StandsAt(text, at, es, 10);
    TagShape(0);
    TagShape(2);
    assert text[0] == Piece(es, 0)[0] == '<';
    assert text[|text| - 1] == Piece(es, 10)[|Piece(es, 10)| - 1] == '>';
    assert Trim(text) == text;
  }

  /**
   * The round trip holds for exactly the faithful responses; every other response fails to parse or
   * comes back changed.
   */
  lemma {:induction false} RoundTrip(r: Response)
    ensures Parse(Render(r)) == Ok(r) <==> Faithful(r)
  {
    hide *;
    var es := EscapedBodies(r);
    var text := Join(Pieces(es), "\n");
    RenderIsJoin(r);
    var at := LayoutOf(text, es);
    LaidOutFacts(text, at, es);
    RenderingStandsAlone(text, at, es);
    forall i | 0 <= i < 3
      ensures var parsed := ParseSection(text, i, PreviousEnd(at, i));
              && (Clear(es, i) ==> parsed == Ok((UnescapeBody(es[i]), PreviousEnd(at, i + 1))))
              && (!Clear(es, i) && parsed.Ok? ==> parsed.value.0 != UnescapeBody(es[i]))
    {
      TagsOccurOnce(r, i);
      SectionIff(text, at, es, i);
    }
    UnescapeBodies(r);
    BodyParse(text, at, es, r);
    FaithfulMeans(r);
  }

  lemma {:induction false} FaithfulMeans(r: Response)
    ensures Faithful(r) <==> forall i :: 0 <= i < 3 ==> Clear(EscapedBodies(r), i)
  {
  }

  lemma {:induction false} LaidOutFacts(text: string, at: seq<nat>, es: seq<string>)
    requires LaidOut(text, at, es)
    ensures |at| == 11 && |es| == 3 && PreviousEnd(at, 3) == |text|
  {
    assert StandsAt(text, at, es, 10);
  }
}
