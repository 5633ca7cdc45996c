/** Nodes with any text in the label's place, such as code spans, and exactly when they are scanned right. */
module LinkLabels {
  import opened Outcomes
  import opened Text
  import opened Whitespace
  import opened LinkDestinations
  import opened LinkGrammar

  /** Every bracket is escaped or part of a pair. */
  ghost predicate IsLabelText(text: string) {
    exists t :: IsLabel(t) && Label(t) == text
  }

  /** The end of a label is found where it is written exactly when its text is balanced. */
  lemma {:induction false} LabelTextIsExact(lead: string, text: string, outer: string)
    requires '[' !in lead
    ensures LabelEndOf(lead + ("[" + text + "]" + outer)) == Some(|lead| + 1 + |text|) <==> IsLabelText(text)
  {
    hide IsLabel, Label, LabelEndOf;
    var inside := text + "]" + outer;
    var s, end := lead + ("[" + text + "]" + outer), |lead| + 1 + |text|;
    assert s == lead + "[" + inside;
    IndexOfAppend(lead, '[', inside);
    LabelEndIsExact(s, end);
    assert s[|lead| + 1..end + 1] == text + "]";
    forall t
      ensures text + "]" == Label(t) + "]" <==> Label(t) == text
    {
      SameBeforeLast(text, Label(t), ']');
    }
  }

  lemma {:induction false} SameBeforeLast(a: string, b: string, c: char)
    ensures a + [c] == b + [c] <==> a == b
  {
    if a + [c] == b + [c] {
      assert (a + [c])[..|a|] == a && (b + [c])[..|b|] == b;
    }
  }

  /** The node with any text in its label's place. */
  function PrintWith(n: Node, text: string): string {
    HeadWith(n, text) + Rest(n)
  }

  /** Where the label's closing bracket is written. */
  function LabelEndIn(n: Node, text: string): nat {
    (if n.kind == Image then 2 else 1) + |text|
  }

  /** The characters of a node from its label's end to its destination. */
  lemma {:induction false} Between(n: Node, text: string)
    ensures var s, end := PrintWith(n, text), LabelEndIn(n, text);
            && |HeadWith(n, text)| == end + 2 + |n.gap| && end + 1 < |s|
            && s[end] == ']' && s[end + 1] == (if n.kind == Definition then ':' else '(')
            && s[end + 2..] == n.gap + Rest(n)
  {
    hide Rest;
  }

  lemma {:induction false} SpacesStop(s: string, k: nat)
    requires k < |s| && !IsSpace(s[k])
    ensures Spaces(s) <= k
  {
    if k > 0 {
      SpacesStop(s[1..], k - 1);
    }
  }

  /** The destination looked up behind a separator at position `at`. */
  function RangeBehind(s: string, at: nat): Result<Range, RangeError>
    requires at < |s|
  {
    RangeFrom(s, at + 1 + Spaces(s[at + 1..]))
  }

  function Separator(n: Node): char {
    if n.kind == Definition then ':' else '('
  }

  /** Behind the separator of the node, its destination is found exactly when it is scannable. */
  lemma {:induction false} BehindSeparator(n: Node, text: string)
    requires IsNode(n)
    ensures LabelEndIn(n, text) + 1 < |PrintWith(n, text)|
    ensures var found := RangeBehind(PrintWith(n, text), LabelEndIn(n, text) + 1);
            found == Ok(TokenAt(n, |HeadWith(n, text)|)) <==> Scannable(n)
  {
    Between(n, text);
    hide RangeFrom, Rest, Scannable, TokenAt, HeadWith, LabelEndIn, Spaces;
    SpacesAfter(n.gap, Rest(n));
    RangeFromIsExact(n, HeadWith(n, text));
  }

  lemma {:induction false} AfterGap(gap: string, rest: string, k: nat)
    requires AllSpaces(gap) && k < |gap + rest| && !IsAsciiSpace((gap + rest)[k])
    ensures k >= |gap|
  {
  }

  lemma {:induction false} RangeStart(s: string, at: nat)
    requires at < |s|
    ensures var start := at + 1 + Spaces(s[at + 1..]);
            RangeBehind(s, at).Ok? ==> start <= RangeBehind(s, at).value.start <= start + 1
  {
    hide Spaces, AngleEnd, BareEnd;
  }

  /** Behind an earlier copy of the separator something else is found. */
  lemma {:induction false} EarlierMisses(n: Node, text: string, at: nat)
    requires at < LabelEndIn(n, text)
    ensures at < |PrintWith(n, text)| && RangeBehind(PrintWith(n, text), at) != Ok(TokenAt(n, |HeadWith(n, text)|))
  {
    var s, end := PrintWith(n, text), LabelEndIn(n, text);
    Between(n, text);
    hide PrintWith, HeadWith, LabelEndIn, RangeBehind, Spaces, Rest;
    SpacesStop(s[at + 1..], end - at - 1);
    RangeStart(s, at);
  }

  /** Behind a later copy of the separator something else is found. */
  lemma {:induction false} LaterMisses(n: Node, text: string, at: nat)
    requires IsNode(n) && LabelEndIn(n, text) + 1 < at < |PrintWith(n, text)|
    requires PrintWith(n, text)[at] == Separator(n)
    ensures RangeBehind(PrintWith(n, text), at) != Ok(TokenAt(n, |HeadWith(n, text)|))
  {
    var s, end := PrintWith(n, text), LabelEndIn(n, text);
    Between(n, text);
    var k := at - end - 2;
    assert s[at] == (n.gap + Rest(n))[k];
    AfterGap(n.gap, Rest(n), k);
    AngledStart(n);
    hide IsNode, PrintWith, HeadWith, LabelEndIn, RangeBehind, Spaces, Rest, AllSpaces, IsDestination;
    RangeStart(s, at);
    assert k == |n.gap| ==> s[at] == Rest(n)[0];
  }

  lemma {:induction false} AngledStart(n: Node)
    ensures n.destination.Angled? ==> Rest(n) != "" && Rest(n)[0] == '<'
  {
  }

  /** The destination is found behind its own separator alone, and there exactly when it is scannable. */
  lemma {:induction false} BehindIsExact(n: Node, text: string, at: nat)
    requires IsNode(n) && at < |PrintWith(n, text)| && PrintWith(n, text)[at] == Separator(n)
    ensures var found := RangeBehind(PrintWith(n, text), at);
            found == Ok(TokenAt(n, |HeadWith(n, text)|)) <==> at == LabelEndIn(n, text) + 1 && Scannable(n)
  {
    assert PrintWith(n, text)[LabelEndIn(n, text)] == ']';
    hide *;
    if at == LabelEndIn(n, text) + 1 {
      BehindSeparator(n, text);
    } else if at < LabelEndIn(n, text) {
      EarlierMisses(n, text, at);
    } else {
      LaterMisses(n, text, at);
    }
  }

  lemma {:induction false} LabelEndInIsExact(n: Node, text: string)
    ensures LabelEndOf(PrintWith(n, text)) == Some(LabelEndIn(n, text)) <==> IsLabelText(text)
  {
    var lead := if n.kind == Image then "!" else "";
    var outer := (if n.kind == Definition then ":" else "(") + n.gap + Rest(n);
    hide LabelEndOf, IsLabelText, Rest;
    assert PrintWith(n, text) == lead + ("[" + text + "]" + outer);
    LabelTextIsExact(lead, text, outer);
  }

  /** Of all copies of the separator only the one at `own` leads to the range, and that one if `right`. */
  ghost predicate OnlyBehind(s: string, separator: char, own: nat, range: Range, right: bool) {
    && own < |s| && s[own] == separator
    && forall at: nat :: at < |s| && s[at] == separator ==> LeadsRight(s, at, own, range, right)
  }

  predicate LeadsRight(s: string, at: nat, own: nat, range: Range, right: bool)
    requires at < |s|
  {
    RangeBehind(s, at) == Ok(range) <==> at == own && right
  }

  lemma {:induction false} OnlyBehindOwn(n: Node, text: string)
    requires IsNode(n)
    ensures var own, range := LabelEndIn(n, text) + 1, TokenAt(n, |HeadWith(n, text)|);
            OnlyBehind(PrintWith(n, text), Separator(n), own, range, Scannable(n))
  {
    Between(n, text);
    hide IsNode, PrintWith, HeadWith, LabelEndIn, TokenAt, Scannable, RangeBehind;
    forall at: nat | at < |PrintWith(n, text)| && PrintWith(n, text)[at] == Separator(n)
      ensures LeadsRight(PrintWith(n, text), at, LabelEndIn(n, text) + 1, TokenAt(n, |HeadWith(n, text)|), Scannable(n))
    {
      BehindIsExact(n, text, at);
    }
  }

  lemma {:induction false} InlineRange(s: string, kind: NodeKind, end: nat, range: Range, right: bool)
    requires kind != Definition && OnlyBehind(s, '(', end + 1, range, right)
    ensures RangeOf(s, kind) == Ok(range) <==> LabelEndOf(s) == Some(end) && right
  {
    hide RangeFrom, Spaces, LabelEndOf;
    match LabelEndOf(s)
    case None =>
    case Some(e) =>
      assert e + 1 < |s| && s[e + 1] == '(' ==> LeadsRight(s, e + 1, end + 1, range, right);
  }

  /**
   * Whatever the label's text, the destination of a link or image is found exactly when the text is
   * balanced and the destination scannable.
   */
  lemma {:induction false} InlineIsExact(n: Node, text: string)
    requires IsNode(n) && n.kind != Definition
    ensures var found := RangeOf(PrintWith(n, text), n.kind);
            found == Ok(TokenAt(n, |HeadWith(n, text)|)) <==> IsLabelText(text) && Scannable(n)
  {
    assert Separator(n) == '(';
    hide *;
    OnlyBehindOwn(n, text);
    LabelEndInIsExact(n, text);
    InlineRange(PrintWith(n, text), n.kind, LabelEndIn(n, text), TokenAt(n, |HeadWith(n, text)|), Scannable(n));
  }

  /** A label's end stands in the text or after it, and no colon between that end and the text's end. */
  ghost predicate ReachesColon(text: string) {
    exists t :: IsLabel(t) && ReachesColonFrom(text, |Label(t)|) && text[..|Label(t)|] == Label(t)
  }

  predicate ReachesColonFrom(text: string, k: nat) {
    k <= |text| && (text + "]")[k] == ']' && ':' !in (text + "]")[k + 1..]
  }

  /** The text's own label end, if it has one. */
  lemma {:induction false} EarlyEnd(n: Node, text: string, t: Balanced)
    requires n.kind == Definition && IsLabel(t) && |Label(t)| <= |text|
    requires (text + "]")[|Label(t)|] == ']' && text[..|Label(t)|] == Label(t)
    ensures LabelEndOf(PrintWith(n, text)) == Some(|Label(t)| + 1)
  {
    hide IsLabel, Label, LabelEndOf, Rest;
    var s, k := PrintWith(n, text), |Label(t)|;
    assert s == "[" + (text + "]") + (":" + n.gap + Rest(n));
    assert s[1..k + 2] == (text + "]")[..k + 1] == Label(t) + "]";
    LabelEndIsExact(s, k + 1);
  }

  /** The first colon behind position `e` is the definition's own exactly when the text has none there. */
  lemma {:induction false} ColonBehind(n: Node, text: string, e: nat)
    requires n.kind == Definition && e < |PrintWith(n, text)|
    ensures var colon := e + 1 + IndexOf(PrintWith(n, text)[e + 1..], ':');
            colon == |text| + 2 <==> e <= |text| + 1 && ':' !in (text + "]")[e..]
  {
    hide Rest;
    var s, full, outer := PrintWith(n, text), text + "]", n.gap + Rest(n);
    assert s == "[" + full + [':'] + outer;
    IndexOfSpec(s[e + 1..], ':');
    if e <= |text| + 1 {
      assert s[e + 1..] == full[e..] + [':'] + outer;
      if ':' !in full[e..] {
        IndexOfAppend(full[e..], ':', outer);
      } else {
        assert s[e + 1..][..|text| + 1 - e] == full[e..];
      }
    }
  }

  lemma {:induction false} LabelIsText(n: Node, text: string, e: nat) returns (t: Balanced)
    requires n.kind == Definition && e <= |text| + 1 && ClosesLabel(PrintWith(n, text), e)
    ensures 0 < e && IsLabel(t) && text[..e - 1] == Label(t) && (text + "]")[e - 1] == ']'
  {
    hide IsLabel, Label, Rest;
    var s, full := PrintWith(n, text), text + "]";
    assert s == "[" + full + (":" + n.gap + Rest(n));
    assert IndexOf(s, '[') == 0;
    t :| IsLabel(t) && s[1..e + 1] == Label(t) + "]";
    assert s[1..e + 1] == full[..e] == full[..e - 1] + [full[e - 1]];
    SameBeforeLast(full[..e - 1], Label(t), ']');
    assert (Label(t) + "]")[e - 1] == ']';
    assert full[..e - 1] == text[..e - 1];
  }

  /** The first colon behind the label's end is the definition's own exactly in those texts. */
  lemma {:induction false} ColonIsExact(n: Node, text: string, e: nat)
    requires n.kind == Definition && LabelEndOf(PrintWith(n, text)) == Some(e)
    ensures e + 1 + IndexOf(PrintWith(n, text)[e + 1..], ':') == LabelEndIn(n, text) + 1 <==> ReachesColon(text)
  {
    hide LabelEndOf, Label, IsLabel;
    var s, full := PrintWith(n, text), text + "]";
    ColonBehind(n, text, e);
    if ReachesColon(text) {
      var t :| IsLabel(t) && ReachesColonFrom(text, |Label(t)|) && text[..|Label(t)|] == Label(t);
      EarlyEnd(n, text, t);
    }
    if e <= |text| + 1 && ':' !in full[e..] {
      LabelEndIsExact(s, e);
      var t := LabelIsText(n, text, e);
    }
  }

  lemma {:induction false} IndexOfHits(s: string, c: char)
    ensures IndexOf(s, c) < |s| ==> s[IndexOf(s, c)] == c
  {
    IndexOfSpec(s, c);
  }

  /** The first colon behind a definition's label is its own. */
  ghost predicate OwnColon(s: string, own: nat) {
    LabelEndOf(s).Some? && var e := LabelEndOf(s).value; e + 1 + IndexOf(s[e + 1..], ':') == own
  }

  lemma {:induction false} DefinitionRange(s: string, own: nat, range: Range, right: bool)
    requires OnlyBehind(s, ':', own, range, right)
    ensures RangeOf(s, Definition) == Ok(range) <==> OwnColon(s, own) && right
  {
    hide RangeFrom, Spaces, LabelEndOf, IndexOf;
    match LabelEndOf(s)
    case None =>
    case Some(e) =>
      IndexOfHits(s[e + 1..], ':');
      var colon := e + 1 + IndexOf(s[e + 1..], ':');
      assert colon < |s| ==> s[colon] == ':' && LeadsRight(s, colon, own, range, right);
  }

  /** A definition's destination is found exactly when it is scannable and the first colon is its own. */
  lemma {:induction false} DefinitionIsExact(n: Node, text: string)
    requires IsNode(n) && n.kind == Definition
    ensures var found := RangeOf(PrintWith(n, text), n.kind);
            found == Ok(TokenAt(n, |HeadWith(n, text)|)) <==> ReachesColon(text) && Scannable(n)
  {
    assert Separator(n) == ':';
    OwnColonIsExact(n, text);
    hide *;
    OnlyBehindOwn(n, text);
    DefinitionRange(PrintWith(n, text), LabelEndIn(n, text) + 1, TokenAt(n, |HeadWith(n, text)|), Scannable(n));
  }

  lemma {:induction false} OwnColonIsExact(n: Node, text: string)
    requires n.kind == Definition
    ensures OwnColon(PrintWith(n, text), LabelEndIn(n, text) + 1) <==> ReachesColon(text)
  {
    hide LabelEndOf, PrintWith, ReachesColon, IndexOf;
    match LabelEndOf(PrintWith(n, text))
    case None =>
      NoEnd(n, text);
    case Some(e) =>
      ColonIsExact(n, text, e);
  }

  lemma {:induction false} NoEnd(n: Node, text: string)
    requires n.kind == Definition && LabelEndOf(PrintWith(n, text)).None?
    ensures !ReachesColon(text)
  {
    hide LabelEndOf, Label, IsLabel;
    if ReachesColon(text) {
      var t :| IsLabel(t) && ReachesColonFrom(text, |Label(t)|) && text[..|Label(t)|] == Label(t);
      EarlyEnd(n, text, t);
    }
  }

  // ---- Code spans ----

  /** A closing bracket in a code span is taken for the label's end. */
  lemma {:induction false} CodeSpanInLabel()
    ensures RangeOf("[`]`](x)", Link) == Err(NoInlineDestination)
  {
    var rest := "`]`](x)";
    assert "[`]`](x)"[1..] == rest;
    assert rest[1..] == "]`](x)";
    assert Close(rest[1..], 1) == Some(0);
    assert Close(rest, 1) == Some(1);
  }

  lemma {:induction false} OneLetterEach(c: char, d: char, tail: string)
    requires c !in "\\[]" && !IsBlankOrControl(d) && !IsSpace(d) && d !in "\\()<" && tail != "" && tail[0] == ')'
    ensures RangeOf("[" + [c] + "](" + [d] + tail, Link) == Ok(Range(4, 5))
  {
    var n := Node(Link, Plain(c, Nil), "", Bare(Plain(d, Nil), false), tail);
    OneLetter(c, '[', ']');
    OneLetter(d, '(', ')');
    hide IsSpace, IsBlankOrControl, Print, WellFormed, Unspaced, NoTopSpace, RangeOf;
    assert IsNode(n) && Scannable(n) && TokenRange(n) == Range(4, 5);
    assert PrintNode(n) == "[" + [c] + "](" + [d] + tail;
    hide *;
    DestinationIsExact(n);
  }

  /** A link written in a code span of the label has its destination taken for the link's own. */
  lemma {:induction false} LinkInCodeSpan() returns (s: string)
    ensures s == "[`](y)`](x)" && RangeOf(s, Link) == Ok(Range(4, 5))
  {
    var c, d, tail := '`', 'y', ")`](x)";
    s := "[" + [c] + "](" + [d] + tail;
    OneLetterEach(c, d, tail);
  }
}
