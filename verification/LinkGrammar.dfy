/** Printed links, images and definitions, and exactly when their destination is found. */
module LinkGrammar {
  import opened Outcomes
  import opened Text
  import opened Whitespace
  import opened LinkDestinations

  /** Text with backslash escapes and balanced pairs of one kind of bracket. */
  datatype Balanced =
    | Nil
    | Plain(c: char, rest: Balanced)
    | Escaped(c: char, rest: Balanced)
    | Group(inner: Balanced, rest: Balanced)

  function Print(t: Balanced, open: char, close: char): string {
    match t
    case Nil => ""
    case Plain(c, rest) => [c] + Print(rest, open, close)
    case Escaped(c, rest) => ['\\', c] + Print(rest, open, close)
    case Group(inner, rest) => [open] + Print(inner, open, close) + [close] + Print(rest, open, close)
  }

  /** Every bracket and backslash is escaped or part of a pair. */
  predicate WellFormed(t: Balanced, open: char, close: char) {
    match t
    case Nil => true
    case Plain(c, rest) => c != '\\' && c != open && c != close && WellFormed(rest, open, close)
    case Escaped(_, rest) => WellFormed(rest, open, close)
    case Group(inner, rest) => WellFormed(inner, open, close) && WellFormed(rest, open, close)
  }

  predicate IsLabel(t: Balanced) { WellFormed(t, '[', ']') }

  function Label(t: Balanced): string { Print(t, '[', ']') }

  // ---- Labels ----

  lemma {:induction false} CloseGroup(inner: string, rest: string, q: string, depth: nat)
    requires depth > 0
    requires Close(inner + ("]" + rest + q), depth + 1) == Plus(|inner|, Close("]" + rest + q, depth + 1))
    requires Close(rest + q, depth) == Plus(|rest|, Close(q, depth))
    ensures Close("[" + inner + "]" + rest + q, depth) == Plus(|inner| + |rest| + 2, Close(q, depth))
  {
    var s, after := "[" + inner + "]" + rest + q, "]" + rest + q;
    assert s[1..] == inner + after;
    assert after[1..] == rest + q;
  }

  lemma {:induction false} CloseAfter(t: Balanced, q: string, depth: nat)
    requires IsLabel(t) && depth > 0
    ensures Close(Label(t) + q, depth) == Plus(|Label(t)|, Close(q, depth))
    decreases t
  {
    match t
    case Nil =>
      assert Label(t) + q == q;
    case Plain(c, rest) =>
      CloseAfter(rest, q, depth);
      assert (Label(t) + q)[1..] == Label(rest) + q;
    case Escaped(c, rest) =>
      CloseAfter(rest, q, depth);
      assert Skip(Label(t) + q, 2) == Label(rest) + q;
    case Group(inner, rest) =>
      CloseAfter(rest, q, depth);
      CloseAfter(inner, "]" + Label(rest) + q, depth + 1);
      hide Close;
      CloseGroup(Label(inner), Label(rest), q, depth);
  }

  /** The text is a label, the bracket that closes it, and the rest. */
  predicate Reads(s: string, t: Balanced, outer: string) {
    IsLabel(t) && s == Label(t) + "]" + outer
  }

  lemma {:induction false} ReadsOne(s: string, t: Balanced, outer: string)
    requires s != "" && s[0] !in "\\[]" && Reads(s[1..], t, outer)
    ensures Reads(s, Plain(s[0], t), outer)
  {
    assert s == [s[0]] + s[1..];
  }

  lemma {:induction false} ReadsEscape(s: string, t: Balanced, outer: string)
    requires |s| > 1 && s[0] == '\\' && Reads(s[2..], t, outer)
    ensures Reads(s, Escaped(s[1], t), outer)
  {
    assert s == [s[0], s[1]] + s[2..];
  }

  lemma {:induction false} ReadsGroup(s: string, inner: Balanced, rest: string, t: Balanced, outer: string)
    requires s != "" && s[0] == '[' && Reads(s[1..], inner, rest) && Reads(rest, t, outer)
    ensures Reads(s, Group(inner, t), outer)
  {
    assert s == ['['] + Label(inner) + "]" + rest;
    assert s == (['['] + Label(inner) + [']'] + Label(t)) + "]" + outer;
  }

  /** Every text whose brackets close starts with a label. */
  lemma {:induction false} LabelOf(s: string, depth: nat) returns (t: Balanced, outer: string)
    requires depth > 0 && Close(s, depth).Some?
    ensures Reads(s, t, outer)
    ensures depth > 1 ==> Close(outer, depth - 1).Some?
    decreases |s|
  {
    hide Reads;
    if s[0] == '\\' {
      t, outer := LabelOf(s[2..], depth);
      ReadsEscape(s, t, outer);
      t := Escaped(s[1], t);
    } else if s[0] == '[' {
      var inner, rest := LabelOf(s[1..], depth + 1);
      ReadsShorter(s[1..], inner, rest);
      t, outer := LabelOf(rest, depth);
      ReadsGroup(s, inner, rest, t, outer);
      t := Group(inner, t);
    } else if s[0] == ']' {
      t, outer := Nil, s[1..];
      ReadsNothing(s);
    } else {
      t, outer := LabelOf(s[1..], depth);
      ReadsOne(s, t, outer);
      t := Plain(s[0], t);
    }
  }

  lemma {:induction false} ReadsNothing(s: string)
    requires s != "" && s[0] == ']'
    ensures Reads(s, Nil, s[1..])
  {
  }

  lemma {:induction false} ReadsShorter(s: string, t: Balanced, outer: string)
    requires Reads(s, t, outer)
    ensures |outer| < |s|
  {
  }

  lemma {:induction false} ReadsEnd(s: string, t: Balanced, outer: string)
    requires Reads(s, t, outer)
    ensures Close(s, 1) == Some(|Label(t)|) && s[..|Label(t)| + 1] == Label(t) + "]"
  {
    assert s == Label(t) + ("]" + outer);
    CloseAfter(t, "]" + outer, 1);
  }

  /** `end` closes the first bracket of the text, around a balanced label. */
  ghost predicate ClosesLabel(s: string, end: nat) {
    var first := IndexOf(s, '[');
    first < end < |s| && exists t :: IsLabel(t) && s[first + 1..end + 1] == Label(t) + "]"
  }

  lemma {:induction false} CutAt(s: string, i: nat, j: nat)
    requires i <= j <= |s|
    ensures s[i..] == s[i..j] + s[j..]
  {
  }

  /** The label's end is found exactly when a balanced label starts at the first bracket. */
  lemma {:induction false} LabelEndIsExact(s: string, end: nat)
    ensures LabelEndOf(s) == Some(end) <==> ClosesLabel(s, end)
  {
    hide IsLabel, Label;
    var first := IndexOf(s, '[');
    if ClosesLabel(s, end) {
      var t :| IsLabel(t) && s[first + 1..end + 1] == Label(t) + "]";
      CutAt(s, first + 1, end + 1);
      ReadsEnd(s[first + 1..], t, s[end + 1..]);
      assert |Label(t)| == end - first - 1;
    }
    if LabelEndOf(s) == Some(end) {
      var t, outer := LabelOf(s[first + 1..], 1);
      ReadsEnd(s[first + 1..], t, outer);
      assert end == first + 1 + |Label(t)|;
      assert s[first + 1..end + 1] == s[first + 1..][..|Label(t)| + 1];
    }
  }

  // ---- Destinations ----

  /** A destination as written: bare, possibly ending in a lone backslash, or in angle brackets. */
  datatype Destination = Bare(text: Balanced, backslash: bool) | Angled(text: Balanced)

  predicate IsAsciiSpace(c: char) { c == ' ' || c == '\t' || c == '\n' || c == '\r' }

  predicate IsBlankOrControl(c: char) { c <= ' ' || c == '\U{7F}' }

  /** No ASCII space or control character anywhere. */
  predicate Unspaced(t: Balanced) {
    match t
    case Nil => true
    case Plain(c, rest) => !IsBlankOrControl(c) && Unspaced(rest)
    case Escaped(c, rest) => !IsBlankOrControl(c) && Unspaced(rest)
    case Group(inner, rest) => Unspaced(inner) && Unspaced(rest)
  }

  /** Escapes and plain characters only, all on one line. */
  predicate Flat(t: Balanced) {
    match t
    case Nil => true
    case Plain(c, rest) => c != '\n' && c != '\r' && Flat(rest)
    case Escaped(c, rest) => c != '\n' && c != '\r' && Flat(rest)
    case Group(_, _) => false
  }

  /** The destinations of section 6.3 of CommonMark 0.31.2. */
  predicate IsDestination(d: Destination) {
    match d
    case Bare(t, _) => WellFormed(t, '(', ')') && Unspaced(t) && (t.Plain? ==> t.c != '<')
    case Angled(t) => WellFormed(t, '<', '>') && Flat(t)
  }

  /** The part of the text that names the target. */
  function Token(d: Destination): string {
    match d
    case Bare(t, backslash) => Print(t, '(', ')') + if backslash then "\\" else ""
    case Angled(t) => Print(t, '<', '>')
  }

  function Written(d: Destination): string {
    if d.Angled? then "<" + Token(d) + ">" else Token(d)
  }

  /** A link, image or definition as the Markdown parser accepts it. */
  datatype Node = Node(kind: NodeKind, caption: Balanced, gap: string, destination: Destination, tail: string)

  /** Everything before the destination, with any text in the label's place. */
  function HeadWith(n: Node, text: string): string {
    (if n.kind == Image then "!" else "") + "[" + text + "]" + (if n.kind == Definition then ":" else "(") + n.gap
  }

  function Head(n: Node): string {
    HeadWith(n, Label(n.caption))
  }

  /** The destination and what follows it. */
  function Rest(n: Node): string {
    Written(n.destination) + n.tail
  }

  function PrintNode(n: Node): string {
    Head(n) + Rest(n)
  }

  predicate AllSpaces(s: string) {
    forall i :: 0 <= i < |s| ==> IsAsciiSpace(s[i])
  }

  /** What may follow a destination: a closing parenthesis or a space, or nothing after a definition. */
  predicate IsTail(n: Node) {
    if n.tail == "" then n.kind == Definition
    else IsAsciiSpace(n.tail[0]) || (n.tail[0] == ')' && n.kind != Definition)
  }

  predicate IsNode(n: Node) {
    && IsLabel(n.caption) && AllSpaces(n.gap) && IsDestination(n.destination) && IsTail(n)
    && (Written(n.destination) == "" ==> n.tail != "" && n.tail[0] == ')')
    && (n.destination.Bare? && n.destination.backslash ==> n.tail == "" || n.tail[0] != ')')
  }

  /** The range of a destination written at position `at`. */
  function TokenAt(n: Node, at: nat): Range {
    var start := at + if n.destination.Angled? then 1 else 0;
    Range(start, start + |Token(n.destination)|)
  }

  function TokenRange(n: Node): Range {
    TokenAt(n, |Head(n)|)
  }

  /** No whitespace outside parentheses, escapes aside. */
  predicate NoTopSpace(t: Balanced) {
    match t
    case Nil => true
    case Plain(c, rest) => !IsSpace(c) && NoTopSpace(rest)
    case Escaped(_, rest) => NoTopSpace(rest)
    case Group(_, rest) => NoTopSpace(rest)
  }

  lemma {:induction false} BareGroup(inner: string, rest: string, q: string, depth: nat)
    requires BareEnd(inner + (")" + rest + q), depth + 1) == |inner| + BareEnd(")" + rest + q, depth + 1)
    requires BareEnd(rest + q, depth) == |rest| + BareEnd(q, depth)
    ensures BareEnd("(" + inner + ")" + rest + q, depth) == |inner| + |rest| + 2 + BareEnd(q, depth)
  {
    hide IsSpace;
    var s, after := "(" + inner + ")" + rest + q, ")" + rest + q;
    assert s[1..] == inner + after;
    assert after[1..] == rest + q;
  }

  lemma {:induction false} BareOne(c: char, rest: string, q: string, depth: nat)
    requires c !in "\\()" && (depth == 0 ==> !IsSpace(c))
    ensures BareEnd([c] + rest + q, depth) == 1 + BareEnd(rest + q, depth)
  {
    assert ([c] + rest + q)[1..] == rest + q;
  }

  lemma {:induction false} BareTwo(c: char, rest: string, q: string, depth: nat)
    ensures BareEnd(['\\', c] + rest + q, depth) == 2 + BareEnd(rest + q, depth)
  {
    assert (['\\', c] + rest + q)[2..] == rest + q;
  }

  lemma {:induction false} BareAfter(t: Balanced, q: string, depth: nat)
    requires WellFormed(t, '(', ')') && (depth == 0 ==> NoTopSpace(t))
    ensures BareEnd(Print(t, '(', ')') + q, depth) == |Print(t, '(', ')')| + BareEnd(q, depth)
  {
    hide IsSpace, BareEnd;
    match t
    case Nil =>
      assert Print(t, '(', ')') + q == q;
    case Plain(c, rest) =>
      BareAfter(rest, q, depth);
      BareOne(c, Print(rest, '(', ')'), q, depth);
    case Escaped(c, rest) =>
      BareAfter(rest, q, depth);
      BareTwo(c, Print(rest, '(', ')'), q, depth);
    case Group(inner, rest) =>
      BareAfter(rest, q, depth);
      BareAfter(inner, ")" + Print(rest, '(', ')') + q, depth + 1);
      BareGroup(Print(inner, '(', ')'), Print(rest, '(', ')'), q, depth);
  }

  lemma {:induction false} BareStopsGroup(inner: string, rest: string, q: string)
    requires BareEnd(inner + (")" + rest + q), 1) == |inner| + BareEnd(")" + rest + q, 1)
    requires BareEnd(rest + q, 0) < |rest|
    ensures BareEnd("(" + inner + ")" + rest + q, 0) < |inner| + |rest| + 2
  {
    hide IsSpace;
    var s, after := "(" + inner + ")" + rest + q, ")" + rest + q;
    assert s[1..] == inner + after;
    assert after[1..] == rest + q;
  }

  /** Whitespace outside parentheses ends the scan early. */
  lemma {:induction false} BareStops(t: Balanced, q: string)
    requires WellFormed(t, '(', ')') && !NoTopSpace(t)
    ensures BareEnd(Print(t, '(', ')') + q, 0) < |Print(t, '(', ')')|
  {
    hide IsSpace;
    var s := Print(t, '(', ')') + q;
    match t
    case Nil =>
    case Plain(c, rest) =>
      if !IsSpace(c) {
        BareStops(rest, q);
        assert s[1..] == Print(rest, '(', ')') + q;
      }
    case Escaped(c, rest) =>
      BareStops(rest, q);
      assert s[2..] == Print(rest, '(', ')') + q;
    case Group(inner, rest) =>
      BareStops(rest, q);
      BareAfter(inner, ")" + Print(rest, '(', ')') + q, 1);
      BareStopsGroup(Print(inner, '(', ')'), Print(rest, '(', ')'), q);
  }

  lemma {:induction false} AngleAfter(t: Balanced, q: string)
    requires WellFormed(t, '<', '>') && Flat(t)
    ensures AngleEnd(Print(t, '<', '>') + ">" + q) == Some(|Print(t, '<', '>')|)
  {
    var s := Print(t, '<', '>') + ">" + q;
    match t
    case Nil =>
    case Plain(c, rest) =>
      AngleAfter(rest, q);
      assert s[1..] == Print(rest, '<', '>') + ">" + q;
    case Escaped(c, rest) =>
      AngleAfter(rest, q);
      assert Skip(s, 2) == Print(rest, '<', '>') + ">" + q;
  }

  lemma {:induction false} SpacesAfter(gap: string, q: string)
    requires AllSpaces(gap)
    ensures Spaces(gap + q) == |gap| + Spaces(q)
  {
    if gap == "" {
      assert gap + q == q;
    } else {
      SpacesAfter(gap[1..], q);
      assert (gap + q)[1..] == gap[1..] + q;
    }
  }

  // ---- The destination of a printed node ----

  /**
   * The destination holds nothing the scan takes for its end or beyond: no Unicode space outside
   * parentheses, and no lone backslash before whatever follows.
   */
  predicate Scannable(n: Node) {
    match n.destination
    case Angled(_) => true
    case Bare(t, backslash) => NoTopSpace(t) && (backslash ==> n.tail == "")
  }

  lemma {:induction false} LabelEndAfter(raw: string, lead: string, caption: Balanced, outer: string)
    requires '[' !in lead && IsLabel(caption) && raw == lead + "[" + (Label(caption) + "]" + outer)
    ensures var end := |lead| + 1 + |Label(caption)|; LabelEndOf(raw) == Some(end) && raw[end + 1..] == outer
  {
    hide IsLabel, Label, Close;
    var inside := Label(caption) + "]" + outer;
    IndexOfAppend(lead, '[', inside);
    assert raw[|lead| + 1..] == inside;
    assert Reads(inside, caption, outer);
    ReadsEnd(inside, caption, outer);
    assert inside[|Label(caption)| + 1..] == outer;
  }

  /** The destination is looked up after the gap. */
  lemma {:induction false} RangeAfterGap(raw: string, kind: NodeKind, end: nat, gap: string, rest: string)
    requires LabelEndOf(raw) == Some(end) && AllSpaces(gap)
    requires raw[end + 1..] == (if kind == Definition then ":" else "(") + (gap + rest)
    ensures var start := end + 2 + |gap| + Spaces(rest);
            start <= |raw| && RangeOf(raw, kind) == RangeFrom(raw, start)
  {
    hide LabelEndOf, Spaces, RangeFrom, AllSpaces;
    var after := raw[end + 1..];
    assert raw[end + 2..] == after[1..] == gap + rest;
    assert raw[end + 1] == after[0];
    SpacesAfter(gap, rest);
  }

  /** Behind a label that ends where it is written, the destination is looked up where it is written. */
  lemma {:induction false} RangeAfterHead(n: Node)
    requires IsNode(n)
    ensures |Head(n)| + Spaces(Rest(n)) <= |PrintNode(n)|
    ensures RangeOf(PrintNode(n), n.kind) == RangeFrom(PrintNode(n), |Head(n)| + Spaces(Rest(n)))
  {
    hide IsDestination, IsLabel, Label, Token, LabelEndOf, Spaces, RangeFrom, RangeOf, AllSpaces, IsTail, Rest;
    var lead := if n.kind == Image then "!" else "";
    var sep := if n.kind == Definition then ":" else "(";
    var raw := lead + "[" + (Label(n.caption) + "]" + (sep + (n.gap + Rest(n))));
    assert PrintNode(n) == raw;
    LabelEndAfter(raw, lead, n.caption, sep + (n.gap + Rest(n)));
    RangeAfterGap(raw, n.kind, |lead| + 1 + |Label(n.caption)|, n.gap, Rest(n));
  }

  lemma {:induction false} AngledFrom(head: string, token: string, tail: string)
    requires AngleEnd(token + ">" + tail) == Some(|token|)
    ensures var rest := "<" + token + ">" + tail;
            RangeFrom(head + rest, |head| + Spaces(rest)) == Ok(Range(|head| + 1, |head| + 1 + |token|))
  {
    hide AngleEnd;
    var rest := "<" + token + ">" + tail;
    assert Spaces(rest) == 0;
    assert (head + rest)[|head| + 1..] == rest[1..] == token + ">" + tail;
    assert (head + rest)[|head|] == rest[0];
  }

  lemma {:induction false} AngledRange(n: Node, head: string)
    requires IsNode(n) && n.destination.Angled?
    ensures RangeFrom(head + Rest(n), |head| + Spaces(Rest(n))) == Ok(TokenAt(n, |head|))
  {
    hide IsLabel, IsTail, AllSpaces, RangeFrom, Spaces, AngleEnd;
    AngleAfter(n.destination.text, n.tail);
    AngledFrom(head, Token(n.destination), n.tail);
  }

  /** What the scan makes of a bare destination and the tail. */
  lemma {:induction false} BareExact(t: Balanced, backslash: bool, tail: string)
    requires WellFormed(t, '(', ')')
    requires tail == "" || IsAsciiSpace(tail[0]) || (tail[0] == ')' && !backslash)
    ensures var text := Print(t, '(', ')') + if backslash then "\\" else "";
            BareEnd(text + tail, 0) == |text| <==> NoTopSpace(t) && (backslash ==> tail == "")
  {
    var q := (if backslash then "\\" else "") + tail;
    assert Print(t, '(', ')') + (if backslash then "\\" else "") + tail == Print(t, '(', ')') + q;
    if NoTopSpace(t) {
      BareAfter(t, q, 0);
    } else {
      BareStops(t, q);
    }
  }

  lemma {:induction false} BareRangeExact(n: Node, head: string)
    requires IsNode(n) && n.destination.Bare?
    ensures RangeFrom(head + Rest(n), |head| + Spaces(Rest(n))) == Ok(TokenAt(n, |head|)) <==> Scannable(n)
  {
    hide IsLabel, AllSpaces, BareEnd, AngleEnd;
    var t, backslash := n.destination.text, n.destination.backslash;
    var raw, at, rest := head + Rest(n), |head|, Rest(n);
    assert raw[at..] == rest;
    BareStart(t, backslash, n.tail);
    if Spaces(rest) == 0 {
      BareExact(t, backslash, n.tail);
      assert at < |raw| ==> raw[at] == rest[0];
    }
  }

  /** A bare destination starts with whitespace only when it holds top-level whitespace, and never with `<`. */
  lemma {:induction false} BareStart(t: Balanced, backslash: bool, tail: string)
    requires IsDestination(Bare(t, backslash)) && (Token(Bare(t, backslash)) == "" ==> tail != "" && tail[0] == ')')
    ensures var rest := Token(Bare(t, backslash)) + tail;
            && rest != "" && rest[0] != '<'
            && (Spaces(rest) > 0 ==> !NoTopSpace(t))
  {
  }

  /** Looked up where it is written, the destination is found exactly when it is scannable, whatever stands before. */
  lemma {:induction false} RangeFromIsExact(n: Node, head: string)
    requires IsNode(n)
    ensures RangeFrom(head + Rest(n), |head| + Spaces(Rest(n))) == Ok(TokenAt(n, |head|)) <==> Scannable(n)
  {
    if n.destination.Angled? {
      AngledRange(n, head);
    } else {
      BareRangeExact(n, head);
    }
  }

  /** The range found is exactly the destination's, for every valid node, exactly when it is scannable. */
  lemma {:induction false} DestinationIsExact(n: Node)
    requires IsNode(n)
    ensures RangeOf(PrintNode(n), n.kind) == Ok(TokenRange(n)) <==> Scannable(n)
  {
    hide IsNode, Head, RangeOf, RangeFrom, Rest, Scannable, TokenAt;
    RangeAfterHead(n);
    RangeFromIsExact(n, Head(n));
  }

  // ---- Destinations that are missed ----

  lemma {:induction false} OneLetter(c: char, open: char, close: char)
    requires c != '\\' && c != open && c != close
    ensures var t := Plain(c, Nil);
            && WellFormed(t, open, close) && Print(t, open, close) == [c]
            && (Unspaced(t) <==> !IsBlankOrControl(c)) && (NoTopSpace(t) <==> !IsSpace(c))
  {
    assert WellFormed(Nil, open, close) && Print(Nil, open, close) == "" && Unspaced(Nil) && NoTopSpace(Nil);
  }

  /** A destination that is a Unicode space, such as a no-break space, is valid and missed. */
  lemma {:induction false} UnicodeSpaceIsMissed(c: char)
    requires IsSpace(c) && !IsBlankOrControl(c)
    ensures var n := Node(Link, Nil, "", Bare(Plain(c, Nil), false), ")");
            IsNode(n) && RangeOf(PrintNode(n), n.kind) != Ok(TokenRange(n))
    ensures IsSpace('\U{A0}') && !IsBlankOrControl('\U{A0}')
  {
    OneLetter(c, '(', ')');
    hide Print, Unspaced, NoTopSpace, RangeOf;
    DestinationIsExact(Node(Link, Nil, "", Bare(Plain(c, Nil), false), ")"));
  }

  /** A destination that ends in a lone backslash is valid before a title, and missed. */
  lemma {:induction false} BackslashBeforeTitleIsMissed(title: string)
    ensures var n := Node(Link, Nil, "", Bare(Plain('x', Nil), true), " " + title + ")");
            IsNode(n) && RangeOf(PrintNode(n), n.kind) != Ok(TokenRange(n))
  {
    OneLetter('x', '(', ')');
    hide Print, Unspaced, NoTopSpace, RangeOf;
    DestinationIsExact(Node(Link, Nil, "", Bare(Plain('x', Nil), true), " " + title + ")"));
  }

  /** Putting a value in the range found rewrites the destination and nothing else. */
  lemma {:induction false} RewritingKeepsTheRest(n: Node, value: string)
    requires IsNode(n) && Scannable(n)
    ensures var raw, found := PrintNode(n), RangeOf(PrintNode(n), n.kind);
            && found.Ok? && found.value.start <= found.value.end <= |raw|
            && raw[..found.value.start] + value + raw[found.value.end..] ==
                 Head(n) + (if n.destination.Angled? then "<" + value + ">" else value) + n.tail
  {
    hide IsNode, Head, RangeOf, Token, Scannable;
    DestinationIsExact(n);
    var raw, r, token := PrintNode(n), TokenRange(n), Token(n.destination);
    if n.destination.Angled? {
      assert raw == (Head(n) + "<") + token + (">" + n.tail);
    } else {
      assert raw == Head(n) + token + n.tail;
    }
  }
}
