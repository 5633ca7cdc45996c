/** The markers of generated regions as they are written, and what every error of the partition means. */
module RegionMarkers {
  import opened Outcomes
  import opened Text
  import opened Whitespace
  import opened GeneratedRegions

  // ---- Markers ----

  predicate IsSlug(slug: string) {
    slug != "" && forall k :: 0 <= k < |slug| ==> !IsSpace(slug[k])
  }

  /** Nothing, or a space and text without `>`. */
  predicate IsNote(note: string) {
    note == "" || (note[0] == ' ' && '>' !in note[1..])
  }

  ghost predicate BeginLine(line: string, slug: string) {
    IsSlug(slug) && exists note: string :: IsNote(note) && line == "<!-- BEGIN GENERATED " + (slug + (note + " -->"))
  }

  predicate EndLine(line: string, slug: string) {
    IsSlug(slug) && line == "<!-- END GENERATED " + (slug + " -->")
  }

  /** The line looks like a marker. */
  ghost predicate MarkerLike(line: string) {
    exists rest: string :: line == "<!-- BEGIN GENERATED " + rest || line == "<!-- END GENERATED " + rest
  }

  lemma {:induction false} SlugEnds(slug: string, rest: string)
    requires IsSlug(slug) && (rest == "" || rest[0] == ' ')
    ensures WordEnd(slug + rest) == |slug|
  {
    WordEndAt(slug, rest);
  }

  lemma {:induction false} BeginSlugIsExact(line: string, slug: string)
    ensures BeginSlug(line) == Some(slug) <==> BeginLine(line, slug)
  {
    hide IsSpace;
    if note: string :| IsSlug(slug) && IsNote(note) && line == "<!-- BEGIN GENERATED " + (slug + (note + " -->")) {
      BeginFound(line, slug, note);
    }
    if BeginSlug(line) == Some(slug) {
      BeginTaken(line, slug);
    }
  }

  lemma {:induction false} BeginFound(line: string, slug: string, note: string)
    requires IsSlug(slug) && IsNote(note) && line == "<!-- BEGIN GENERATED " + (slug + (note + " -->"))
    ensures BeginSlug(line) == Some(slug)
  {
    hide IsSpace;
    var rest := note + " -->";
    var body := slug + rest;
    assert line[|BEGIN_PREFIX|..] == body && line[..|BEGIN_PREFIX|] == BEGIN_PREFIX;
    SlugEnds(slug, rest);
    assert body[|slug|..] == rest && body[..|slug|] == slug;
    assert rest[|rest| - 4..] == MARKER_END;
    if note != "" {
      assert rest[1..|rest| - 4] == note[1..];
    }
  }

  lemma {:induction false} BeginTaken(line: string, slug: string)
    requires BeginSlug(line) == Some(slug)
    ensures BeginLine(line, slug)
  {
    var body := line[|BEGIN_PREFIX|..];
    WordEndSpec(body);
    SlugTaken(body);
    hide IsSpace, WordEnd, Closes;
    var rest := body[WordEnd(body)..];
    NoteTaken(rest);
    var note := rest[..|rest| - 4];
    assert line == BEGIN_PREFIX + body;
    hide BeginSlug;
    assert IsNote(note) && line == "<!-- BEGIN GENERATED " + (slug + (note + " -->"));
  }

  lemma {:induction false} SlugTaken(body: string)
    requires WordEnd(body) > 0
    ensures IsSlug(body[..WordEnd(body)]) && body == body[..WordEnd(body)] + body[WordEnd(body)..]
  {
    WordEndSpec(body);
    hide IsSpace, WordEnd;
  }

  lemma {:induction false} NoteTaken(rest: string)
    requires Closes(rest) && (rest == MARKER_END || (|rest| > 4 && rest[0] == ' ' && '>' !in rest[1..|rest| - 4]))
    ensures IsNote(rest[..|rest| - 4]) && rest == rest[..|rest| - 4] + " -->"
  {
    var note := rest[..|rest| - 4];
    if note != "" {
      assert note[1..] == rest[1..|rest| - 4];
    }
  }

  lemma {:induction false} EndSlugIsExact(line: string, slug: string)
    ensures EndSlug(line) == Some(slug) <==> EndLine(line, slug)
  {
    hide IsSpace;
    if EndLine(line, slug) {
      var body := slug + " -->";
      assert line[|END_PREFIX|..] == body && line[..|END_PREFIX|] == END_PREFIX;
      SlugEnds(slug, " -->");
      assert body[|slug|..] == " -->" && body[..|slug|] == slug;
    }
    if EndSlug(line) == Some(slug) {
      var body := line[|END_PREFIX|..];
      WordEndSpec(body);
      assert line == END_PREFIX + body && body == slug + " -->";
    }
  }

  lemma {:induction false} HintIsExact(line: string)
    ensures MarkerLike(line) <==> BEGIN_PREFIX <= line || END_PREFIX <= line
  {
    if BEGIN_PREFIX <= line {
      assert line == "<!-- BEGIN GENERATED " + line[|BEGIN_PREFIX|..];
    }
    if END_PREFIX <= line {
      assert line == "<!-- END GENERATED " + line[|END_PREFIX|..];
    }
  }

  /** What every line is: a begin marker, an end marker, a text that looks like one and is none, or plain. */
  lemma {:induction false} KindIsExact(line: string)
    ensures forall slug :: Kind(line) == Begin(slug) <==> BeginLine(line, slug)
    ensures forall slug :: Kind(line) == End(slug) <==> EndLine(line, slug)
    ensures Kind(line) == Malformed <==>
      MarkerLike(line) && (forall slug :: !BeginLine(line, slug)) && forall slug :: !EndLine(line, slug)
    ensures Kind(line) == Plain <==> !MarkerLike(line)
  {
    HintIsExact(line);
    forall slug
      ensures BeginSlug(line) == Some(slug) <==> BeginLine(line, slug)
      ensures EndSlug(line) == Some(slug) <==> EndLine(line, slug)
    {
      BeginSlugIsExact(line, slug);
      EndSlugIsExact(line, slug);
    }
    PrefixesDiffer(line);
    BeginIsMarked(line);
    EndIsMarked(line);
    hide BeginSlug, EndSlug, BeginLine, EndLine, MarkerLike;
    assert BeginSlug(line).Some? ==> BeginLine(line, BeginSlug(line).value);
    assert EndSlug(line).Some? ==> EndLine(line, EndSlug(line).value);
  }

  lemma {:induction false} PrefixesDiffer(line: string)
    ensures !(BEGIN_PREFIX <= line && END_PREFIX <= line)
  {
    assert BEGIN_PREFIX[5] != END_PREFIX[5];
  }

  lemma {:induction false} BeginIsMarked(line: string)
    ensures BeginSlug(line).Some? ==> BEGIN_PREFIX <= line
  {
  }

  lemma {:induction false} EndIsMarked(line: string)
    ensures EndSlug(line).Some? ==> END_PREFIX <= line
  {
  }

  // ---- The parts of a partition ----

  /** What is kept, in order. */
  lemma {:induction false} KeptLinesAre(a: seq<Piece>, b: seq<Piece>, line: string, region: seq<string>)
    ensures KeptLines(a + b) == KeptLines(a) + KeptLines(b)
    ensures KeptLines([Kept(line)]) == [line] && KeptLines([Region(region)]) == []
  {
    assert [Kept(line)][1..] == [] && [Region(region)][1..] == [];
    if a == [] {
      assert a + b == b;
    } else {
      assert (a + b)[1..] == a[1..] + b;
      KeptLinesAre(a[1..], b, line, region);
    }
  }

  /** The regions, in order. */
  lemma {:induction false} RegionsAre(a: seq<Piece>, b: seq<Piece>, line: string, region: seq<string>)
    ensures Regions(a + b) == Regions(a) + Regions(b)
    ensures Regions([Kept(line)]) == [] && Regions([Region(region)]) == [Join(region, "\n")]
  {
    hide Join;
    assert [Kept(line)][1..] == [] && [Region(region)][1..] == [];
    if a == [] {
      assert a + b == b;
    } else {
      assert (a + b)[1..] == a[1..] + b;
      RegionsAre(a[1..], b, line, region);
    }
  }

  // ---- Errors ----

  /** A document that goes wrong: pieces, possibly an open region, and what cannot follow. */
  ghost predicate GoesWrong(lines: seq<string>, error: PartitionError) {
    exists pieces: seq<Piece>, open: seq<string>, rest: seq<string> ::
      ArePieces(pieces) && lines == Flatten(pieces) + (open + rest) && IsWrong(open, rest, error)
  }

  /** An open region has its begin marker and plain lines. */
  predicate IsOpen(open: seq<string>) {
    open != [] && Kind(open[0]).Begin? && PlainLines(open[1..])
  }

  /** What cannot follow an open region, or none. */
  predicate IsWrong(open: seq<string>, rest: seq<string>, error: PartitionError) {
    match error
    case UnclosedBegin => IsOpen(open) && rest == []
    case NestedBegin => IsOpen(open) && rest != [] && Kind(rest[0]).Begin?
    case EndWithoutBegin => open == [] && rest != [] && Kind(rest[0]).End?
    case SlugMismatch(end, begin) =>
      && IsOpen(open) && rest != [] && Kind(open[0]) == Begin(begin) && Kind(rest[0]) == End(end) && begin != end
    case MalformedMarker(line) =>
      (open == [] || IsOpen(open)) && rest != [] && Kind(rest[0]) == Malformed && line == rest[0]
  }

  lemma {:induction false} PiecesFirst(pieces: seq<Piece>, rest: seq<string>)
    requires ArePieces(pieces) && Scan(rest, None).Err?
    ensures Scan(Flatten(pieces) + rest, None) == Scan(rest, None)
  {
    hide Kind;
    if pieces == [] {
      assert Flatten(pieces) + rest == rest;
    } else {
      var p, others := pieces[0], pieces[1..];
      PiecesFirst(others, rest);
      assert Flatten(pieces) + rest == Lines(p) + (Flatten(others) + rest);
      match p
      case Kept(line) =>
        assert ([line] + (Flatten(others) + rest))[1..] == Flatten(others) + rest;
      case Region(lines) =>
        ScanRegion(lines, Flatten(others) + rest);
    }
  }

  lemma {:induction false} OpenScanned(o: Opened, plain: seq<string>, rest: seq<string>)
    requires PlainLines(plain)
    ensures Scan(plain + rest, Some(o)) == Scan(rest, Some(Opened(o.slug, o.lines + plain)))
    decreases |plain|
  {
    hide Kind;
    if plain == [] {
      assert plain + rest == rest && o.lines + plain == o.lines;
    } else {
      var next := Opened(o.slug, o.lines + [plain[0]]);
      assert (plain + rest)[1..] == plain[1..] + rest;
      OpenScanned(next, plain[1..], rest);
      assert next.lines + plain[1..] == o.lines + plain;
    }
  }

  lemma {:induction false} WrongFails(open: seq<string>, rest: seq<string>, error: PartitionError)
    requires IsWrong(open, rest, error)
    ensures Scan(open + rest, None) == Err(error)
  {
    hide Kind;
    if open == [] {
      assert open + rest == rest;
    } else {
      var slug := Kind(open[0]).slug;
      assert open + rest == [open[0]] + (open[1..] + rest);
      ScanBegin(open[0], open[1..] + rest);
      OpenScanned(Opened(slug, [open[0]]), open[1..], rest);
    }
  }

  /** Where a scan that fails from an open region, or none, goes wrong. */
  lemma {:induction false} FailsSomewhere(lines: seq<string>, open: Option<Opened>, error: PartitionError)
    returns (pieces: seq<Piece>, last: seq<string>, rest: seq<string>)
    requires open.Some? ==> IsOpened(open.value)
    requires Scan(lines, open) == Err(error)
    ensures ArePieces(pieces) && IsWrong(last, rest, error)
    ensures (if open.Some? then open.value.lines else []) + lines == Flatten(pieces) + (last + rest)
    decreases |lines|, 1
  {
    hide Kind;
    var before := if open.Some? then open.value.lines else [];
    if lines == [] {
      pieces, last, rest := [], before, [];
    } else {
      var line, others := lines[0], lines[1..];
      assert lines == [line] + others;
      if GoesOn(line, open) {
        pieces, last, rest := FailsLater(line, others, open, error);
      } else {
        pieces, last, rest := [], before, lines;
      }
    }
  }

  /** The line can follow. */
  predicate GoesOn(line: string, open: Option<Opened>) {
    match Kind(line)
    case Begin(_) => open.None?
    case End(slug) => open.Some? && slug == open.value.slug
    case Malformed => false
    case Plain => true
  }

  lemma {:induction false} FailsLater(line: string, others: seq<string>, open: Option<Opened>, error: PartitionError)
    returns (pieces: seq<Piece>, last: seq<string>, rest: seq<string>)
    requires open.Some? ==> IsOpened(open.value)
    requires GoesOn(line, open) && Scan([line] + others, open) == Err(error)
    ensures ArePieces(pieces) && IsWrong(last, rest, error)
    ensures (if open.Some? then open.value.lines else []) + ([line] + others) == Flatten(pieces) + (last + rest)
    decreases |others| + 1, 0
  {
    hide Kind, IsWrong, IsRegion, ArePieces;
    assert ([line] + others)[1..] == others;
    match Kind(line)
    case Begin(slug) =>
      NewlyOpened(slug, line);
      pieces, last, rest := FailsSomewhere(others, Some(Opened(slug, [line])), error);
      assert [] + ([line] + others) == [line] + others;
    case End(slug) =>
      ClosedRegion(open.value, line);
      pieces, last, rest := FailsSomewhere(others, None, error);
      PiecesStep(Region(open.value.lines + [line]), pieces);
      Associate(open.value.lines, [line], others);
      assert [] + others == others;
      Associate(open.value.lines + [line], Flatten(pieces), last + rest);
      pieces := [Region(open.value.lines + [line])] + pieces;
    case Plain =>
      if open.Some? {
        PlainAppend(open.value.lines, line);
        pieces, last, rest := FailsSomewhere(others, Some(Opened(open.value.slug, open.value.lines + [line])), error);
        Associate(open.value.lines, [line], others);
      } else {
        pieces, last, rest := FailsSomewhere(others, None, error);
        PiecesStep(Kept(line), pieces);
        assert [] + others == others && [] + ([line] + others) == [line] + others;
        Associate([line], Flatten(pieces), last + rest);
        pieces := [Kept(line)] + pieces;
      }
  }

  /** Each error is reported exactly for the documents that first go wrong in its way. */
  lemma {:induction false} ErrorsAreExact(lines: seq<string>, error: PartitionError)
    ensures Scan(lines, None) == Err(error) <==> GoesWrong(lines, error)
  {
    hide Scan, IsWrong;
    if Scan(lines, None) == Err(error) {
      var pieces, last, rest := FailsSomewhere(lines, None, error);
      assert [] + lines == lines;
    }
    if pieces: seq<Piece>, open: seq<string>, rest: seq<string> :|
      ArePieces(pieces) && lines == Flatten(pieces) + (open + rest) && IsWrong(open, rest, error) {
      WrongFails(open, rest, error);
      PiecesFirst(pieces, open + rest);
    }
  }
}
