/** Generated regions of a document: the partition into regions and kept lines, and its inverse. */
module GeneratedRegions {
  import opened Outcomes
  import opened Text
  import opened Whitespace

  const BEGIN_PREFIX := "<!-- BEGIN GENERATED "
  const END_PREFIX := "<!-- END GENERATED "
  const MARKER_END := " -->"

  datatype LineKind = Begin(slug: string) | End(slug: string) | Malformed | Plain

  predicate Closes(s: string) {
    |s| >= 4 && s[|s| - 4..] == MARKER_END
  }

  /** A begin marker: a slug, and optionally a space and a note without `>`. */
  function BeginSlug(line: string): Option<string> {
    if !(BEGIN_PREFIX <= line) then None
    else
      var body := line[|BEGIN_PREFIX|..];
      var n := WordEnd(body);
      var rest := body[n..];
      if n > 0 && Closes(rest) && (rest == MARKER_END || (|rest| > 4 && rest[0] == ' ' && '>' !in rest[1..|rest| - 4]))
      then Some(body[..n]) else None
  }

  function EndSlug(line: string): Option<string> {
    if !(END_PREFIX <= line) then None
    else
      var body := line[|END_PREFIX|..];
      var n := WordEnd(body);
      if n > 0 && body[n..] == MARKER_END then Some(body[..n]) else None
  }

  function Kind(line: string): LineKind {
    if BeginSlug(line).Some? then Begin(BeginSlug(line).value)
    else if EndSlug(line).Some? then End(EndSlug(line).value)
    else if BEGIN_PREFIX <= line || END_PREFIX <= line then Malformed
    else Plain
  }

  datatype PartitionError =
    | NestedBegin
    | EndWithoutBegin
    | SlugMismatch(end: string, begin: string)
    | MalformedMarker(line: string)
    | UnclosedBegin

  /** A document is a sequence of kept lines and regions. */
  datatype Piece = Kept(line: string) | Region(lines: seq<string>)

  datatype Opened = Opened(slug: string, lines: seq<string>)

  function Prepend(p: Piece, rest: Result<seq<Piece>, PartitionError>): Result<seq<Piece>, PartitionError> {
    match rest
    case Err(e) => Err(e)
    case Ok(pieces) => Ok([p] + pieces)
  }

  /** The pieces of the lines that follow an open region, or nothing open. */
  function Scan(lines: seq<string>, open: Option<Opened>): Result<seq<Piece>, PartitionError>
    decreases |lines|
  {
    if lines == [] then (if open.Some? then Err(UnclosedBegin) else Ok([]))
    else
      var line, rest := lines[0], lines[1..];
      match Kind(line)
      case Begin(slug) =>
        if open.Some? then Err(NestedBegin) else Scan(rest, Some(Opened(slug, [line])))
      case End(slug) =>
        if open.None? then Err(EndWithoutBegin)
        else if slug != open.value.slug then Err(SlugMismatch(slug, open.value.slug))
        else Prepend(Region(open.value.lines + [line]), Scan(rest, None))
      case Malformed => Err(MalformedMarker(line))
      case Plain =>
        if open.Some? then Scan(rest, Some(Opened(open.value.slug, open.value.lines + [line])))
        else Prepend(Kept(line), Scan(rest, None))
  }

  // ---- What the partition means ----

  predicate PlainLines(lines: seq<string>) {
    forall k :: 0 <= k < |lines| ==> Kind(lines[k]) == Plain
  }

  /** A begin marker, plain lines, and the end marker with the same slug. */
  predicate IsRegion(lines: seq<string>) {
    && |lines| >= 2
    && Kind(lines[0]).Begin? && Kind(lines[|lines| - 1]) == End(Kind(lines[0]).slug)
    && PlainLines(lines[1..|lines| - 1])
  }

  predicate IsPiece(p: Piece) {
    match p
    case Kept(line) => Kind(line) == Plain
    case Region(lines) => IsRegion(lines)
  }

  predicate ArePieces(pieces: seq<Piece>) {
    forall k :: 0 <= k < |pieces| ==> IsPiece(pieces[k])
  }

  function Lines(p: Piece): seq<string> {
    match p
    case Kept(line) => [line]
    case Region(lines) => lines
  }

  /** The document back from its pieces. */
  function Flatten(pieces: seq<Piece>): seq<string> {
    if pieces == [] then [] else Lines(pieces[0]) + Flatten(pieces[1..])
  }

  predicate IsOpened(o: Opened) {
    o.lines != [] && Kind(o.lines[0]) == Begin(o.slug) && PlainLines(o.lines[1..])
  }

  lemma {:induction false} PlainAppend(lines: seq<string>, line: string)
    requires lines != [] && PlainLines(lines[1..]) && Kind(line) == Plain
    ensures PlainLines((lines + [line])[1..])
  {
    assert (lines + [line])[1..] == lines[1..] + [line];
  }

  lemma {:induction false} NewlyOpened(slug: string, line: string)
    requires Kind(line) == Begin(slug)
    ensures IsOpened(Opened(slug, [line]))
  {
  }

  lemma {:induction false} ClosedRegion(o: Opened, line: string)
    requires IsOpened(o) && Kind(line) == End(o.slug)
    ensures IsRegion(o.lines + [line])
  {
    var lines := o.lines + [line];
    assert lines[1..|lines| - 1] == o.lines[1..];
  }

  lemma {:induction false} PiecesStep(p: Piece, rest: seq<Piece>)
    requires IsPiece(p) && ArePieces(rest)
    ensures ArePieces([p] + rest) && Flatten([p] + rest) == Lines(p) + Flatten(rest)
  {
    assert ([p] + rest)[1..] == rest;
  }

  lemma {:induction false} NoPieces()
    ensures ArePieces([]) && Flatten([]) == [] && PlainLines([])
  {
  }

  /** No line is lost: the pieces are well formed and interleave back to the document. */
  lemma {:induction false} ScanLosesNothing(lines: seq<string>, open: Option<Opened>)
    requires open.Some? ==> IsOpened(open.value)
    requires Scan(lines, open).Ok?
    ensures ArePieces(Scan(lines, open).value)
    ensures Flatten(Scan(lines, open).value) == (if open.Some? then open.value.lines else []) + lines
    decreases |lines|
  {
    hide Kind, IsRegion, ArePieces, PlainLines;
    NoPieces();
    if lines != [] {
      var line, rest := lines[0], lines[1..];
      assert lines == [line] + rest;
      match Kind(line)
      case Begin(slug) =>
        NewlyOpened(slug, line);
        ScanLosesNothing(rest, Some(Opened(slug, [line])));
      case End(slug) =>
        ScanLosesNothing(rest, None);
        ClosedRegion(open.value, line);
        PiecesStep(Region(open.value.lines + [line]), Scan(rest, None).value);
      case Malformed =>
      case Plain =>
        if open.Some? {
          PlainAppend(open.value.lines, line);
          ScanLosesNothing(rest, Some(Opened(open.value.slug, open.value.lines + [line])));
        } else {
          ScanLosesNothing(rest, None);
          PiecesStep(Kept(line), Scan(rest, None).value);
        }
    }
  }

  /** Inside a region the scan runs to its end marker. */
  lemma {:induction false} ScanInside(o: Opened, plain: seq<string>, end: string, rest: seq<string>)
    requires PlainLines(plain) && Kind(end) == End(o.slug)
    ensures Scan(plain + [end] + rest, Some(o)) == Prepend(Region(o.lines + plain + [end]), Scan(rest, None))
    decreases |plain|
  {
    hide Kind;
    var lines := plain + [end] + rest;
    if plain == [] {
      assert lines[1..] == rest;
      assert o.lines + plain + [end] == o.lines + [end];
    } else {
      var next := Opened(o.slug, o.lines + [plain[0]]);
      assert lines[1..] == plain[1..] + [end] + rest;
      ScanInside(next, plain[1..], end, rest);
      assert next.lines + plain[1..] + [end] == o.lines + plain + [end];
    }
  }

  /** Well-formed pieces are found again in the document they make. */
  lemma {:induction false} ScanFlatten(pieces: seq<Piece>)
    requires ArePieces(pieces)
    ensures Scan(Flatten(pieces), None) == Ok(pieces)
  {
    hide Kind;
    if pieces != [] {
      var p, rest := pieces[0], pieces[1..];
      ScanFlatten(rest);
      assert pieces == [p] + rest;
      match p
      case Kept(line) =>
        assert Flatten(pieces)[1..] == Flatten(rest);
      case Region(lines) =>
        ScanRegion(lines, Flatten(rest));
    }
  }

  lemma {:induction false} ScanRegion(lines: seq<string>, rest: seq<string>)
    requires IsRegion(lines)
    ensures Scan(lines + rest, None) == Prepend(Region(lines), Scan(rest, None))
  {
    hide Kind, Scan;
    var n := |lines| - 1;
    var plain := lines[1..n];
    ScanInside(Opened(Kind(lines[0]).slug, [lines[0]]), plain, lines[n], rest);
    assert [lines[0]] + plain + [lines[n]] == lines;
    ScanBegin(lines[0], plain + [lines[n]] + rest);
    assert lines + rest == [lines[0]] + (plain + [lines[n]] + rest);
  }

  lemma {:induction false} ScanBegin(line: string, rest: seq<string>)
    requires Kind(line).Begin?
    ensures Scan([line] + rest, None) == Scan(rest, Some(Opened(Kind(line).slug, [line])))
  {
    assert ([line] + rest)[1..] == rest;
  }

  /** The partition accepts exactly the documents made of well-formed pieces, and finds those pieces. */
  lemma {:induction false} PartitionIsExact(lines: seq<string>, pieces: seq<Piece>)
    ensures Scan(lines, None) == Ok(pieces) <==> ArePieces(pieces) && Flatten(pieces) == lines
  {
    hide ArePieces, Flatten, Scan;
    if Scan(lines, None) == Ok(pieces) {
      ScanLosesNothing(lines, None);
      assert [] + lines == lines;
    }
    if ArePieces(pieces) && Flatten(pieces) == lines {
      ScanFlatten(pieces);
    }
  }

  // ---- The partition as the scripts run it ----

  datatype Partition = Partition(regions: seq<string>, stripped: string)

  function Regions(pieces: seq<Piece>): seq<string> {
    if pieces == [] then []
    else (if pieces[0].Region? then [Join(pieces[0].lines, "\n")] else []) + Regions(pieces[1..])
  }

  function KeptLines(pieces: seq<Piece>): seq<string> {
    if pieces == [] then []
    else (if pieces[0].Kept? then [pieces[0].line] else []) + KeptLines(pieces[1..])
  }

  function PartitionOf(content: string): Result<Partition, PartitionError> {
    match Scan(Split(content, '\n'), None)
    case Err(e) => Err(e)
    case Ok(pieces) => Ok(Partition(Regions(pieces), Join(KeptLines(pieces), "\n")))
  }

  /** What is left to find, added to what has been found. */
  function Added(regions: seq<string>, kept: seq<string>, rest: Result<seq<Piece>, PartitionError>)
    : Result<Partition, PartitionError>
  {
    match rest
    case Err(e) => Err(e)
    case Ok(pieces) => Ok(Partition(regions + Regions(pieces), Join(kept + KeptLines(pieces), "\n")))
  }

  lemma {:induction false} AddedPiece(regions: seq<string>, kept: seq<string>, p: Piece,
                                      rest: Result<seq<Piece>, PartitionError>)
    ensures Added(regions, kept, Prepend(p, rest)) ==
      if p.Kept? then Added(regions, kept + [p.line], rest) else Added(regions + [Join(p.lines, "\n")], kept, rest)
  {
    if rest.Ok? {
      var pieces := [p] + rest.value;
      assert pieces[1..] == rest.value;
      var kepts, found := KeptLines(rest.value), Regions(rest.value);
      assert kepts == [] + kepts && found == [] + found;
      if p.Kept? {
        assert kept + KeptLines(pieces) == kept + [p.line] + kepts;
      } else {
        assert regions + Regions(pieces) == regions + [Join(p.lines, "\n")] + found;
      }
    }
  }

  method PartitionGeneratedRegions(content: string) returns (partition: Result<Partition, PartitionError>)
    ensures partition == PartitionOf(content)
  {
    hide Kind, Join, Regions, KeptLines;
    var lines := Split(content, '\n');
    var regions: seq<string> := [];
    var kept: seq<string> := [];
    var open: Option<Opened> := None;
    NothingFound(Scan(lines, None));
    assert lines[0..] == lines;
    for i := 0 to |lines|
      invariant Added(regions, kept, Scan(lines[i..], open)) == PartitionOf(content)
    {
      var line := lines[i];
      assert lines[i..][1..] == lines[i + 1..];
      match Kind(line)
      case Begin(slug) =>
        if open.Some? {
          return Err(NestedBegin);
        }
        open := Some(Opened(slug, [line]));
      case End(slug) =>
        if open.None? {
          return Err(EndWithoutBegin);
        }
        if slug != open.value.slug {
          return Err(SlugMismatch(slug, open.value.slug));
        }
        var region := open.value.lines + [line];
        AddedPiece(regions, kept, Region(region), Scan(lines[i + 1..], None));
        regions := regions + [Join(region, "\n")];
        open := None;
      case Malformed =>
        return Err(MalformedMarker(line));
      case Plain =>
        if open.Some? {
          open := Some(Opened(open.value.slug, open.value.lines + [line]));
        } else {
          AddedPiece(regions, kept, Kept(line), Scan(lines[i + 1..], None));
          kept := kept + [line];
        }
    }
    assert lines[|lines|..] == [];
    if open.Some? {
      return Err(UnclosedBegin);
    }
    NoMorePieces(regions, kept);
    return Ok(Partition(regions, Join(kept, "\n")));
  }

  lemma {:induction false} NothingFound(rest: Result<seq<Piece>, PartitionError>)
    ensures rest.Ok? ==> Added([], [], rest) == Ok(Partition(Regions(rest.value), Join(KeptLines(rest.value), "\n")))
    ensures rest.Err? ==> Added([], [], rest) == Err(rest.error)
  {
    if rest.Ok? {
      assert [] + Regions(rest.value) == Regions(rest.value) && [] + KeptLines(rest.value) == KeptLines(rest.value);
    }
  }

  lemma {:induction false} NoMorePieces(regions: seq<string>, kept: seq<string>)
    ensures Added(regions, kept, Ok([])) == Ok(Partition(regions, Join(kept, "\n")))
  {
    assert regions + [] == regions && kept + [] == kept;
  }
}
