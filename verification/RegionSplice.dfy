/** Splicing one generator's region into a page: a lens on the page's pieces. */
module RegionSplice {
  import opened Outcomes
  import opened Text
  import opened Whitespace
  import opened GeneratedRegions

  const SLUG := "cordis-surface"
  const NOTE := "(gen-cordis-catalog.ts)" + " — do not edit" + " between markers"
  const REGION_BEGIN := BEGIN_PREFIX + SLUG + " " + NOTE + MARKER_END
  const REGION_END := END_PREFIX + SLUG + MARKER_END

  datatype SpliceError = WrongCount(begins: nat, ends: nat) | EndFirst

  /** Every position of a line, in order, from `at` on. */
  function Positions(lines: seq<string>, line: string, at: nat): seq<nat>
    requires at <= |lines|
    decreases |lines| - at
  {
    if at == |lines| then []
    else (if lines[at] == line then [at] else []) + Positions(lines, line, at + 1)
  }

  lemma {:induction false} PositionsAreBounded(lines: seq<string>, line: string, at: nat)
    requires at <= |lines|
    ensures forall k :: 0 <= k < |Positions(lines, line, at)| ==> at <= Positions(lines, line, at)[k] < |lines|
    decreases |lines| - at
  {
    if at < |lines| {
      PositionsAreBounded(lines, line, at + 1);
    }
  }

  function SpliceLines(lines: seq<string>, region: seq<string>): Result<seq<string>, SpliceError> {
    var begins, ends := Positions(lines, REGION_BEGIN, 0), Positions(lines, REGION_END, 0);
    PositionsAreBounded(lines, REGION_BEGIN, 0);
    PositionsAreBounded(lines, REGION_END, 0);
    if |begins| != 1 || |ends| != 1 then Err(WrongCount(|begins|, |ends|))
    else if ends[0] < begins[0] then Err(EndFirst)
    else Ok(lines[..begins[0]] + region + lines[ends[0] + 1..])
  }

  function SpliceRegion(content: string, region: string): Result<string, SpliceError> {
    match SpliceLines(Split(content, '\n'), Split(region, '\n'))
    case Err(e) => Err(e)
    case Ok(lines) => Ok(Join(lines, "\n"))
  }

  // ---- The only region of this generator ----

  predicate OnlyAt(lines: seq<string>, line: string, p: nat) {
    p < |lines| && lines[p] == line && forall k :: 0 <= k < |lines| && k != p ==> lines[k] != line
  }

  lemma {:induction false} NoPositions(lines: seq<string>, line: string, at: nat)
    requires at <= |lines|
    ensures Positions(lines, line, at) == [] <==> forall k :: at <= k < |lines| ==> lines[k] != line
    decreases |lines| - at
  {
    if at < |lines| {
      NoPositions(lines, line, at + 1);
    }
  }

  lemma {:induction false} OnePosition(lines: seq<string>, line: string, at: nat, p: nat)
    requires at <= |lines| && forall k :: 0 <= k < at ==> lines[k] != line
    ensures Positions(lines, line, at) == [p] <==> OnlyAt(lines, line, p)
    decreases |lines| - at
  {
    if at < |lines| {
      if lines[at] == line {
        NoPositions(lines, line, at + 1);
        var rest := Positions(lines, line, at + 1);
        var all := [at] + rest;
        assert all == [p] ==> all[0] == p && |all| == 1;
        assert OnlyAt(lines, line, p) ==> p == at && rest == [];
      } else {
        OnePosition(lines, line, at + 1, p);
      }
    }
  }

  /** The generator's markers, once each and in order, at `b` and `e`. */
  predicate Marked(lines: seq<string>, b: nat, e: nat) {
    b < e && OnlyAt(lines, REGION_BEGIN, b) && OnlyAt(lines, REGION_END, e)
  }

  /** Splicing succeeds exactly on marked pages, and replaces what the markers enclose. */
  lemma {:induction false} SpliceIsExact(lines: seq<string>, region: seq<string>, b: nat, e: nat)
    ensures Marked(lines, b, e) ==> SpliceLines(lines, region) == Ok(lines[..b] + region + lines[e + 1..])
  {
    hide OnlyAt;
    if Marked(lines, b, e) {
      OnePosition(lines, REGION_BEGIN, 0, b);
      OnePosition(lines, REGION_END, 0, e);
    }
  }

  lemma {:induction false} SplicedIsMarked(lines: seq<string>, region: seq<string>) returns (b: nat, e: nat)
    requires SpliceLines(lines, region).Ok?
    ensures Marked(lines, b, e)
  {
    var begins, ends := Positions(lines, REGION_BEGIN, 0), Positions(lines, REGION_END, 0);
    b, e := begins[0], ends[0];
    assert begins == [b] && ends == [e];
    hide Positions;
    MarkersDiffer();
    OnePosition(lines, REGION_BEGIN, 0, b);
    OnePosition(lines, REGION_END, 0, e);
  }

  lemma {:induction false} MarkersDiffer()
    ensures REGION_BEGIN != REGION_END
  {
    assert REGION_BEGIN[5] == 'B' && REGION_END[5] == 'E';
  }

  // ---- The markers are well-formed markers ----

  lemma {:induction false} BeginMarker(slug: string, note: string)
    requires slug != "" && (forall k :: 0 <= k < |slug| ==> !IsSpace(slug[k])) && '>' !in note
    ensures Kind(BEGIN_PREFIX + slug + " " + note + MARKER_END) == Begin(slug)
  {
    var line, rest := BEGIN_PREFIX + slug + " " + note + MARKER_END, " " + note + MARKER_END;
    assert line[|BEGIN_PREFIX|..] == slug + rest;
    WordEndAt(slug, rest);
    assert (slug + rest)[|slug|..] == rest && (slug + rest)[..|slug|] == slug;
    assert rest[|rest| - 4..] == MARKER_END;
    assert rest[1..|rest| - 4] == note;
  }

  lemma {:induction false} EndMarker(slug: string)
    requires slug != "" && (forall k :: 0 <= k < |slug| ==> !IsSpace(slug[k]))
    ensures Kind(END_PREFIX + slug + MARKER_END) == End(slug)
  {
    var line := END_PREFIX + slug + MARKER_END;
    assert line[|END_PREFIX|..] == slug + MARKER_END;
    WordEndAt(slug, MARKER_END);
    assert (slug + MARKER_END)[|slug|..] == MARKER_END && (slug + MARKER_END)[..|slug|] == slug;
    assert line[5] == 'E' && BEGIN_PREFIX[5] == 'B';
  }

  /** An end marker for a slug is one text only. */
  lemma {:induction false} EndMarkerText(line: string, slug: string)
    requires Kind(line) == End(slug)
    ensures line == END_PREFIX + slug + MARKER_END
  {
    hide BeginSlug, WordEnd;
    var body := line[|END_PREFIX|..];
    assert line == END_PREFIX + body;
    assert body == body[..WordEnd(body)] + body[WordEnd(body)..];
  }

  lemma {:induction false} NoteIsPlain()
    ensures '>' !in NOTE && SLUG != ""
  {
    assert '>' !in "(gen-cordis-catalog.ts)" && '>' !in " — do not edit" && '>' !in " between markers";
  }

  lemma {:induction false} OwnMarkers()
    ensures Kind(REGION_BEGIN) == Begin(SLUG) && Kind(REGION_END) == End(SLUG)
  {
    NoteIsPlain();
    BeginMarker(SLUG, NOTE);
    EndMarker(SLUG);
  }

  // ---- The lens ----

  /** A freshly rendered region: the generator's markers around plain lines. */
  predicate OwnRegion(lines: seq<string>) {
    |lines| >= 2 && lines[0] == REGION_BEGIN && lines[|lines| - 1] == REGION_END && PlainLines(lines[1..|lines| - 1])
  }

  lemma {:induction false} OwnIsRegion(lines: seq<string>)
    requires OwnRegion(lines)
    ensures IsRegion(lines)
  {
    OwnMarkers();
  }

  lemma {:induction false} InsideOwn(region: seq<string>, k: nat)
    requires OwnRegion(region) && k < |region|
    ensures region[k] == REGION_BEGIN <==> k == 0
    ensures region[k] == REGION_END <==> k == |region| - 1
  {
    hide Kind;
    OwnMarkers();
    MarkersDiffer();
    if 0 < k < |region| - 1 {
      assert region[1..|region| - 1][k - 1] == region[k];
    }
  }

  /** A spliced page is marked where the new region stands. */
  lemma {:induction false} SplicedAgain(lines: seq<string>, region: seq<string>, b: nat, e: nat)
    requires Marked(lines, b, e) && OwnRegion(region)
    ensures Marked(lines[..b] + region + lines[e + 1..], b, b + |region| - 1)
  {
    hide OwnRegion;
    var out := lines[..b] + region + lines[e + 1..];
    OwnLength(region);
    var last := b + |region| - 1;
    forall k | 0 <= k < |out|
      ensures out[k] == REGION_BEGIN <==> k == b
      ensures out[k] == REGION_END <==> k == last
    {
      if b <= k <= last {
        InsideOwn(region, k - b);
        assert out[k] == region[k - b];
      } else {
        assert out[k] == lines[if k < b then k else e + 1 + (k - last - 1)];
      }
    }
  }

  lemma {:induction false} OwnLength(region: seq<string>)
    requires OwnRegion(region)
    ensures |region| >= 2
  {
  }

  /** The last of two splices wins. */
  lemma {:induction false} LastSpliceWins(lines: seq<string>, first: seq<string>, second: seq<string>)
    requires OwnRegion(first) && SpliceLines(lines, first).Ok?
    ensures SpliceLines(SpliceLines(lines, first).value, second) == SpliceLines(lines, second)
  {
    hide SpliceLines, OwnRegion;
    var b, e := SplicedIsMarked(lines, first);
    SpliceIsExact(lines, first, b, e);
    SpliceIsExact(lines, second, b, e);
    SplicedAgain(lines, first, b, e);
    OwnLength(first);
    var out, last := lines[..b] + first + lines[e + 1..], b + |first| - 1;
    SpliceIsExact(out, second, b, last);
    assert out[..b] == lines[..b] && out[last + 1..] == lines[e + 1..];
  }

  /** Splicing a page's own region back changes nothing. */
  lemma {:induction false} SplicingBackIsIdentity(lines: seq<string>, b: nat, e: nat)
    requires Marked(lines, b, e)
    ensures SpliceLines(lines, lines[b..e + 1]) == Ok(lines)
  {
    SpliceIsExact(lines, lines[b..e + 1], b, e);
    assert lines[..b] + lines[b..e + 1] + lines[e + 1..] == lines;
  }

  // ---- The lens on pieces ----

  lemma {:induction false} MarkedRest(first: seq<string>, rest: seq<string>, b: nat, e: nat)
    requires Marked(first + rest, b, e) && b >= |first|
    ensures Marked(rest, b - |first|, e - |first|)
  {
    var lines := first + rest;
    assert forall k :: 0 <= k < |rest| ==> rest[k] == lines[|first| + k];
  }

  lemma {:induction false} InsideRegion(lines: seq<string>, k: nat)
    requires IsRegion(lines) && k < |lines|
    ensures Kind(lines[k]).Begin? <==> k == 0
  {
    hide Kind;
    if 0 < k < |lines| - 1 {
      assert lines[1..|lines| - 1][k - 1] == lines[k];
    }
  }

  /** A region that starts with the generator's begin marker ends with its end marker. */
  lemma {:induction false} RegionEnds(lines: seq<string>, rest: seq<string>, b: nat, e: nat)
    requires IsRegion(lines) && Marked(lines + rest, b, e) && b < |lines|
    ensures b == 0 && e == |lines| - 1
  {
    hide Kind;
    OwnMarkers();
    var all, n := lines + rest, |lines| - 1;
    assert all[b] == lines[b];
    InsideRegion(lines, b);
    EndMarkerText(lines[n], SLUG);
    assert all[n] == lines[n] == REGION_END;
  }

  /** The marked lines are one of the page's regions. */
  lemma {:induction false} OwnPiece(pieces: seq<Piece>, b: nat, e: nat) returns (j: nat)
    requires ArePieces(pieces) && Marked(Flatten(pieces), b, e)
    ensures j < |pieces| && pieces[j].Region?
    ensures b == |Flatten(pieces[..j])| && e + 1 == b + |Lines(pieces[j])|
  {
    hide Marked, Kind;
    MarkedInside(Flatten(pieces), b, e);
    var p, rest := pieces[0], pieces[1..];
    assert IsPiece(p);
    var first := Lines(p);
    if b < |first| {
      PieceIsRegion(p, Flatten(rest), b, e);
      RegionEnds(first, Flatten(rest), b, e);
      j := 0;
      assert pieces[..0] == [];
    } else {
      MarkedRest(first, Flatten(rest), b, e);
      j := OwnPiece(rest, b - |first|, e - |first|);
      assert pieces[..j + 1][1..] == rest[..j];
      j := j + 1;
    }
  }

  lemma {:induction false} MarkedInside(lines: seq<string>, b: nat, e: nat)
    requires Marked(lines, b, e)
    ensures b < e < |lines| && lines[b] == REGION_BEGIN && lines[e] == REGION_END
  {
  }

  lemma {:induction false} PieceIsRegion(p: Piece, rest: seq<string>, b: nat, e: nat)
    requires IsPiece(p) && Marked(Lines(p) + rest, b, e) && b < |Lines(p)|
    ensures p.Region?
  {
    hide Kind;
    OwnMarkers();
    assert (Lines(p) + rest)[b] == Lines(p)[b];
  }

  lemma {:induction false} FlattenSplit(pieces: seq<Piece>, j: nat)
    requires j <= |pieces|
    ensures Flatten(pieces) == Flatten(pieces[..j]) + Flatten(pieces[j..])
  {
    if j == 0 {
      assert pieces[..0] == [] && pieces[0..] == pieces;
    } else {
      FlattenSplit(pieces[1..], j - 1);
      assert pieces[..j][1..] == pieces[1..][..j - 1] && pieces[1..][j - 1..] == pieces[j..];
    }
  }

  lemma {:induction false} FlattenAround(pieces: seq<Piece>, j: nat)
    requires j < |pieces|
    ensures Flatten(pieces) == Flatten(pieces[..j]) + Lines(pieces[j]) + Flatten(pieces[j + 1..])
  {
    FlattenSplit(pieces, j);
    assert pieces[j..][1..] == pieces[j + 1..];
  }

  lemma {:induction false} KeptUnchanged(pieces: seq<Piece>, j: nat, region: seq<string>)
    requires j < |pieces| && pieces[j].Region?
    ensures KeptLines(pieces[j := Region(region)]) == KeptLines(pieces)
  {
    if j > 0 {
      KeptUnchanged(pieces[1..], j - 1, region);
      assert pieces[j := Region(region)][1..] == pieces[1..][j - 1 := Region(region)];
    } else {
      assert pieces[0 := Region(region)][1..] == pieces[1..];
    }
  }

  /** How many regions stand before piece `j`. */
  function RegionIndex(pieces: seq<Piece>, j: nat): nat
    requires j <= |pieces|
  {
    |Regions(pieces[..j])|
  }

  lemma {:induction false} RegionsUpdated(pieces: seq<Piece>, j: nat, region: seq<string>)
    requires j < |pieces| && pieces[j].Region?
    ensures RegionIndex(pieces, j) < |Regions(pieces)|
    ensures Regions(pieces)[RegionIndex(pieces, j)] == Join(pieces[j].lines, "\n")
    ensures Regions(pieces[j := Region(region)]) == Regions(pieces)[RegionIndex(pieces, j) := Join(region, "\n")]
  {
    hide Join;
    var after := pieces[j := Region(region)];
    if j > 0 {
      RegionsUpdated(pieces[1..], j - 1, region);
      assert after[1..] == pieces[1..][j - 1 := Region(region)];
      assert pieces[..j][1..] == pieces[1..][..j - 1];
    } else {
      assert pieces[..0] == [] && after[1..] == pieces[1..];
    }
  }

  /**
   * Putting a region into a page and partitioning it gives that region in place of the old one, all
   * other regions, and the same kept lines.
   */
  lemma {:induction false} SpliceThenPartition(pieces: seq<Piece>, region: seq<string>) returns (j: nat)
    requires ArePieces(pieces) && OwnRegion(region) && SpliceLines(Flatten(pieces), region).Ok?
    ensures j < |pieces| && pieces[j].Region?
    ensures Scan(SpliceLines(Flatten(pieces), region).value, None) == Ok(pieces[j := Region(region)])
    ensures KeptLines(pieces[j := Region(region)]) == KeptLines(pieces)
    ensures RegionIndex(pieces, j) < |Regions(pieces)|
    ensures Regions(pieces[j := Region(region)]) == Regions(pieces)[RegionIndex(pieces, j) := Join(region, "\n")]
  {
    hide SpliceLines, Marked, Kind, OwnRegion, IsRegion, KeptLines, Regions, RegionIndex;
    var lines := Flatten(pieces);
    var b, e := SplicedIsMarked(lines, region);
    SpliceIsExact(lines, region, b, e);
    j := OwnPiece(pieces, b, e);
    FlattenAround(pieces, j);
    var after := pieces[j := Region(region)];
    FlattenAround(after, j);
    assert after[..j] == pieces[..j] && after[j + 1..] == pieces[j + 1..];
    assert lines[e + 1..] == Flatten(pieces[j + 1..]) && lines[..b] == Flatten(pieces[..j]);
    OwnIsRegion(region);
    ScanFlatten(after);
    KeptUnchanged(pieces, j, region);
    RegionsUpdated(pieces, j, region);
  }

  /** A splice never changes what humans wrote: the stripped text of the page. */
  lemma {:induction false} SpliceKeepsStripped(content: string, region: string) returns (k: nat)
    requires PartitionOf(content).Ok? && OwnRegion(Split(region, '\n')) && SpliceRegion(content, region).Ok?
    ensures PartitionOf(SpliceRegion(content, region).value).Ok?
    ensures PartitionOf(SpliceRegion(content, region).value).value.stripped == PartitionOf(content).value.stripped
    ensures k < |PartitionOf(content).value.regions|
    ensures PartitionOf(SpliceRegion(content, region).value).value.regions ==
            PartitionOf(content).value.regions[k := region]
  {
    hide SpliceLines, OwnRegion, KeptLines, Regions, RegionIndex, Flatten, Scan, Split, Join;
    var lines, inserted := Split(content, '\n'), Split(region, '\n');
    var pieces := Scan(lines, None).value;
    PartitionIsExact(lines, pieces);
    var j := SpliceThenPartition(pieces, inserted);
    JoinSplit(region, '\n');
    SplicedReadsBack(content, region);
    k := RegionIndex(pieces, j);
  }

  lemma {:induction false} SplicedReadsBack(content: string, region: string)
    requires SpliceRegion(content, region).Ok? && OwnRegion(Split(region, '\n'))
    ensures SpliceLines(Split(content, '\n'), Split(region, '\n')).Ok?
    ensures Split(SpliceRegion(content, region).value, '\n') ==
            SpliceLines(Split(content, '\n'), Split(region, '\n')).value
  {
    hide SpliceLines, Split, Join, OwnRegion;
    var lines, inserted := Split(content, '\n'), Split(region, '\n');
    var b, e := SplicedIsMarked(lines, inserted);
    SpliceIsExact(lines, inserted, b, e);
    OwnLength(inserted);
    MarkedInside(lines, b, e);
    var out := lines[..b] + inserted + lines[e + 1..];
    forall k | 0 <= k < |out|
      ensures '\n' !in out[k]
    {
      if k < b {
        SplitPieces(content, '\n', k);
      } else if k < b + |inserted| {
        SplitPieces(region, '\n', k - b);
      } else {
        SplitPieces(content, '\n', e + 1 + (k - b - |inserted|));
      }
    }
    SplitJoin(out, '\n');
  }

  /** On texts: the last of two splices wins. */
  lemma {:induction false} SpliceTwice(content: string, first: string, second: string)
    requires SpliceRegion(content, first).Ok? && OwnRegion(Split(first, '\n'))
    ensures SpliceRegion(SpliceRegion(content, first).value, second) == SpliceRegion(content, second)
  {
    hide SpliceLines, Split, Join, OwnRegion;
    SplicedReadsBack(content, first);
    LastSpliceWins(Split(content, '\n'), Split(first, '\n'), Split(second, '\n'));
  }

  /** On texts: a page's own region, as the partition reports it, splices back to the same page. */
  lemma {:induction false} SpliceOwnBack(content: string, region: string) returns (k: nat)
    requires PartitionOf(content).Ok? && SpliceRegion(content, region).Ok?
    ensures k < |PartitionOf(content).value.regions|
    ensures SpliceRegion(content, PartitionOf(content).value.regions[k]) == Ok(content)
  {
    hide SpliceLines, KeptLines, Regions, RegionIndex, Scan, Split, Join, Marked;
    var lines := Split(content, '\n');
    var pieces := Scan(lines, None).value;
    PartitionIsExact(lines, pieces);
    var b, e := SplicedIsMarked(lines, Split(region, '\n'));
    MarkedInside(lines, b, e);
    var j := OwnPiece(pieces, b, e);
    FlattenAround(pieces, j);
    var own := pieces[j].lines;
    assert lines[b..e + 1] == own;
    RegionsUpdated(pieces, j, own);
    k := RegionIndex(pieces, j);
    SplicingBackIsIdentity(lines, b, e);
    OwnReadsBack(content, b, e);
    JoinSplit(content, '\n');
  }

  lemma {:induction false} OwnReadsBack(content: string, b: nat, e: nat)
    requires b <= e < |Split(content, '\n')|
    ensures Split(Join(Split(content, '\n')[b..e + 1], "\n"), '\n') == Split(content, '\n')[b..e + 1]
  {
    hide Split, Join;
    var own := Split(content, '\n')[b..e + 1];
    forall i | 0 <= i < |own|
      ensures '\n' !in own[i]
    {
      SplitPieces(content, '\n', b + i);
    }
    SplitJoin(own, '\n');
  }
}
