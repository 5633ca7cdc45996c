/** The JSDoc machine as it runs, and what its prose conserves. */
module JsDocProse {
  import opened Outcomes
  import opened Text
  import opened Whitespace
  import opened JsDoc

  // ---- The machine ----

  class ProseMachine {
    var blocks: seq<string>
    var para: seq<string>
    var list: seq<string>
    var item: seq<string>

    function Now(): Buffers
      reads this
    {
      Buffers(blocks, para, list, item)
    }

    constructor ()
      ensures Now() == Buffers([], [], [], [])
    {
      blocks, para, list, item := [], [], [], [];
    }

    method FlushItem()
      modifies this
      ensures Now() == ItemFlushed(old(Now()))
    {
      if item != [] {
        list := list + [Joined(item)];
      }
      item := [];
    }

    method FlushList()
      modifies this
      ensures Now() == ListFlushed(old(Now()))
    {
      FlushItem();
      if list != [] {
        blocks := blocks + [Join(list, "\n")];
      }
      list := [];
    }

    method FlushPara()
      modifies this
      ensures Now() == ParaFlushed(old(Now()))
    {
      FlushList();
      if para != [] {
        blocks := blocks + [Joined(para)];
      }
      para := [];
    }

    /** One line of prose. */
    method FeedLine(line: string)
      modifies this
      ensures Now() == Feed(old(Now()), line)
    {
      if IsBlank(line) {
        FlushPara();
        return;
      }
      if IsItem(line) {
        FlushItem();
        if para != [] {
          blocks := blocks + [Joined(para)];
          para := [];
        }
        item := item + [line];
        return;
      }
      if item != [] {
        item := item + [line];
        return;
      }
      para := para + [line];
    }
  }

  /** What the loop knows: the final blocks are settled, or what is pending and to come gives them. */
  predicate OnTrack(b: Buffers, inTags: bool, lines: seq<string>, i: nat)
    requires i <= |lines|
  {
    var final := RenderBlocks(Blocks(Prose(lines)));
    if inTags then b == Buffers(final, [], [], []) else Tidy(b) && Finally(b, Prose(lines[i..])) == final
  }

  lemma {:induction false} BeginOnTrack(lines: seq<string>)
    ensures OnTrack(Buffers([], [], [], []), false, lines, 0)
  {
    assert lines[0..] == lines;
    assert [] + Prose(lines) == Prose(lines);
    assert [] + RenderBlocks(Blocks(Prose(lines))) == RenderBlocks(Blocks(Prose(lines)));
  }

  /** A tag line ends the prose, if it has not ended. */
  lemma {:induction false} TagOnTrack(b: Buffers, inTags: bool, lines: seq<string>, i: nat)
    requires i < |lines| && OnTrack(b, inTags, lines, i) && IsTag(lines[i])
    ensures OnTrack(ParaFlushed(b), true, lines, i + 1)
  {
    hide IsTag, Tidy, Finally, Blocks, RenderBlocks, Joined;
    assert lines[i..] == [lines[i]] + lines[i + 1..];
    ProseStep(lines[i], lines[i + 1..]);
    if !inTags {
      FlushStep(b);
    }
  }

  /** Any other line is prose, or belongs to a tag. */
  lemma {:induction false} LineOnTrack(b: Buffers, inTags: bool, lines: seq<string>, i: nat)
    requires i < |lines| && OnTrack(b, inTags, lines, i) && !IsTag(lines[i])
    ensures OnTrack(if inTags then b else Feed(b, lines[i]), inTags, lines, i + 1)
  {
    hide IsTag, Tidy, Finally, Blocks, RenderBlocks, Feed;
    assert lines[i..] == [lines[i]] + lines[i + 1..];
    ProseStep(lines[i], lines[i + 1..]);
    if !inTags {
      FeedIsTidy(b, lines[i]);
      FeedStep(b, lines[i], Prose(lines[i + 1..]));
    }
  }

  lemma {:induction false} EndOnTrack(b: Buffers, inTags: bool, lines: seq<string>)
    requires OnTrack(b, inTags, lines, |lines|)
    ensures ParaFlushed(b).blocks == RenderBlocks(Blocks(Prose(lines)))
  {
    hide Tidy, Finally, Blocks, RenderBlocks, Joined;
    assert lines[|lines|..] == [];
    assert Prose([]) == [];
    if !inTags {
      FlushStep(b);
    }
  }

  /** The parse of a raw comment, up to the rewriting of links. */
  method ParseJsDoc(raw: string) returns (parsed: Parsed)
    ensures parsed == Parse(InnerLines(raw))
  {
    hide IsTag, IsModeTag, ModeOf, OnTrack, Feed, ParaFlushed, Blocks, RenderBlocks, Prose, HasMode, LastMode,
         InnerLines;
    var inner := InnerLines(raw);
    var mode: Option<Mode> := None;
    var hasMode, inTags := false, false;
    var machine := new ProseMachine();
    BeginOnTrack(inner);
    NoModeYet(inner);
    for i := 0 to |inner|
      invariant mode == LastMode(inner[..i]) && hasMode == HasMode(inner[..i])
      invariant OnTrack(machine.Now(), inTags, inner, i)
    {
      var line := inner[i];
      LastModeStep(inner, i);
      HasModeStep(inner, i);
      ModeIsModeTag(line);
      if ModeOf(line).Some? {
        mode := ModeOf(line);
      }
      if IsTag(line) {
        TagOnTrack(machine.Now(), inTags, inner, i);
        hasMode := hasMode || IsModeTag(line);
        machine.FlushPara();
        inTags := true;
      } else {
        LineOnTrack(machine.Now(), inTags, inner, i);
        if !inTags {
          machine.FeedLine(line);
        }
      }
    }
    EndOnTrack(machine.Now(), inTags, inner);
    machine.FlushPara();
    assert inner[..|inner|] == inner;
    return Parsed(Trim(Join(machine.blocks, "\n\n")), mode, hasMode);
  }

  lemma {:induction false} NoModeYet(lines: seq<string>)
    ensures LastMode(lines[..0]) == None && !HasMode(lines[..0])
  {
  }

  // ---- Conservation of words ----

  lemma {:induction false} WordsOfJoined(parts: seq<string>)
    ensures Words(Joined(parts)) == WordsOf(parts)
  {
    hide Words, Trim, Collapse;
    SpaceIsSpace();
    WordsJoin(parts, " ");
    WordsCollapse(Join(parts, " "));
    WordsTrim(Collapse(Join(parts, " ")));
  }

  function ItemLines(items: seq<seq<string>>): seq<string> {
    if items == [] then [] else items[0] + ItemLines(items[1..])
  }

  function BlockLines(b: Block): seq<string> {
    match b
    case Paragraph(lines) => lines
    case List(items) => ItemLines(items)
  }

  function AllLines(blocks: seq<Block>): seq<string> {
    if blocks == [] then [] else BlockLines(blocks[0]) + AllLines(blocks[1..])
  }

  lemma {:induction false} WordsOfItems(items: seq<seq<string>>)
    ensures WordsOf(JoinedAll(items)) == WordsOf(ItemLines(items))
  {
    hide Words, Joined;
    if items != [] {
      WordsOfItems(items[1..]);
      WordsOfJoined(items[0]);
      WordsOfConcat(items[0], ItemLines(items[1..]));
    }
  }

  lemma {:induction false} WordsOfBlock(b: Block)
    ensures Words(RenderBlock(b)) == WordsOf(BlockLines(b))
  {
    hide Words, Joined;
    match b
    case Paragraph(lines) =>
      WordsOfJoined(lines);
    case List(items) =>
      SpaceIsSpace();
      WordsJoin(JoinedAll(items), "\n");
      WordsOfItems(items);
  }

  lemma {:induction false} WordsOfBlocks(blocks: seq<Block>)
    ensures WordsOf(RenderBlocks(blocks)) == WordsOf(AllLines(blocks))
  {
    hide Words, RenderBlock;
    if blocks != [] {
      WordsOfBlocks(blocks[1..]);
      WordsOfBlock(blocks[0]);
      WordsOfConcat(BlockLines(blocks[0]), AllLines(blocks[1..]));
    }
  }

  lemma {:induction false} LinesOfItems(run: seq<string>)
    requires run != []
    ensures ItemLines(Items(run)) == run
    decreases |run|
  {
    hide ItemStart, ItemLines;
    var n := 1 + ItemStart(run[1..]);
    var rest := if n < |run| then Items(run[n..]) else [];
    ItemLinesStep(run[..n], rest);
    assert run == run[..n] + run[n..];
    if n < |run| {
      LinesOfItems(run[n..]);
    }
  }

  lemma {:induction false} ItemLinesStep(first: seq<string>, rest: seq<seq<string>>)
    ensures ItemLines([first] + rest) == first + ItemLines(rest)
    ensures ItemLines([]) == []
  {
    assert ([first] + rest)[1..] == rest;
  }

  lemma {:induction false} AllLinesConcat(a: seq<Block>, b: seq<Block>)
    ensures AllLines(a + b) == AllLines(a) + AllLines(b)
  {
    hide BlockLines;
    if a == [] {
      assert a + b == b;
    } else {
      assert (a + b)[1..] == a[1..] + b;
      AllLinesConcat(a[1..], b);
    }
  }

  lemma {:induction false} LinesOfOne(b: Block)
    ensures AllLines([b]) == BlockLines(b)
  {
    assert [b][1..] == [];
  }

  lemma {:induction false} LinesOfRun(run: seq<string>)
    ensures AllLines(RunBlocks(run)) == run
  {
    hide AllLines, Items;
    var n := ItemStart(run);
    var paragraph := if n > 0 then [Paragraph(run[..n])] else [];
    var list := if n < |run| then [List(Items(run[n..]))] else [];
    AllLinesConcat(paragraph, list);
    NoBlocks();
    if n > 0 {
      LinesOfOne(Paragraph(run[..n]));
    }
    if n < |run| {
      LinesOfOne(List(Items(run[n..])));
      LinesOfItems(run[n..]);
    }
    assert run == run[..n] + run[n..];
  }

  lemma {:induction false} NoBlocks()
    ensures AllLines([]) == []
  {
  }

  /** The blocks of some lines hold the words of the lines. */
  lemma {:induction false} WordsOfLines(lines: seq<string>)
    ensures WordsOf(AllLines(Blocks(lines))) == WordsOf(lines)
    decreases |lines|
  {
    hide Words, Trim, RunBlocks;
    if lines != [] {
      if IsBlank(lines[0]) {
        BlankHasNoWords(lines[0]);
        WordsOfLines(lines[1..]);
      } else {
        var n := RunEnd(lines);
        WordsOfLines(lines[n..]);
        AllLinesConcat(RunBlocks(lines[..n]), Blocks(lines[n..]));
        LinesOfRun(lines[..n]);
        WordsOfConcat(lines[..n], AllLines(Blocks(lines[n..])));
        WordsOfConcat(lines[..n], lines[n..]);
        assert lines == lines[..n] + lines[n..];
      }
    }
  }

  /**
   * Prose is conserved: the words of the description are the words of the lines before the first block
   * tag, in order and once each.
   */
  lemma {:induction false} ProseIsConserved(lines: seq<string>)
    ensures Words(Parse(lines).doc) == WordsOf(Prose(lines))
  {
    hide Words, Trim, Blocks, RenderBlocks, Prose, AllLines, LastMode, HasMode, Join;
    var texts := RenderBlocks(Blocks(Prose(lines)));
    SpaceIsSpace();
    WordsTrim(Join(texts, "\n\n"));
    WordsJoin(texts, "\n\n");
    WordsOfBlocks(Blocks(Prose(lines)));
    WordsOfLines(Prose(lines));
  }
}
