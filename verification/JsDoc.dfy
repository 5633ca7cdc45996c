/** The prose of a JSDoc block: the line machine against its grammar of runs, and conservation of words. */
module JsDoc {
  import opened Outcomes
  import opened Text
  import opened Whitespace

  datatype Mode = Emit | Waterfall | Parallel | Serial | Bail

  // ---- Lines ----

  /** `l.replace(/^\s*\*?\s?/, '').replace(/\s+$/, '')` */
  function StripLine(l: string): string {
    var a := TrimStart(l);
    var b := if a != "" && a[0] == '*' then (if |a| > 1 && IsSpace(a[1]) then a[2..] else a[1..]) else a;
    TrimEnd(b)
  }

  function StripLines(lines: seq<string>): seq<string> {
    if lines == [] then [] else [StripLine(lines[0])] + StripLines(lines[1..])
  }

  /** The lines between the comment delimiters. */
  function InnerLines(raw: string): seq<string> {
    var inside := if |raw| >= 3 && raw[..3] == "/**" then raw[3..] else raw;
    var closed := if EndsWith(inside, "*/") then inside[..|inside| - 2] else inside;
    StripLines(Split(closed, '\n'))
  }

  predicate IsTag(line: string) {
    var t := TrimStart(line);
    t != "" && t[0] == '@'
  }

  predicate IsBlank(line: string) { Trim(line) == "" }

  /** `/^-\s+/` */
  predicate IsItem(line: string) { |line| > 1 && line[0] == '-' && IsSpace(line[1]) }

  const MODE_TAG := "@mode"

  predicate IsWordChar(c: char) { 'a' <= c <= 'z' || 'A' <= c <= 'Z' || '0' <= c <= '9' || c == '_' }

  /** `/^@mode\b/` on the trimmed line */
  predicate IsModeTag(line: string) {
    var t := TrimStart(line);
    MODE_TAG <= t && (|t| == 5 || !IsWordChar(t[5]))
  }

  function ModeNamed(name: string): Option<Mode> {
    if name == "emit" then Some(Emit)
    else if name == "waterfall" then Some(Waterfall)
    else if name == "parallel" then Some(Parallel)
    else if name == "serial" then Some(Serial)
    else if name == "bail" then Some(Bail)
    else None
  }

  /** `/^@mode\s+(emit|waterfall|parallel|serial|bail)\s*$/` on the trimmed line */
  function ModeOf(line: string): Option<Mode> {
    var t := TrimStart(line);
    if MODE_TAG <= t && |t| > 5 && IsSpace(t[5]) then ModeNamed(Trim(t[5..])) else None
  }

  // ---- The grammar ----

  /** The lines before the first block tag. */
  function Prose(lines: seq<string>): (prose: seq<string>)
    ensures prose <= lines
  {
    if lines == [] || IsTag(lines[0]) then [] else [lines[0]] + Prose(lines[1..])
  }

  /** A paragraph's lines, or a list's items, each with its continuation lines. */
  datatype Block = Paragraph(lines: seq<string>) | List(items: seq<seq<string>>)

  /** Where the run of lines that are not blank ends. */
  function RunEnd(lines: seq<string>): (n: nat)
    ensures n <= |lines|
  {
    if lines == [] || IsBlank(lines[0]) then 0 else 1 + RunEnd(lines[1..])
  }

  /** The first line that starts an item. */
  function ItemStart(lines: seq<string>): (n: nat)
    ensures n <= |lines|
  {
    if lines == [] || IsItem(lines[0]) then 0 else 1 + ItemStart(lines[1..])
  }

  /** The items of a run that starts with one. */
  function Items(run: seq<string>): seq<seq<string>>
    requires run != []
    decreases |run|
  {
    var n := 1 + ItemStart(run[1..]);
    [run[..n]] + if n < |run| then Items(run[n..]) else []
  }

  /** A run is a paragraph, then a list, either of which may be missing. */
  function RunBlocks(run: seq<string>): seq<Block> {
    var n := ItemStart(run);
    (if n > 0 then [Paragraph(run[..n])] else []) + if n < |run| then [List(Items(run[n..]))] else []
  }

  /** The blocks of some lines: those of each run between blank lines. */
  function Blocks(lines: seq<string>): seq<Block>
    decreases |lines|
  {
    if lines == [] then []
    else if IsBlank(lines[0]) then Blocks(lines[1..])
    else RunBlocks(lines[..RunEnd(lines)]) + Blocks(lines[RunEnd(lines)..])
  }

  // ---- Rendering ----

  /** Lines collapsed to one. */
  function Joined(parts: seq<string>): string {
    Trim(Collapse(Join(parts, " ")))
  }

  function JoinedAll(items: seq<seq<string>>): (lines: seq<string>)
    ensures |lines| == |items|
  {
    if items == [] then [] else [Joined(items[0])] + JoinedAll(items[1..])
  }

  function RenderBlock(b: Block): string {
    match b
    case Paragraph(lines) => Joined(lines)
    case List(items) => Join(JoinedAll(items), "\n")
  }

  function RenderBlocks(blocks: seq<Block>): (texts: seq<string>)
    ensures |texts| == |blocks|
  {
    if blocks == [] then [] else [RenderBlock(blocks[0])] + RenderBlocks(blocks[1..])
  }

  lemma {:induction false} RenderConcat(a: seq<Block>, b: seq<Block>)
    ensures RenderBlocks(a + b) == RenderBlocks(a) + RenderBlocks(b)
  {
    if a == [] {
      assert a + b == b;
    } else {
      assert (a + b)[1..] == a[1..] + b;
      RenderConcat(a[1..], b);
    }
  }

  // ---- The line machine ----

  /** The machine's buffers. */
  datatype Buffers = Buffers(blocks: seq<string>, para: seq<string>, list: seq<string>, item: seq<string>)

  function ItemFlushed(b: Buffers): Buffers {
    if b.item == [] then b else b.(list := b.list + [Joined(b.item)], item := [])
  }

  function ListFlushed(b: Buffers): Buffers {
    var f := ItemFlushed(b);
    if f.list == [] then f else f.(blocks := f.blocks + [Join(f.list, "\n")], list := [])
  }

  function ParaFlushed(b: Buffers): Buffers {
    var f := ListFlushed(b);
    if f.para == [] then f else f.(blocks := f.blocks + [Joined(f.para)], para := [])
  }

  /** One line of prose. */
  function Feed(b: Buffers, line: string): Buffers {
    if IsBlank(line) then ParaFlushed(b)
    else if IsItem(line) then
      var f := ItemFlushed(b);
      var g := if f.para == [] then f else f.(blocks := f.blocks + [Joined(f.para)], para := []);
      g.(item := g.item + [line])
    else if b.item != [] then b.(item := b.item + [line])
    else b.(para := b.para + [line])
  }

  predicate PlainLines(lines: seq<string>) {
    forall k :: 0 <= k < |lines| ==> !IsBlank(lines[k]) && !IsItem(lines[k])
  }

  /** A pending paragraph means an empty list and item; a pending list has a pending item. */
  predicate Tidy(b: Buffers) {
    && (b.item == [] ==> b.list == [])
    && (b.para != [] ==> b.item == [])
    && PlainLines(b.para)
    && (b.item != [] ==> !IsBlank(b.item[0]) && IsItem(b.item[0]) && PlainLines(b.item[1..]))
  }

  lemma {:induction false} FeedIsTidy(b: Buffers, line: string)
    requires Tidy(b)
    ensures Tidy(Feed(b, line)) && Tidy(ParaFlushed(b))
  {
    hide IsBlank, IsItem, Joined, Join;
    assert b.item != [] ==> (b.item + [line])[1..] == b.item[1..] + [line];
    assert [line][1..] == [];
  }

  /** The texts of all blocks, once the remaining lines have been read. */
  function Finally(b: Buffers, lines: seq<string>): seq<string> {
    if b.item == [] then b.blocks + RenderBlocks(Blocks(b.para + lines))
    else
      var n := RunEnd(lines);
      b.blocks + [Join(b.list + JoinedAll(Items(b.item + lines[..n])), "\n")] + RenderBlocks(Blocks(lines[n..]))
  }

  lemma {:induction false} ItemStartAfter(plain: seq<string>, rest: seq<string>)
    requires PlainLines(plain)
    ensures ItemStart(plain + rest) == |plain| + ItemStart(rest)
  {
    hide IsBlank, IsItem;
    if plain == [] {
      assert plain + rest == rest;
    } else {
      assert (plain + rest)[1..] == plain[1..] + rest;
      ItemStartAfter(plain[1..], rest);
    }
  }

  lemma {:induction false} RunEndAfter(run: seq<string>, rest: seq<string>)
    requires forall k :: 0 <= k < |run| ==> !IsBlank(run[k])
    ensures RunEnd(run + rest) == |run| + RunEnd(rest)
  {
    hide IsBlank;
    if run == [] {
      assert run + rest == rest;
    } else {
      assert (run + rest)[1..] == run[1..] + rest;
      RunEndAfter(run[1..], rest);
    }
  }

  lemma {:induction false} ItemsSplit(item: seq<string>, more: seq<string>)
    requires item != [] && PlainLines(item[1..]) && (more == [] || IsItem(more[0]))
    ensures Items(item + more) == [item] + if more == [] then [] else Items(more)
  {
    hide IsBlank, IsItem;
    var run := item + more;
    assert run[1..] == item[1..] + more;
    ItemStartAfter(item[1..], more);
    assert run[..|item|] == item && run[|item|..] == more;
  }

  /** A run's blocks: its plain lines, then its items. */
  lemma {:induction false} RunBlocksOf(plain: seq<string>, items: seq<string>)
    requires PlainLines(plain) && (items == [] || IsItem(items[0]))
    ensures RunBlocks(plain + items) ==
      (if plain == [] then [] else [Paragraph(plain)]) + if items == [] then [] else [List(Items(items))]
  {
    hide IsBlank, IsItem;
    var run := plain + items;
    ItemStartAfter(plain, items);
    assert run[..|plain|] == plain && run[|plain|..] == items;
  }

  /** The first run's blocks come first. */
  lemma {:induction false} BlocksOfRun(run: seq<string>, rest: seq<string>)
    requires run != [] && (forall k :: 0 <= k < |run| ==> !IsBlank(run[k])) && (rest == [] || IsBlank(rest[0]))
    ensures Blocks(run + rest) == RunBlocks(run) + Blocks(rest)
  {
    hide IsBlank, RunBlocks;
    RunEndAfter(run, rest);
    assert (run + rest)[..|run|] == run && (run + rest)[|run|..] == rest;
  }

  lemma {:induction false} RunSplits(lines: seq<string>)
    ensures var n := RunEnd(lines);
            && (forall k :: 0 <= k < n ==> !IsBlank(lines[k])) && (n < |lines| ==> IsBlank(lines[n]))
  {
    hide IsBlank;
    if lines != [] && !IsBlank(lines[0]) {
      RunSplits(lines[1..]);
      assert forall k :: 0 < k < RunEnd(lines) ==> lines[k] == lines[1..][k - 1];
    }
  }

  /** A blank line after pending lines ends the paragraph. */
  lemma {:induction false} BlankAfterParagraph(para: seq<string>, line: string, rest: seq<string>)
    requires PlainLines(para) && IsBlank(line)
    ensures RenderBlocks(Blocks(para + ([line] + rest))) ==
            (if para == [] then [] else [Joined(para)]) + RenderBlocks(Blocks(rest))
  {
    hide IsBlank, IsItem, Joined;
    var tail := [line] + rest;
    assert tail[1..] == rest;
    if para == [] {
      assert para + tail == tail;
    } else {
      BlocksOfRun(para, tail);
      RunBlocksOf(para, []);
      assert para + [] == para;
      RenderConcat([Paragraph(para)], Blocks(rest));
    }
  }

  /** An item after pending lines starts a list below the paragraph. */
  lemma {:induction false} ItemAfterParagraph(para: seq<string>, line: string, rest: seq<string>)
    requires PlainLines(para) && IsItem(line) && !IsBlank(line)
    ensures var n := RunEnd(rest);
            RenderBlocks(Blocks(para + ([line] + rest))) ==
              (if para == [] then [] else [Joined(para)])
              + [Join(JoinedAll(Items([line] + rest[..n])), "\n")] + RenderBlocks(Blocks(rest[n..]))
  {
    hide IsBlank, IsItem, Joined, Join, Items;
    var n := RunEnd(rest);
    var items := [line] + rest[..n];
    RunSplits(rest);
    assert para + ([line] + rest) == (para + items) + rest[n..];
    BlocksOfRun(para + items, rest[n..]);
    RunBlocksOf(para, items);
    var first := if para == [] then [] else [Paragraph(para)];
    RenderConcat(first + [List(Items(items))], Blocks(rest[n..]));
    RenderConcat(first, [List(Items(items))]);
  }

  lemma {:induction false} JoinedAllConcat(a: seq<seq<string>>, b: seq<seq<string>>)
    ensures JoinedAll(a + b) == JoinedAll(a) + JoinedAll(b)
  {
    hide Joined;
    if a == [] {
      assert a + b == b;
    } else {
      assert (a + b)[1..] == a[1..] + b;
      JoinedAllConcat(a[1..], b);
    }
  }

  lemma {:induction false} JoinedOne(item: seq<string>)
    ensures JoinedAll([item]) == [Joined(item)]
  {
    assert JoinedAll([item][1..]) == [];
  }

  /** While an item is pending, the list's texts are those of its items so far and to come. */
  lemma {:induction false} ItemThen(list: seq<string>, item: seq<string>, more: seq<string>)
    requires item != [] && PlainLines(item[1..]) && (more == [] || IsItem(more[0]))
    ensures list + JoinedAll(Items(item + more)) ==
            list + [Joined(item)] + if more == [] then [] else JoinedAll(Items(more))
  {
    hide IsBlank, IsItem, Joined, Items;
    ItemsSplit(item, more);
    JoinedOne(item);
    if more != [] {
      JoinedAllConcat([item], Items(more));
    } else {
      assert [item] + [] == [item];
    }
  }

  lemma {:induction false} LastItem(list: seq<string>, item: seq<string>)
    requires item != [] && PlainLines(item[1..])
    ensures list + JoinedAll(Items(item + [])) == list + [Joined(item)]
  {
    hide IsBlank, IsItem, Joined, Items, PlainLines;
    ItemThen(list, item, []);
  }

  lemma {:induction false} FeedWhileParagraph(b: Buffers, line: string, rest: seq<string>)
    requires Tidy(b) && b.item == []
    ensures Finally(b, [line] + rest) == Finally(Feed(b, line), rest)
  {
    hide IsBlank, IsItem, Joined, Join, Items, Blocks, RenderBlocks, PlainLines;
    if IsBlank(line) {
      BlankAfterParagraph(b.para, line, rest);
      assert [] + rest == rest;
    } else if IsItem(line) {
      ItemAfterParagraph(b.para, line, rest);
      ListFromNothing(JoinedAll(Items([line] + rest[..RunEnd(rest)])));
      assert [] + [line] == [line];
    } else {
      assert b.para + ([line] + rest) == (b.para + [line]) + rest;
    }
  }

  lemma {:induction false} ListFromNothing(texts: seq<string>)
    ensures [] + texts == texts
  {
  }

  lemma {:induction false} RunEndStep(line: string, rest: seq<string>)
    ensures RunEnd([line] + rest) == if IsBlank(line) then 0 else 1 + RunEnd(rest)
  {
    hide IsBlank;
    assert ([line] + rest)[1..] == rest;
  }

  lemma {:induction false} BlankFirst(line: string, rest: seq<string>)
    requires IsBlank(line)
    ensures Blocks([line] + rest) == Blocks(rest)
  {
    hide IsBlank;
    assert ([line] + rest)[1..] == rest;
  }

  lemma {:induction false} FeedWhileItem(b: Buffers, line: string, rest: seq<string>)
    requires Tidy(b) && b.item != []
    ensures Finally(b, [line] + rest) == Finally(Feed(b, line), rest)
  {
    hide IsBlank, IsItem, Joined, Join, Items, Blocks, RenderBlocks, PlainLines, RunEnd;
    RunEndStep(line, rest);
    var tail := [line] + rest;
    var n := RunEnd(tail);
    assert b.para == [];
    if IsBlank(line) {
      assert tail[..0] == [] && tail[0..] == tail && [] + rest == rest;
      LastItem(b.list, b.item);
      BlankFirst(line, rest);
    } else {
      assert tail[..n] == [line] + rest[..n - 1] && tail[n..] == rest[n - 1..];
      if IsItem(line) {
        ItemThen(b.list, b.item, [line] + rest[..n - 1]);
        assert [] + [line] == [line];
      } else {
        assert b.item + ([line] + rest[..n - 1]) == (b.item + [line]) + rest[..n - 1];
      }
    }
  }

  /** Feeding a line changes nothing about the final blocks. */
  lemma {:induction false} FeedStep(b: Buffers, line: string, rest: seq<string>)
    requires Tidy(b)
    ensures Finally(b, [line] + rest) == Finally(Feed(b, line), rest)
  {
    hide Finally, Feed, Tidy;
    if b.item == [] {
      FeedWhileParagraph(b, line, rest);
    } else {
      FeedWhileItem(b, line, rest);
    }
  }

  /** Flushing at the end of the prose gives the final blocks. */
  lemma {:induction false} FlushStep(b: Buffers)
    requires Tidy(b)
    ensures ParaFlushed(b).blocks == Finally(b, [])
    ensures ParaFlushed(b).para == [] && ParaFlushed(b).list == [] && ParaFlushed(b).item == []
  {
    hide IsBlank, IsItem, Joined, Join, Items, PlainLines;
    NoLines();
    if b.item == [] {
      assert b.para + [] == b.para;
      if b.para != [] {
        OnlyParagraph(b.para);
      }
    } else {
      var none: seq<string> := [];
      assert none[..0] == [] && none[0..] == [];
      LastItem(b.list, b.item);
    }
  }

  lemma {:induction false} NoLines()
    ensures RunEnd([]) == 0 && Blocks([]) == [] && RenderBlocks([]) == []
  {
  }

  lemma {:induction false} OnlyParagraph(para: seq<string>)
    requires PlainLines(para) && para != []
    ensures RenderBlocks(Blocks(para)) == [Joined(para)]
  {
    hide IsBlank, IsItem, Joined;
    BlocksOfRun(para, []);
    RunBlocksOf(para, []);
    assert para + [] == para;
    NoLines();
    assert [Paragraph(para)] + [] == [Paragraph(para)];
    assert [Paragraph(para)][1..] == [];
  }

  // ---- Tags ----

  function LastMode(lines: seq<string>): Option<Mode> {
    if lines == [] then None
    else if LastMode(lines[1..]).Some? then LastMode(lines[1..])
    else ModeOf(lines[0])
  }

  predicate HasMode(lines: seq<string>) {
    exists k :: 0 <= k < |lines| && IsModeTag(lines[k])
  }

  lemma {:induction false} ModeIsModeTag(line: string)
    ensures ModeOf(line).Some? ==> IsModeTag(line)
    ensures IsModeTag(line) ==> IsTag(line)
  {
    var t := TrimStart(line);
    if IsModeTag(line) {
      assert t[0] == MODE_TAG[0];
    }
  }

  datatype Parsed = Parsed(doc: string, mode: Option<Mode>, hasMode: bool)

  /** The description before links are rewritten, and the mode. */
  function Parse(lines: seq<string>): Parsed {
    Parsed(Trim(Join(RenderBlocks(Blocks(Prose(lines))), "\n\n")), LastMode(lines), HasMode(lines))
  }

  lemma {:induction false} LastModeStep(lines: seq<string>, i: nat)
    requires i < |lines|
    ensures LastMode(lines[..i + 1]) == if ModeOf(lines[i]).Some? then ModeOf(lines[i]) else LastMode(lines[..i])
  {
    hide ModeOf;
    if i == 0 {
      assert lines[..1] == [lines[0]] && lines[..1][1..] == [] && lines[..0] == [];
    } else {
      LastModeStep(lines[1..], i - 1);
      assert lines[..i + 1][1..] == lines[1..][..i] && lines[..i][1..] == lines[1..][..i - 1];
    }
  }

  lemma {:induction false} HasModeStep(lines: seq<string>, i: nat)
    requires i < |lines|
    ensures HasMode(lines[..i + 1]) <==> HasMode(lines[..i]) || IsModeTag(lines[i])
  {
    hide IsModeTag;
    var all, front := lines[..i + 1], lines[..i];
    if k :| 0 <= k < |all| && IsModeTag(all[k]) {
      assert k < i ==> IsModeTag(front[k]);
    }
    if k :| 0 <= k < |front| && IsModeTag(front[k]) {
      assert IsModeTag(all[k]);
    }
    if IsModeTag(lines[i]) {
      assert IsModeTag(all[i]);
    }
  }

  /** Where the prose ends and what is fed before it. */
  lemma {:induction false} ProseStep(line: string, rest: seq<string>)
    ensures Prose([line] + rest) == if IsTag(line) then [] else [line] + Prose(rest)
  {
    hide IsTag;
    assert ([line] + rest)[1..] == rest;
  }
}
