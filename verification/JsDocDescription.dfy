/** The description of a comment, word by word and with every separator, without the machine's buffers. */
module JsDocDescription {
  import opened Text
  import opened Whitespace
  import opened JsDoc

  // ---- What stands between two lines ----

  /** An item behind which no blank line has come yet. */
  predicate InList(lines: seq<string>, n: nat)
    requires n <= |lines|
  {
    exists k :: 0 <= k < n && IsItem(lines[k]) && NoneBlank(lines, k, n)
  }

  predicate NoneBlank(lines: seq<string>, from: nat, to: nat)
    requires to <= |lines|
  {
    forall j :: from <= j < to ==> !IsBlank(lines[j])
  }

  /** What comes before line `n`, which is not the first with words. */
  function Gap(lines: seq<string>, n: nat): string
    requires 0 < n < |lines|
  {
    if IsBlank(lines[n - 1]) then "\n\n"
    else if !IsItem(lines[n]) then " "
    else if InList(lines, n) then "\n"
    else "\n\n"
  }

  /** A line's words, one space apart. */
  function Spaced(line: string): string {
    Join(Words(line), " ")
  }

  /** The lines before `n`: nothing of blank ones, the words of the others, and what stands between them. */
  function Described(lines: seq<string>, n: nat): string
    requires n <= |lines|
  {
    if n == 0 then ""
    else
      var before := Described(lines, n - 1);
      if IsBlank(lines[n - 1]) then before
      else if before == "" then Spaced(lines[n - 1])
      else before + Gap(lines, n - 1) + Spaced(lines[n - 1])
  }

  // ---- Joined lines ----

  /** No whitespace in front or behind, and something between. */
  predicate IsFull(s: string) {
    s != "" && StartsFull(s) && EndsFull(s)
  }

  predicate AllFull(parts: seq<string>) {
    forall i :: 0 <= i < |parts| ==> IsFull(parts[i])
  }

  lemma {:induction false} WordsAreFull(s: string)
    ensures AllFull(Words(s))
    decreases |s|
  {
    if s != "" {
      if IsSpace(s[0]) {
        WordsAreFull(s[1..]);
      } else {
        hide IsSpace;
        WordEndSpec(s);
        assert s[..WordEnd(s)] != "";
        WordsAreFull(s[WordEnd(s)..]);
      }
    }
  }

  lemma {:induction false} FullJoin(parts: seq<string>, sep: string)
    requires parts != [] && AllFull(parts)
    ensures IsFull(Join(parts, sep))
  {
    hide IsSpace;
    if |parts| > 1 {
      var rest := Join(parts[1..], sep);
      FullJoin(parts[1..], sep);
      var whole := parts[0] + sep + rest;
      assert whole[0] == parts[0][0] && whole[|whole| - 1] == rest[|rest| - 1];
    }
  }

  /** Collapsing leaves one space between words, and one at the end if there was whitespace. */
  lemma {:induction false} CollapseIs(s: string) returns (tail: string)
    requires s != "" && StartsFull(s)
    ensures AllSpace(tail) && Collapse(s) == Join(Words(s), " ") + tail && Words(s) != []
    decreases |s|
  {
    var n := WordEnd(s);
    var word, rest := s[..n], s[n..];
    SpaceIsSpace();
    NoWords();
    NothingCollapsed();
    FirstWord(s);
    hide IsSpace, Words, Collapse;
    if rest == "" {
      tail := "";
      assert word + "" == word && [word] + [] == [word];
    } else {
      var next := TrimStart(rest);
      var lead := TrimStartCuts(rest);
      WordsTrimStart(rest);
      if next == "" {
        tail := " ";
        assert " " + "" == " " && [word] + [] == [word];
      } else {
        tail := CollapseIs(next);
        JoinConcat([word], Words(next), " ");
        Associate(word + " ", Join(Words(next), " "), tail);
      }
    }
  }

  /** The first word of a text that starts with one. */
  lemma {:induction false} FirstWord(s: string)
    requires s != "" && StartsFull(s)
    ensures var n := WordEnd(s);
            var rest := s[n..];
            && 0 < n && Words(s) == [s[..n]] + Words(rest)
            && Collapse(s) == s[..n] + (if rest == "" then "" else " " + Collapse(TrimStart(rest)))
  {
    WordEndSpec(s);
    hide IsSpace;
  }

  lemma {:induction false} NothingCollapsed()
    ensures Collapse("") == ""
  {
  }

  /** Lines are joined by their words, one space apart. */
  lemma {:induction false} JoinedIs(parts: seq<string>)
    ensures Joined(parts) == Join(WordsOf(parts), " ")
  {
    hide IsSpace, Collapse, Words, TrimStart, TrimEnd;
    var s := Join(parts, " ");
    SpaceIsSpace();
    WordsJoin(parts, " ");
    var lead := TrimStartCuts(s);
    WordsTrimStart(s);
    CollapsedStart(s);
    var next := TrimStart(s);
    var front := if s == next then "" else " ";
    if next == "" {
      NoWords();
      NothingCollapsed();
      assert front + "" == front && "" + "" == "";
      TrimStartIs(front, "");
      TrimEndIs("", "");
    } else {
      var tail := CollapseIs(next);
      var text := Join(Words(s), " ");
      WordsAreFull(s);
      FullJoin(Words(s), " ");
      assert StartsFull(text + tail) by { assert (text + tail)[0] == text[0]; }
      TrimStartIs(front, text + tail);
      TrimEndIs(text, tail);
    }
  }

  /** Whitespace in front is collapsed to one space. */
  lemma {:induction false} CollapsedStart(s: string)
    ensures var next := TrimStart(s); Collapse(s) == (if s == next then "" else " ") + Collapse(next)
  {
    hide IsSpace;
    var lead := TrimStartCuts(s);
    assert s != TrimStart(s) ==> s != "" && IsSpace(s[0]);
  }

  lemma {:induction false} ShownHasWords(line: string)
    requires Shows(line)
    ensures Words(line) != []
  {
    hide IsSpace;
    if IsSpace(line[0]) {
      var i :| 0 <= i < |line| && !IsSpace(line[i]);
      assert line[1..][i - 1] == line[i];
      ShownHasWords(line[1..]);
    }
  }

  lemma {:induction false} LineIsFull(line: string)
    requires !IsBlank(line)
    ensures Words(line) != [] && IsFull(Spaced(line))
  {
    hide Words, IsFull, Trim;
    TrimShows(line);
    ShownHasWords(line);
    WordsAreFull(line);
    FullJoin(Words(line), " ");
  }

  /** A piece of text that starts here. */
  lemma {:induction false} JoinedOne(line: string)
    ensures Joined([line]) == Spaced(line)
  {
    hide Joined, Words;
    JoinedIs([line]);
    assert [line][1..] == [];
    assert WordsOf([line]) == Words(line) + [] == Words(line);
  }

  /** A piece of text that goes on. */
  lemma {:induction false} JoinedMore(parts: seq<string>, line: string)
    requires parts != [] && !IsBlank(parts[0]) && !IsBlank(line)
    ensures Joined(parts + [line]) == Joined(parts) + " " + Spaced(line)
  {
    hide Joined, Words, IsBlank, IsFull;
    JoinedIs(parts);
    JoinedIs(parts + [line]);
    WordsOfConcat(parts, [line]);
    assert [line][1..] == [];
    assert WordsOf([line]) == Words(line) + [] == Words(line);
    LineIsFull(line);
    LineIsFull(parts[0]);
    JoinConcat(WordsOf(parts), Words(line), " ");
  }

  // ---- What the machine would print ----

  /** The description, if it ended here. */
  function Shown(b: Buffers): string {
    Join(ParaFlushed(b).blocks, "\n\n")
  }

  lemma {:induction false} JoinMore(parts: seq<string>, part: string, sep: string)
    ensures Join(parts + [part], sep) == if parts == [] then part else Join(parts, sep) + sep + part
  {
    if parts == [] {
      assert parts + [part] == [part];
    } else {
      JoinConcat(parts, [part], sep);
    }
  }

  /** A last part that grows. */
  lemma {:induction false} JoinLast(parts: seq<string>, part: string, more: string, sep: string)
    ensures Join(parts + [part + more], sep) == Join(parts + [part], sep) + more
  {
    JoinMore(parts, part, sep);
    JoinMore(parts, part + more, sep);
  }

  /** Text comes after something exactly when something is there. */
  lemma {:induction false} Flushed(b: Buffers)
    requires Tidy(b)
    ensures ParaFlushed(b) == Buffers(ParaFlushed(b).blocks, [], [], [])
    ensures Shown(ParaFlushed(b)) == Shown(b)
    ensures b.item == [] && b.para == [] ==> ParaFlushed(b).blocks == b.blocks
    ensures b.item == [] && b.para != [] ==> ParaFlushed(b).blocks == b.blocks + [Joined(b.para)]
    ensures b.item != [] ==> ParaFlushed(b).blocks == b.blocks + [Join(b.list + [Joined(b.item)], "\n")]
  {
    hide IsBlank, IsItem, Joined, Join, PlainLines;
  }

  /** The pending lines are not blank. */
  predicate Filled(b: Buffers) {
    && (b.para != [] ==> !IsBlank(b.para[0]))
    && (b.item != [] ==> !IsBlank(b.item[0]))
  }

  /** What an item adds. */
  lemma {:induction false} ItemShown(b: Buffers, line: string)
    requires Tidy(b) && !IsBlank(line) && IsItem(line)
    ensures Shown(Feed(b, line)) ==
      if b.item != [] then Shown(b) + "\n" + Spaced(line)
      else if b.para == [] && b.blocks == [] then Spaced(line)
      else Shown(b) + "\n\n" + Spaced(line)
  {
    hide IsBlank, IsItem, Joined, Join, PlainLines, Tidy, Feed, ParaFlushed, Spaced;
    FeedIsTidy(b, line);
    var f := Feed(b, line);
    Flushed(b);
    Flushed(f);
    FedItem(b, line);
    JoinedOne(line);
    JoinMore(f.list, Spaced(line), "\n");
    if b.item != [] {
      JoinLast(b.blocks, Join(f.list, "\n"), "\n" + Spaced(line), "\n\n");
      assert Join(f.list + [Spaced(line)], "\n") == Join(f.list, "\n") + ("\n" + Spaced(line));
    } else {
      JoinMore(f.blocks, Spaced(line), "\n\n");
    }
  }

  lemma {:induction false} FedItem(b: Buffers, line: string)
    requires Tidy(b) && !IsBlank(line) && IsItem(line)
    ensures Feed(b, line) ==
      if b.item != [] then Buffers(b.blocks, [], b.list + [Joined(b.item)], [line])
      else Buffers(if b.para == [] then b.blocks else b.blocks + [Joined(b.para)], [], [], [line])
  {
    hide IsBlank, IsItem, Joined, PlainLines;
    assert [] + [line] == [line];
  }

  /** What any other line with words adds. */
  lemma {:induction false} LineShown(b: Buffers, line: string)
    requires Tidy(b) && Filled(b) && !IsBlank(line) && !IsItem(line)
    ensures Shown(Feed(b, line)) ==
      if b.item != [] || b.para != [] then Shown(b) + " " + Spaced(line)
      else if b.blocks == [] then Spaced(line)
      else Shown(b) + "\n\n" + Spaced(line)
  {
    hide IsBlank, IsItem, Joined, Join, PlainLines, Tidy, ParaFlushed, Spaced;
    FeedIsTidy(b, line);
    var f := Feed(b, line);
    Flushed(b);
    Flushed(f);
    if b.item != [] {
      JoinedMore(b.item, line);
      JoinLast(b.list, Joined(b.item), " " + Spaced(line), "\n");
      JoinLast(b.blocks, Join(b.list + [Joined(b.item)], "\n"), " " + Spaced(line), "\n\n");
      assert Joined(f.item) == Joined(b.item) + (" " + Spaced(line));
    } else if b.para != [] {
      JoinedMore(b.para, line);
      JoinLast(b.blocks, Joined(b.para), " " + Spaced(line), "\n\n");
      assert Joined(f.para) == Joined(b.para) + (" " + Spaced(line));
    } else {
      assert [] + [line] == [line];
      JoinedOne(line);
      JoinMore(b.blocks, Spaced(line), "\n\n");
    }
  }

  // ---- Every line ----

  /** The machine after the first `n` lines. */
  function Fed(lines: seq<string>, n: nat): Buffers
    requires n <= |lines|
  {
    if n == 0 then Buffers([], [], [], []) else Feed(Fed(lines, n - 1), lines[n - 1])
  }

  /** Something pending means the line before was not blank, and an item pending that a list is open. */
  predicate Knows(b: Buffers, lines: seq<string>, n: nat)
    requires n <= |lines|
  {
    && Tidy(b) && Filled(b)
    && (b.item != [] || b.para != [] <==> n > 0 && !IsBlank(lines[n - 1]))
    && (b.item != [] <==> InList(lines, n))
    && Shown(b) == Described(lines, n)
    && (Shown(b) == "" <==> b.blocks == [] && b.para == [] && b.item == [])
  }

  lemma {:induction false} ListStep(lines: seq<string>, n: nat)
    requires n < |lines|
    ensures InList(lines, n + 1) <==> !IsBlank(lines[n]) && (IsItem(lines[n]) || InList(lines, n))
  {
    hide IsBlank, IsItem;
    if k :| 0 <= k < n + 1 && IsItem(lines[k]) && NoneBlank(lines, k, n + 1) {
      assert k < n ==> NoneBlank(lines, k, n);
    }
    if !IsBlank(lines[n]) {
      if k :| 0 <= k < n && IsItem(lines[k]) && NoneBlank(lines, k, n) {
        assert NoneBlank(lines, k, n + 1);
      }
      if IsItem(lines[n]) {
        assert NoneBlank(lines, n, n + 1);
      }
    }
  }

  /** What is pending after a line. */
  lemma {:induction false} FeedPends(b: Buffers, line: string)
    requires Tidy(b) && Filled(b)
    ensures var f := Feed(b, line);
            && Tidy(f) && Filled(f)
            && (f.item != [] || f.para != [] <==> !IsBlank(line))
            && (f.item != [] <==> !IsBlank(line) && (IsItem(line) || b.item != []))
  {
    FeedIsTidy(b, line);
    Flushed(b);
    hide IsBlank, IsItem, Joined, Join, PlainLines, Tidy, Shown;
  }

  lemma {:induction false} KnowsNext(b: Buffers, lines: seq<string>, n: nat)
    requires n < |lines| && Knows(b, lines, n)
    ensures Knows(Feed(b, lines[n]), lines, n + 1)
  {
    var line := lines[n];
    ListStep(lines, n);
    FeedPends(b, line);
    Flushed(b);
    hide IsBlank, IsItem, Joined, Join, PlainLines, Tidy, Filled, Shown, Spaced, InList, ParaFlushed;
    if IsBlank(line) {
      assert Feed(b, line) == ParaFlushed(b);
    } else {
      hide Feed;
      LineIsFull(line);
      if IsItem(line) {
        ItemShown(b, line);
      } else {
        LineShown(b, line);
      }
    }
  }

  lemma {:induction false} FedKnows(lines: seq<string>, n: nat)
    requires n <= |lines|
    ensures Knows(Fed(lines, n), lines, n)
  {
    hide Feed;
    if n > 0 {
      hide Knows;
      FedKnows(lines, n - 1);
      KnowsNext(Fed(lines, n - 1), lines, n - 1);
    }
  }

  /** The machine's blocks are those of the grammar. */
  lemma {:induction false} FedRenders(lines: seq<string>, n: nat)
    requires n <= |lines|
    ensures Tidy(Fed(lines, n)) && Finally(Fed(lines, n), lines[n..]) == RenderBlocks(Blocks(lines))
  {
    hide Feed, Blocks, RenderBlocks, IsBlank, IsItem;
    if n == 0 {
      assert lines[0..] == lines && [] + lines == lines;
      assert [] + RenderBlocks(Blocks(lines)) == RenderBlocks(Blocks(lines));
    } else {
      hide Finally, Tidy;
      FedRenders(lines, n - 1);
      var b := Fed(lines, n - 1);
      assert lines[n - 1..] == [lines[n - 1]] + lines[n..];
      FeedIsTidy(b, lines[n - 1]);
      FeedStep(b, lines[n - 1], lines[n..]);
    }
  }

  lemma {:induction false} DescribedIsFull(lines: seq<string>, n: nat)
    requires n <= |lines|
    ensures Described(lines, n) == "" || IsFull(Described(lines, n))
  {
    hide IsBlank, Gap, Spaced, IsSpace;
    if n > 0 {
      DescribedIsFull(lines, n - 1);
      if !IsBlank(lines[n - 1]) {
        LineIsFull(lines[n - 1]);
        var before := Described(lines, n - 1);
        if before != "" {
          FullAround(before, Gap(lines, n - 1), Spaced(lines[n - 1]));
        }
      }
    }
  }

  lemma {:induction false} FullAround(a: string, gap: string, b: string)
    requires IsFull(a) && IsFull(b)
    ensures IsFull(a + gap + b)
  {
    hide IsSpace;
    var whole := a + gap + b;
    assert whole[0] == a[0] && whole[|whole| - 1] == b[|b| - 1];
  }

  lemma {:induction false} TrimsToItself(s: string)
    requires s == "" || IsFull(s)
    ensures Trim(s) == s
  {
    hide IsSpace, TrimStart, TrimEnd;
    assert "" + s == s && s + "" == s;
    TrimStartIs("", s);
    TrimEndIs(s, "");
  }

  /**
   * The description is the words of the prose lines: one space apart within a paragraph or an item, items
   * of a list on lines of their own, and paragraphs and lists with an empty line between.
   */
  lemma {:induction false} DescriptionIsExact(lines: seq<string>)
    ensures Parse(lines).doc == Described(Prose(lines), |Prose(lines)|)
  {
    var prose := Prose(lines);
    var n := |prose|;
    var end := Fed(prose, n);
    FedKnows(prose, n);
    FedRenders(prose, n);
    hide Fed, Feed, Tidy, Finally, Blocks, RenderBlocks, Described, Trim, Prose, Filled, IsBlank, ParaFlushed, InList,
         LastMode, HasMode, Join;
    assert prose[n..] == [];
    FlushStep(end);
    DescribedIsFull(prose, n);
    TrimsToItself(Described(prose, n));
  }
}
