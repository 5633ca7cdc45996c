/** Pair records and their paths, told by their texts: which lines are entries, and what a record holds. */
module RecordGrammar {
  import opened Outcomes
  import opened Text
  import opened PairRecord

  // ---- Paths ----

  lemma {:induction false} SuffixIsExact(s: string, suffix: string)
    ensures EndsWith(s, suffix) <==> exists stem: string :: s == stem + suffix
  {
    if EndsWith(s, suffix) {
      assert s == s[..|s| - |suffix|] + suffix;
    }
  }

  /** The three paths of a pair with one stem. */
  predicate PathsOf(paths: Paths, stem: string) {
    paths == Paths(stem + ".md", stem + ".zh.md", stem + ".i18n.yaml")
  }

  /** An English Markdown path is one that ends in `.md` but not in `.zh.md`. */
  lemma {:induction false} PairPathsAreExact(source: string, paths: Paths)
    ensures PairPaths(source) == Ok(paths) <==>
      && paths.source == source && (exists stem: string :: PathsOf(paths, stem))
      && !exists stem: string :: source == stem + ".zh.md"
  {
    SuffixIsExact(source, ".zh.md");
    if PairPaths(source) == Ok(paths) {
      var stem := source[..|source| - 3];
      assert source == stem + ".md";
      assert PathsOf(paths, stem);
    }
    if stem: string :| PathsOf(paths, stem) && paths.source == source {
      Resuffixed(stem, ".md", ".zh.md");
      Resuffixed(stem, ".md", ".i18n.yaml");
    }
  }

  lemma {:induction false} PairPathsFromMetaAreExact(meta: string, paths: Paths)
    ensures PairPathsFromMeta(meta) == Ok(paths) <==> paths.meta == meta && PairPaths(paths.source) == Ok(paths)
  {
    if PairPathsFromMeta(meta) == Ok(paths) {
      var stem := meta[..|meta| - 10];
      assert meta == stem + ".i18n.yaml";
      Resuffixed(stem, ".i18n.yaml", ".md");
      Resuffixed(stem, ".md", ".i18n.yaml");
      assert PairPaths(stem + ".md") == Ok(paths);
      PairPathsAreExact(stem + ".md", paths);
    }
    if paths.meta == meta && PairPaths(paths.source) == Ok(paths) {
      PairPathsAreExact(paths.source, paths);
      var stem: string :| PathsOf(paths, stem);
      Resuffixed(stem, ".i18n.yaml", ".md");
    }
  }

  /** The part of a path behind its last slash. */
  lemma {:induction false} BasenameIsExact(path: string, base: string)
    ensures Basename(path) == base <==>
      '/' !in base && exists dir: string :: path == dir + base && (dir == "" || dir[|dir| - 1] == '/')
  {
    if dir: string :| path == dir + base && (dir == "" || dir[|dir| - 1] == '/') {
      if '/' !in base {
        BasenameTail(dir, base);
        assert Basename(dir) == "";
      }
    }
    if Basename(path) == base {
      var dir := DirOf(path);
    }
  }

  lemma {:induction false} DirOf(path: string) returns (dir: string)
    ensures path == dir + Basename(path) && (dir == "" || dir[|dir| - 1] == '/') && '/' !in Basename(path)
  {
    if path == "" || path[|path| - 1] == '/' {
      dir := path;
    } else {
      dir := DirOf(path[..|path| - 1]);
      assert path == path[..|path| - 1] + [path[|path| - 1]];
    }
  }

  // ---- Entries ----

  /** Forty lower-case hexadecimal digits. */
  predicate HexDigits(h: string) {
    |h| == 40 && forall k :: 0 <= k < |h| ==> h[k] in "0123456789abcdef"
  }

  lemma {:induction false} HashIsExact(h: string)
    ensures IsHash(h) <==> HexDigits(h)
  {
    forall c: char
      ensures c in "0123456789abcdef" <==> '0' <= c <= '9' || 'a' <= c <= 'f'
    {
      HexDigit(c);
    }
  }

  lemma {:induction false} HexDigit(c: char)
    ensures c in "0123456789abcdef" <==> '0' <= c <= '9' || 'a' <= c <= 'f'
  {
    var digits := "0123456789abcdef";
    if '0' <= c <= '9' {
      assert digits[c as int - '0' as int] == c;
    } else if 'a' <= c <= 'f' {
      assert digits[c as int - 'a' as int + 10] == c;
    }
  }

  /** A name with something before `.md`, and neither colon nor number sign. */
  ghost predicate NamesDocument(key: string) {
    exists stem: string :: stem != "" && ':' !in stem && '#' !in stem && key == stem + ".md"
  }

  lemma {:induction false} KeyIsExact(key: string)
    ensures IsKey(key) <==> NamesDocument(key)
  {
    if IsKey(key) {
      var stem := key[..|key| - 3];
      assert key == stem + ".md";
    }
    if stem: string :| stem != "" && ':' !in stem && '#' !in stem && key == stem + ".md" {
      assert key[|stem|..] == ".md";
      assert ':' !in ".md" && '#' !in ".md";
    }
  }

  // ---- The whole record ----

  /** A document's name, a colon, and its hash. */
  ghost predicate IsEntry(line: string, key: string, hash: string) {
    NamesDocument(key) && HexDigits(hash) && line == key + ": " + hash
  }

  lemma {:induction false} EntryIsExact(line: string, key: string, hash: string)
    ensures IsEntry(line, key, hash) <==> MetaLine(line) == Some(Entry(key, hash))
  {
    hide IsKey, IsHash, NamesDocument, HexDigits, MetaLine;
    KeyIsExact(key);
    HashIsExact(hash);
    MetaLineIsExact(line, Entry(key, hash));
  }

  /** A line that is empty or starts with a number sign. */
  predicate IsComment(line: string) {
    line == "" || line[0] == '#'
  }

  /** Every other line is an entry of the map, and every entry stands on exactly one line. */
  ghost predicate Records(lines: seq<string>, recorded: map<string, string>) {
    && (forall i :: 0 <= i < |lines| && !IsComment(lines[i]) ==> Holds(recorded, lines[i]))
    && forall key :: key in recorded ==> exists i :: StandsAt(lines, key, recorded[key], i)
  }

  ghost predicate Holds(recorded: map<string, string>, line: string) {
    exists key :: key in recorded && IsEntry(line, key, recorded[key])
  }

  /** The entry stands here, and no other line has its key. */
  ghost predicate StandsAt(lines: seq<string>, key: string, hash: string, i: int) {
    && 0 <= i < |lines| && IsEntry(lines[i], key, hash)
    && forall j, other :: 0 <= j < |lines| && j != i ==> !IsEntry(lines[j], key, other)
  }

  lemma {:induction false} EntryIsNoComment(line: string, key: string, hash: string)
    requires IsEntry(line, key, hash)
    ensures !IsComment(line)
  {
    assert line[0] == key[0] && key[0] in key;
  }

  lemma {:induction false} SameEntry(line: string, key: string, hash: string, key': string, hash': string)
    requires IsEntry(line, key, hash) && IsEntry(line, key', hash')
    ensures key == key' && hash == hash'
  {
    hide IsEntry, MetaLine;
    EntryIsExact(line, key, hash);
    EntryIsExact(line, key', hash');
  }

  /** What parsing adds to the entries found so far. */
  ghost predicate Extends(lines: seq<string>, found: map<string, string>, m: map<string, string>) {
    && (forall key :: key in found ==> key in m && m[key] == found[key])
    && (forall i :: 0 <= i < |lines| && !IsComment(lines[i]) ==> HoldsNew(found, m, lines[i]))
    && forall key :: key in m && key !in found ==> exists i :: StandsAt(lines, key, m[key], i)
  }

  ghost predicate HoldsNew(found: map<string, string>, m: map<string, string>, line: string) {
    exists key :: key in m && key !in found && IsEntry(line, key, m[key])
  }

  lemma {:induction false} CommentSkipped(line: string, rest: seq<string>, found: map<string, string>,
                                          m: map<string, string>)
    requires IsComment(line)
    ensures Extends([line] + rest, found, m) <==> Extends(rest, found, m)
  {
    hide IsEntry, IsComment;
    var lines := [line] + rest;
    assert forall i :: 0 < i < |lines| ==> lines[i] == rest[i - 1];
    forall key, hash
      ensures !IsEntry(line, key, hash)
    {
      if IsEntry(line, key, hash) {
        EntryIsNoComment(line, key, hash);
      }
    }
    forall key, hash, i | StandsAt(rest, key, hash, i)
      ensures StandsAt(lines, key, hash, i + 1)
    {
    }
    forall key, hash, i | StandsAt(lines, key, hash, i)
      ensures StandsAt(rest, key, hash, i - 1)
    {
      assert lines[0] == line;
      StandsWithout(line, rest, key, hash, i);
    }
    if Extends(lines, found, m) {
      forall i | 0 <= i < |rest| && !IsComment(rest[i])
        ensures HoldsNew(found, m, rest[i])
      {
        assert HoldsNew(found, m, lines[i + 1]);
      }
    }
  }

  /** An entry behind which the others are parsed. */
  lemma {:induction false} EntryAdded(line: string, rest: seq<string>, found: map<string, string>,
                                      m: map<string, string>, key: string, hash: string)
    requires IsEntry(line, key, hash) && key !in found
    ensures Extends(rest, found[key := hash], m) ==> Extends([line] + rest, found, m)
  {
    hide IsEntry, IsComment;
    var lines, more := [line] + rest, found[key := hash];
    if Extends(rest, more, m) {
      EntryIsNoComment(line, key, hash);
      assert m[key] == hash;
      forall i | 0 <= i < |lines| && !IsComment(lines[i])
        ensures HoldsNew(found, m, lines[i])
      {
        if i > 0 {
          assert HoldsNew(more, m, rest[i - 1]);
        }
      }
      forall other | other in m && other !in found
        ensures exists i :: StandsAt(lines, other, m[other], i)
      {
        if other == key {
          OnlyFirst(line, rest, more, m, key, hash);
        } else {
          var i :| StandsAt(rest, other, m[other], i);
          StandsBehind(line, rest, key, hash, other, m[other], i);
        }
      }
    }
  }

  lemma {:induction false} OnlyFirst(line: string, rest: seq<string>, more: map<string, string>, m: map<string, string>,
                                     key: string, hash: string)
    requires IsEntry(line, key, hash) && key in more
    requires forall i :: 0 <= i < |rest| && !IsComment(rest[i]) ==> HoldsNew(more, m, rest[i])
    ensures StandsAt([line] + rest, key, hash, 0)
  {
    hide IsEntry, IsComment;
    var lines := [line] + rest;
    forall j, other | 0 < j < |lines|
      ensures !IsEntry(lines[j], key, other)
    {
      if IsEntry(rest[j - 1], key, other) {
        EntryIsNoComment(rest[j - 1], key, other);
        var k :| k in m && k !in more && IsEntry(rest[j - 1], k, m[k]);
        SameEntry(rest[j - 1], key, other, k, m[k]);
      }
    }
  }

  lemma {:induction false} StandsBehind(line: string, rest: seq<string>, key: string, hash: string, other: string,
                                        value: string, i: int)
    requires IsEntry(line, key, hash) && other != key && StandsAt(rest, other, value, i)
    ensures StandsAt([line] + rest, other, value, i + 1)
  {
    hide IsEntry;
    forall v
      ensures !IsEntry(line, other, v)
    {
      if IsEntry(line, other, v) {
        SameEntry(line, key, hash, other, v);
      }
    }
  }

  lemma {:induction false} EntryTaken(line: string, rest: seq<string>, found: map<string, string>,
                                      m: map<string, string>, key: string, hash: string)
    requires IsEntry(line, key, hash) && Extends([line] + rest, found, m)
    ensures key !in found && Extends(rest, found[key := hash], m)
  {
    hide IsEntry, IsComment;
    var lines, more := [line] + rest, found[key := hash];
    assert lines[0] == line;
    EntryIsNoComment(line, key, hash);
    assert HoldsNew(found, m, lines[0]);
    var own :| own in m && own !in found && IsEntry(line, own, m[own]);
    SameEntry(line, key, hash, own, m[own]);
    var at :| StandsAt(lines, key, hash, at);
    assert at == 0;
    forall i | 0 <= i < |rest| && !IsComment(rest[i])
      ensures HoldsNew(more, m, rest[i])
    {
      assert HoldsNew(found, m, lines[i + 1]);
      var k :| k in m && k !in found && IsEntry(lines[i + 1], k, m[k]);
      assert k != key;
    }
    forall other | other in m && other !in more
      ensures exists i :: StandsAt(rest, other, m[other], i)
    {
      var i :| StandsAt(lines, other, m[other], i);
      if i == 0 {
        SameEntry(line, key, hash, other, m[other]);
      }
      StandsWithout(line, rest, other, m[other], i);
    }
  }

  lemma {:induction false} StandsWithout(line: string, rest: seq<string>, key: string, hash: string, i: int)
    requires i > 0 && StandsAt([line] + rest, key, hash, i)
    ensures StandsAt(rest, key, hash, i - 1)
  {
    hide IsEntry;
    var lines := [line] + rest;
    assert forall j :: 0 <= j < |rest| ==> rest[j] == lines[j + 1];
  }

  lemma {:induction false} NothingToExtend(found: map<string, string>, m: map<string, string>)
    ensures Extends([], found, m) <==> m == found
  {
  }

  lemma {:induction false} ParseLinesAreExact(lines: seq<string>, found: map<string, string>, m: map<string, string>)
    ensures ParseLines(lines, found) == Some(m) <==> Extends(lines, found, m)
  {
    hide Extends, IsEntry, MetaLine;
    if lines == [] {
      NothingToExtend(found, m);
    } else {
      var line, rest := lines[0], lines[1..];
      assert lines == [line] + rest;
      if IsSkipped(line) {
        ParseLinesAreExact(rest, found, m);
        CommentSkipped(line, rest, found, m);
      } else if MetaLine(line).Some? {
        var e := MetaLine(line).value;
        EntryIsExact(line, e.key, e.hash);
        if e.key !in found {
          ParseLinesAreExact(rest, found[e.key := e.hash], m);
          EntryAdded(line, rest, found, m, e.key, e.hash);
        }
        if Extends(lines, found, m) {
          EntryTaken(line, rest, found, m, e.key, e.hash);
        }
      } else {
        NoEntryFails(line, rest, found, m);
      }
    }
  }

  lemma {:induction false} NoEntryFails(line: string, rest: seq<string>, found: map<string, string>,
                                        m: map<string, string>)
    requires !IsComment(line) && MetaLine(line).None?
    ensures !Extends([line] + rest, found, m)
  {
    hide MetaLine, IsEntry;
    if Extends([line] + rest, found, m) {
      assert ([line] + rest)[0] == line;
      assert HoldsNew(found, m, ([line] + rest)[0]);
      var key :| key in m && key !in found && IsEntry(line, key, m[key]);
      EntryIsExact(line, key, m[key]);
    }
  }

  /** A record's text gives a map exactly when its lines are comments and the map's entries, each once. */
  lemma {:induction false} ParseIsExact(content: string, recorded: map<string, string>)
    ensures Parse(content) == Some(recorded) <==> Records(Split(content, '\n'), recorded)
  {
    var lines := Split(content, '\n');
    ParseLinesAreExact(lines, map[], recorded);
    hide IsComment, IsEntry, StandsAt, ParseLines;
    forall line
      ensures HoldsNew(map[], recorded, line) <==> Holds(recorded, line)
    {
    }
  }
}
