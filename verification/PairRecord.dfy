/** Bilingual pair records: paths, the record's text, and its two parsers. */
module PairRecord {
  import opened Measures
  import opened Outcomes
  import opened Text

  datatype Paths = Paths(source: string, zh: string, meta: string)

  datatype PathError = NotEnglishMarkdown | NotARecordPath

  const MD := ".md"
  const ZH_MD := ".zh.md"
  const META := ".i18n.yaml"

  /** `s` with the suffix `was` replaced. */
  function Retail(s: string, was: string, next: string): string
    requires EndsWith(s, was)
  {
    s[..|s| - |was|] + next
  }

  function PairPaths(source: string): Result<Paths, PathError> {
    if !EndsWith(source, MD) || EndsWith(source, ZH_MD) then Err(NotEnglishMarkdown)
    else Ok(Paths(source, Retail(source, MD, ZH_MD), Retail(source, MD, META)))
  }

  function PairPathsFromMeta(meta: string): Result<Paths, PathError> {
    if !EndsWith(meta, META) then Err(NotARecordPath) else PairPaths(Retail(meta, META, MD))
  }

  lemma {:induction false} Resuffixed(stem: string, was: string, next: string)
    ensures EndsWith(stem + was, was) && Retail(stem + was, was, next) == stem + next
  {
    assert (stem + was)[|stem|..] == was && (stem + was)[..|stem|] == stem;
  }

  /** Deriving from the English path and from the record path are mutually inverse. */
  lemma {:induction false} PathsRoundTrip(path: string)
    ensures PairPaths(path).Ok? ==> PairPathsFromMeta(PairPaths(path).value.meta) == PairPaths(path)
    ensures PairPathsFromMeta(path).Ok? ==> PairPathsFromMeta(path).value.meta == path
  {
    if PairPaths(path).Ok? {
      var stem := path[..|path| - |MD|];
      assert path == stem + MD;
      Resuffixed(stem, META, MD);
    }
    if PairPathsFromMeta(path).Ok? {
      var stem := path[..|path| - |META|];
      assert path == stem + META;
      Resuffixed(stem, MD, META);
    }
  }

  /** The part of a path after its last slash. */
  function Basename(path: string): string {
    if path == "" || path[|path| - 1] == '/' then "" else Basename(path[..|path| - 1]) + [path[|path| - 1]]
  }

  lemma {:induction false} BasenameTail(stem: string, tail: string)
    requires '/' !in tail
    ensures Basename(stem + tail) == Basename(stem) + tail
  {
    if tail == "" {
      assert stem + tail == stem;
    } else {
      var n := |tail| - 1;
      assert tail[n] in tail;
      assert (stem + tail)[..|stem| + n] == stem + tail[..n];
      BasenameTail(stem, tail[..n]);
      assert Basename(stem) + tail == Basename(stem) + tail[..n] + [tail[n]];
    }
  }

  lemma {:induction false} BasenameIsPart(path: string)
    ensures forall c :: c in Basename(path) ==> c in path
  {
    if path != "" && path[|path| - 1] != '/' {
      BasenameIsPart(path[..|path| - 1]);
    }
  }

  // ---- The record's text ----

  predicate IsHash(h: string) {
    |h| == 40 && forall k :: 0 <= k < 40 ==> '0' <= h[k] <= '9' || 'a' <= h[k] <= 'f'
  }

  /** A file name a record line can hold. */
  predicate IsKey(key: string) {
    |key| > 3 && EndsWith(key, MD) && ':' !in key && '#' !in key
  }

  datatype Entry = Entry(key: string, hash: string)

  /** `/^([^:#]+\.md): ([0-9a-f]{40})$/` */
  function MetaLine(line: string): Option<Entry> {
    if |line| < 42 then None
    else
      var n := |line| - 42;
      if line[n..n + 2] == ": " && IsKey(line[..n]) && IsHash(line[n + 2..]) then Some(Entry(line[..n], line[n + 2..]))
      else None
  }

  function EntryLine(e: Entry): string {
    e.key + ": " + e.hash
  }

  /** A line is an entry exactly when it prints a well-formed entry. */
  lemma {:induction false} MetaLineIsExact(line: string, e: Entry)
    ensures MetaLine(line) == Some(e) <==> IsKey(e.key) && IsHash(e.hash) && line == EntryLine(e)
  {
    hide IsKey, IsHash;
    if |e.hash| == 40 && line == EntryLine(e) {
      var n := |e.key|;
      assert line[..n] == e.key && line[n..n + 2] == ": " && line[n + 2..] == e.hash;
    }
    if MetaLine(line) == Some(e) {
      var n := |line| - 42;
      assert line == line[..n] + line[n..n + 2] + line[n + 2..];
    }
    HashLength(e.hash);
  }

  lemma {:induction false} HashLength(h: string)
    ensures IsHash(h) ==> |h| == 40
  {
  }

  predicate IsSkipped(line: string) {
    line == "" || line[0] == '#'
  }

  /** The entries of a record's lines, added to those found. */
  function ParseLines(lines: seq<string>, found: map<string, string>): Option<map<string, string>> {
    if lines == [] then Some(found)
    else if IsSkipped(lines[0]) then ParseLines(lines[1..], found)
    else
      match MetaLine(lines[0])
      case None => None
      case Some(e) => if e.key in found then None else ParseLines(lines[1..], found[e.key := e.hash])
  }

  function Parse(content: string): Option<map<string, string>> {
    ParseLines(Split(content, '\n'), map[])
  }

  method ParsePairMeta(content: string) returns (recorded: Option<map<string, string>>)
    ensures recorded == Parse(content)
  {
    hide MetaLine, IsSkipped;
    var lines := Split(content, '\n');
    var out: map<string, string> := map[];
    assert lines[0..] == lines;
    for i := 0 to |lines|
      invariant ParseLines(lines[i..], out) == Parse(content)
    {
      assert lines[i..][1..] == lines[i + 1..];
      if IsSkipped(lines[i]) {
        continue;
      }
      var entry := MetaLine(lines[i]);
      if entry.None? || entry.value.key in out {
        return None;
      }
      out := out[entry.value.key := entry.value.hash];
    }
    return Some(out);
  }

  datatype Record = Record(sourceHash: string, zhHash: string)

  /** The record has exactly the pair's two entries. */
  predicate HasExactly(recorded: map<string, string>, source: string, zh: string) {
    recorded.Keys == {source, zh}
  }

  /**
   * The second parser looks for the pair's own two names. It agrees with the first on every text: it
   * succeeds exactly when the first finds these two entries and no others, with the same hashes.
   */
  method ParseTranslationPairingRecord(content: string, paths: Paths) returns (record: Option<Record>)
    requires Basename(paths.source) != Basename(paths.zh)
    ensures record.Some? <==>
              Parse(content).Some? && HasExactly(Parse(content).value, Basename(paths.source), Basename(paths.zh))
    ensures record.Some? ==>
      record.value == Record(Parse(content).value[Basename(paths.source)], Parse(content).value[Basename(paths.zh)])
  {
    hide Basename, HasExactly, MetaLine, IsSkipped;
    var hashes: map<string, string> := map[];
    var lines := Split(content, '\n');
    assert lines[0..] == lines;
    for i := 0 to |lines|
      invariant ParseLines(lines[i..], hashes) == Parse(content)
    {
      assert lines[i..][1..] == lines[i + 1..];
      if IsSkipped(lines[i]) {
        continue;
      }
      var entry := MetaLine(lines[i]);
      if entry.None? || entry.value.key in hashes {
        return None;
      }
      hashes := hashes[entry.value.key := entry.value.hash];
    }
    var source, zh := Basename(paths.source), Basename(paths.zh);
    TwoKeys(hashes, source, zh);
    if |hashes| != 2 || source !in hashes || zh !in hashes {
      return None;
    }
    return Some(Record(hashes[source], hashes[zh]));
  }

  lemma {:induction false} TwoKeys(found: map<string, string>, source: string, zh: string)
    requires source != zh
    ensures HasExactly(found, source, zh) <==> |found| == 2 && source in found && zh in found
  {
    var both := {source, zh};
    assert |both| == 2;
    assert |found| == |found.Keys|;
    if |found| == 2 && source in found && zh in found {
      assert both <= found.Keys;
      if found.Keys != both {
        var k :| k in found.Keys && k !in both;
        assert both + {k} <= found.Keys;
        SubsetSize(both + {k}, found.Keys);
      }
    }
  }

  // ---- Rendering ----

  const HASH_LINE := "# Bilingual-pair" + " consistency record" + " (docs/i18n/README.md): the"
                     + " git blob hash of each"
  const STATE_LINE := "# side as of the last" + " confirmed-consistent state." + " Both languages carry"
                      + " equal authority;"
  const EDIT_LINE := "# after editing either" + " side, bring the other" + " along and re-record with:"
  const COMMENT := [HASH_LINE, STATE_LINE, EDIT_LINE]
  const COMMAND := "#   pnpm run " + "verify-translation-pairing" + " --write "

  function RecordLines(source: string, sourceHash: string, zh: string, zhHash: string): seq<string> {
    COMMENT + [COMMAND + source, EntryLine(Entry(Basename(source), sourceHash)),
               EntryLine(Entry(Basename(zh), zhHash)), ""]
  }

  function Render(source: string, sourceHash: string, zh: string, zhHash: string): string {
    Join(RecordLines(source, sourceHash, zh, zhHash), "\n")
  }

  lemma {:induction false} ParseSkipped(line: string, rest: seq<string>, found: map<string, string>)
    requires IsSkipped(line)
    ensures ParseLines([line] + rest, found) == ParseLines(rest, found)
  {
    assert ([line] + rest)[1..] == rest;
  }

  lemma {:induction false} ParseEntry(line: string, rest: seq<string>, found: map<string, string>)
    requires !IsSkipped(line)
    ensures ParseLines([line] + rest, found) ==
      match MetaLine(line)
      case None => None
      case Some(e) => if e.key in found then None else ParseLines(rest, found[e.key := e.hash])
  {
    hide MetaLine;
    assert ([line] + rest)[1..] == rest;
  }

  lemma {:induction false} ParseEnd(found: map<string, string>)
    ensures ParseLines([""], found) == Some(found)
  {
    assert [""][1..] == [];
  }

  /** The comment lines are skipped. */
  lemma {:induction false} ParseComments(command: string, rest: seq<string>)
    requires command != "" && command[0] == '#'
    ensures ParseLines(COMMENT + [command] + rest, map[]) == ParseLines(rest, map[])
  {
    var three := [command] + rest;
    var two := [COMMENT[2]] + three;
    var one := [COMMENT[1]] + two;
    HashLineIsPlain();
    StateLineIsPlain();
    EditLineIsPlain();
    assert COMMENT + [command] + rest == [COMMENT[0]] + one;
    hide ParseLines;
    ParseSkipped(COMMENT[0], one, map[]);
    ParseSkipped(COMMENT[1], two, map[]);
    ParseSkipped(COMMENT[2], three, map[]);
    ParseSkipped(command, rest, map[]);
  }

  /** Which names are keys, by what stands before the suffix. */
  lemma {:induction false} KeyOf(b: string, suffix: string)
    requires EndsWith(suffix, MD) && ':' !in suffix && '#' !in suffix
    ensures IsKey(b + suffix) <==> |b| + |suffix| > 3 && ':' !in b && '#' !in b
  {
    var name := b + suffix;
    assert name[|name| - 3..] == suffix[|suffix| - 3..];
    assert forall c :: c in name <==> c in b || c in suffix;
  }

  lemma {:induction false} NamesOf(b: string)
    ensures b + MD != b + ZH_MD && b + MD != "" && b + ZH_MD != ""
    ensures IsKey(b + MD) ==> IsKey(b + ZH_MD)
    ensures (b + MD)[0] == '#' ==> (b + ZH_MD)[0] == '#'
  {
    KeyOf(b, MD);
    KeyOf(b, ZH_MD);
    hide IsKey;
    assert |b + MD| != |b + ZH_MD|;
    assert (b + MD)[0] == if b != "" then b[0] else '.';
    assert (b + ZH_MD)[0] == if b != "" then b[0] else '.';
  }

  /** The two names of a pair differ, and are keys together. */
  lemma {:induction false} PairNames(source: string)
    requires PairPaths(source).Ok?
    ensures var p := PairPaths(source).value;
            && Basename(p.source) != Basename(p.zh) && Basename(p.source) != "" && Basename(p.zh) != ""
            && (IsKey(Basename(p.source)) ==> IsKey(Basename(p.zh)))
            && (Basename(p.source)[0] == '#' ==> Basename(p.zh)[0] == '#')
  {
    hide IsKey, Basename;
    var stem := source[..|source| - |MD|];
    assert source == stem + MD;
    BasenameTail(stem, MD);
    BasenameTail(stem, ZH_MD);
    NamesOf(Basename(stem));
  }

  lemma {:induction false} EntryOfKey(key: string, hash: string)
    requires IsHash(hash) && key != ""
    ensures IsKey(key) ==> MetaLine(EntryLine(Entry(key, hash))) == Some(Entry(key, hash))
    ensures !IsKey(key) ==> MetaLine(EntryLine(Entry(key, hash))) == None
    ensures IsSkipped(EntryLine(Entry(key, hash))) <==> key[0] == '#'
    ensures IsKey(key) ==> key[0] != '#'
  {
    var e := Entry(key, hash);
    MetaLineIsExact(EntryLine(e), e);
    var found := MetaLine(EntryLine(e));
    if found.Some? {
      MetaLineIsExact(EntryLine(e), found.value);
      HashLength(found.value.hash);
      HashLength(hash);
      assert |found.value.key| == |key|;
      assert EntryLine(e)[..|key|] == key && EntryLine(found.value)[..|key|] == found.value.key;
    }
    assert EntryLine(e)[0] == key[0];
  }

  /** What the parser makes of the two entry lines. */
  lemma {:induction false} ParseEntries(a: Entry, b: Entry)
    requires a.key != "" && b.key != "" && a.key != b.key && IsHash(a.hash) && IsHash(b.hash)
    requires (IsKey(a.key) ==> IsKey(b.key)) && (a.key[0] == '#' ==> b.key[0] == '#')
    ensures ParseLines([EntryLine(a), EntryLine(b), ""], map[]) == Some(map[a.key := a.hash, b.key := b.hash]) <==>
              IsKey(a.key)
  {
    hide ParseLines, MetaLine, IsSkipped, IsKey, IsHash, EntryLine;
    EntryOfKey(a.key, a.hash);
    EntryOfKey(b.key, b.hash);
    var la, lb := EntryLine(a), EntryLine(b);
    assert [la, lb, ""] == [la] + ([lb] + [""]);
    if IsKey(a.key) {
      ParseEntry(la, [lb] + [""], map[]);
      ParseEntry(lb, [""], map[a.key := a.hash]);
      ParseEnd(map[a.key := a.hash, b.key := b.hash]);
    } else if a.key[0] == '#' {
      ParseSkipped(la, [lb] + [""], map[]);
      ParseSkipped(lb, [""], map[]);
      ParseEnd(map[]);
      assert a.key in map[a.key := a.hash, b.key := b.hash];
    } else {
      ParseEntry(la, [lb] + [""], map[]);
    }
  }

  lemma {:induction false} RecordLinesAreLines(source: string, sourceHash: string, zh: string, zhHash: string)
    requires '\n' !in source && '\n' !in zh && IsHash(sourceHash) && IsHash(zhHash)
    ensures Split(Render(source, sourceHash, zh, zhHash), '\n') == RecordLines(source, sourceHash, zh, zhHash)
  {
    var lines := RecordLines(source, sourceHash, zh, zhHash);
    BasenameIsPart(source);
    BasenameIsPart(zh);
    CommandIsPlain();
    HashLineIsPlain();
    StateLineIsPlain();
    EditLineIsPlain();
    HashIsPlain(sourceHash);
    HashIsPlain(zhHash);
    hide IsHash, Basename;
    forall k | 0 <= k < |lines|
      ensures '\n' !in lines[k]
    {
      assert k < 3 ==> lines[k] == COMMENT[k];
    }
    SplitJoin(lines, '\n');
  }

  lemma {:induction false} HashIsPlain(h: string)
    requires IsHash(h)
    ensures '\n' !in h
  {
  }

  lemma {:induction false} CommandIsPlain()
    ensures '\n' !in COMMAND && COMMAND != "" && COMMAND[0] == '#'
  {
  }

  lemma {:induction false} HashLineIsPlain()
    ensures '\n' !in HASH_LINE && HASH_LINE != "" && HASH_LINE[0] == '#'
  {
  }

  lemma {:induction false} StateLineIsPlain()
    ensures '\n' !in STATE_LINE && STATE_LINE != "" && STATE_LINE[0] == '#'
  {
  }

  lemma {:induction false} EditLineIsPlain()
    ensures '\n' !in EDIT_LINE && EDIT_LINE != "" && EDIT_LINE[0] == '#'
  {
  }

  /** The record read back holds exactly the two names, with these hashes. */
  predicate ParsesBack(p: Paths, sourceHash: string, zhHash: string) {
    Parse(Render(p.source, sourceHash, p.zh, zhHash)) ==
    Some(map[Basename(p.source) := sourceHash, Basename(p.zh) := zhHash])
  }

  /**
   * The record of a pair parses back to its two hashes exactly when the file name is nonempty before
   * its suffix and has no colon and no number sign.
   */
  lemma {:induction false} RecordRoundTrip(source: string, sourceHash: string, zhHash: string)
    requires PairPaths(source).Ok? && '\n' !in source && IsHash(sourceHash) && IsHash(zhHash)
    ensures var p := PairPaths(source).value;
            ParsesBack(p, sourceHash, zhHash) <==> IsKey(Basename(p.source))
  {
    hide Basename, IsHash, IsKey, EntryLine, ParseLines;
    var p := PairPaths(source).value;
    PairNames(source);
    CommandIsPlain();
    RecordLinesAreLines(p.source, sourceHash, p.zh, zhHash);
    var a, b := Entry(Basename(p.source), sourceHash), Entry(Basename(p.zh), zhHash);
    ParseComments(COMMAND + source, [EntryLine(a), EntryLine(b), ""]);
    assert RecordLines(p.source, sourceHash, p.zh, zhHash) ==
           COMMENT + [COMMAND + source] + [EntryLine(a), EntryLine(b), ""];
    ParseEntries(a, b);
  }
}
