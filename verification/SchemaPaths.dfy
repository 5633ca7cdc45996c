/** Schema key paths such as `agents[].id`, parsed into member and array-element steps. */
module SchemaPaths {
  import Text

  /** One step of a key path: a named member, or a hop to an array's element. */
  datatype Step = Member(name: string) | Element

  /** One dot-separated segment of a key path: a name with trailing `[]` pairs. */
  datatype Key = Key(name: string, arrays: nat)

  predicate EndsWithPair(s: string) {
    |s| >= 2 && s[|s| - 2..] == "[]"
  }

  function Elements(n: nat): seq<Step> {
    seq(n, _ => Element)
  }

  function Pairs(n: nat): string {
    if n == 0 then "" else Pairs(n - 1) + "[]"
  }

  /** A segment without its trailing pairs, and how many there were. */
  function ParseKey(segment: string): (key: Key)
    ensures !EndsWithPair(key.name)
  {
    if EndsWithPair(segment) then
      var inner := ParseKey(segment[..|segment| - 2]);
      inner.(arrays := inner.arrays + 1)
    else Key(segment, 0)
  }

  function KeySteps(key: Key): seq<Step> {
    [Member(key.name)] + Elements(key.arrays)
  }

  function StepsOf(keys: seq<Key>): seq<Step> {
    if keys == [] then [] else KeySteps(keys[0]) + StepsOf(keys[1..])
  }

  function ParseKeys(segments: seq<string>): (keys: seq<Key>)
    ensures |keys| == |segments|
  {
    if segments == [] then [] else [ParseKey(segments[0])] + ParseKeys(segments[1..])
  }

  /** The steps of a key path. */
  function PathSteps(path: string): seq<Step> {
    StepsOf(ParseKeys(Text.Split(path, '.')))
  }

  function RenderKey(key: Key): string {
    key.name + Pairs(key.arrays)
  }

  function RenderKeys(keys: seq<Key>): seq<string> {
    if keys == [] then [] else [RenderKey(keys[0])] + RenderKeys(keys[1..])
  }

  /** A segment's name has no dot and does not itself end with a pair. */
  predicate PlainKey(key: Key) {
    '.' !in key.name && !EndsWithPair(key.name)
  }

  lemma {:induction false} ParseRenderKey(key: Key)
    requires PlainKey(key)
    ensures ParseKey(RenderKey(key)) == key && '.' !in RenderKey(key)
    decreases key.arrays
  {
    if key.arrays > 0 {
      var inner := Key(key.name, key.arrays - 1);
      ParseRenderKey(inner);
      assert RenderKey(key) == RenderKey(inner) + "[]";
    } else {
      assert RenderKey(key) == key.name;
    }
  }

  lemma {:induction false} ParseRenderKeys(keys: seq<Key>)
    requires forall i :: 0 <= i < |keys| ==> PlainKey(keys[i])
    ensures ParseKeys(RenderKeys(keys)) == keys && |RenderKeys(keys)| == |keys|
    ensures forall i :: 0 <= i < |keys| ==> '.' !in RenderKeys(keys)[i]
  {
    if keys != [] {
      ParseRenderKey(keys[0]);
      ParseRenderKeys(keys[1..]);
      assert RenderKeys(keys)[1..] == RenderKeys(keys[1..]);
    }
  }

  /** Parsing inverts rendering: every list of plain segments comes back as its own steps. */
  lemma PathRoundTrip(keys: seq<Key>)
    requires keys != [] && forall i :: 0 <= i < |keys| ==> PlainKey(keys[i])
    ensures PathSteps(Text.Join(RenderKeys(keys), ".")) == StepsOf(keys)
  {
    ParseRenderKeys(keys);
    Text.SplitJoin(RenderKeys(keys), '.');
  }

  // ---- Steps as written ----

  /** Steps as a path writes them: a dot before each member's name, `[]` for each element. */
  function Written(steps: seq<Step>): string {
    if steps == [] then ""
    else (match steps[0] case Member(name) => "." + name case Element => "[]") + Written(steps[1..])
  }

  /** The steps of a path: a member first, and no name that would be written as several steps. */
  predicate Proper(steps: seq<Step>) {
    && steps != [] && steps[0].Member?
    && forall i :: 0 <= i < |steps| && steps[i].Member? ==> OneStep(steps[i].name)
  }

  predicate OneStep(name: string) {
    '.' !in name && (|name| >= 2 ==> name[|name| - 2..] != "[]")
  }

  lemma {:induction false} WrittenConcat(a: seq<Step>, b: seq<Step>)
    ensures Written(a + b) == Written(a) + Written(b)
  {
    if a == [] {
      assert a + b == b;
    } else {
      assert (a + b)[1..] == a[1..] + b;
      WrittenConcat(a[1..], b);
    }
  }

  lemma {:induction false} WrittenElements(n: nat)
    ensures Written(Elements(n)) == Pairs(n)
  {
    if n > 0 {
      WrittenElements(n - 1);
      assert Elements(n) == Elements(n - 1) + [Element];
      WrittenConcat(Elements(n - 1), [Element]);
      assert Written([Element]) == "[]" + Written([]);
    }
  }

  lemma {:induction false} WrittenKey(key: Key)
    ensures Written(KeySteps(key)) == "." + RenderKey(key)
  {
    WrittenElements(key.arrays);
    assert KeySteps(key)[1..] == Elements(key.arrays);
  }

  /** A list of keys written out is its segments joined by dots, after a dot. */
  lemma {:induction false} WrittenKeys(keys: seq<Key>)
    requires keys != []
    ensures Written(StepsOf(keys)) == "." + Text.Join(RenderKeys(keys), ".")
  {
    var key, rest := keys[0], keys[1..];
    WrittenKey(key);
    WrittenConcat(KeySteps(key), StepsOf(rest));
    assert RenderKeys(keys) == [RenderKey(key)] + RenderKeys(rest);
    assert StepsOf(keys) == KeySteps(key) + StepsOf(rest);
    assert rest == [] ==> RenderKeys(rest) == [] && Written(StepsOf(rest)) == "";
    hide Written, StepsOf, KeySteps, RenderKey, RenderKeys;
    JoinFirst(RenderKey(key), RenderKeys(rest));
    if rest != [] {
      WrittenKeys(rest);
    }
  }

  lemma {:induction false} JoinFirst(first: string, rest: seq<string>)
    ensures Text.Join([first] + rest, ".") == first + if rest == [] then "" else "." + Text.Join(rest, ".")
  {
    assert ([first] + rest)[1..] == rest;
  }

  lemma {:induction false} RenderParseKey(segment: string)
    requires '.' !in segment
    ensures RenderKey(ParseKey(segment)) == segment && PlainKey(ParseKey(segment))
    decreases |segment|
  {
    if EndsWithPair(segment) {
      var inner := segment[..|segment| - 2];
      RenderParseKey(inner);
      assert segment == inner + "[]";
    }
  }

  lemma {:induction false} RenderParseKeys(segments: seq<string>)
    requires forall i :: 0 <= i < |segments| ==> '.' !in segments[i]
    ensures RenderKeys(ParseKeys(segments)) == segments
    ensures forall i :: 0 <= i < |segments| ==> PlainKey(ParseKeys(segments)[i])
  {
    if segments != [] {
      RenderParseKey(segments[0]);
      RenderParseKeys(segments[1..]);
    }
  }

  /** Plain keys have proper steps. */
  lemma {:induction false} PlainStepsProper(keys: seq<Key>)
    requires keys != [] && forall i :: 0 <= i < |keys| ==> PlainKey(keys[i])
    ensures Proper(StepsOf(keys))
  {
    var rest := keys[1..];
    var first: seq<Step>, others: seq<Step> := KeySteps(keys[0]), StepsOf(rest);
    if rest != [] {
      PlainStepsProper(rest);
    }
    forall i | 0 <= i < |first + others| && (first + others)[i].Member?
      ensures OneStep((first + others)[i].name)
    {
      if i >= |first| {
        assert (first + others)[i] == others[i - |first|];
      }
    }
  }

  /** Proper steps are those of a list of plain keys. */
  lemma {:induction false} ProperKeys(steps: seq<Step>) returns (keys: seq<Key>)
    requires Proper(steps)
    ensures keys != [] && StepsOf(keys) == steps && forall i :: 0 <= i < |keys| ==> PlainKey(keys[i])
    decreases |steps|
  {
    var n := Leading(steps[1..]);
    var rest := steps[1 + n..];
    var key := Key(steps[0].name, n);
    assert steps[..1 + n] == KeySteps(key);
    assert steps == KeySteps(key) + rest;
    if rest == [] {
      keys := [key];
      assert StepsOf(keys) == KeySteps(key) + [];
    } else {
      assert forall i :: 0 <= i < |rest| ==> rest[i] == steps[1 + n + i];
      var others := ProperKeys(rest);
      keys := [key] + others;
      assert keys[1..] == others;
    }
  }

  /** How many elements steps start with. */
  function Leading(steps: seq<Step>): (n: nat)
    ensures n <= |steps| && steps[..n] == Elements(n) && (n < |steps| ==> steps[n].Member?)
  {
    if steps != [] && steps[0].Element? then
      assert steps == [Element] + steps[1..];
      1 + Leading(steps[1..])
    else 0
  }

  /** The steps of a path are the only proper steps that are written as the path. */
  lemma {:induction false} PathStepsAreExact(path: string, steps: seq<Step>)
    ensures steps == PathSteps(path) <==> Proper(steps) && Written(steps) == "." + path
  {
    var segments := Text.Split(path, '.');
    forall i | 0 <= i < |segments|
      ensures '.' !in segments[i]
    {
      Text.SplitPieces(path, '.', i);
    }
    var keys := ParseKeys(segments);
    RenderParseKeys(segments);
    Text.JoinSplit(path, '.');
    PlainStepsProper(keys);
    WrittenKeys(keys);
    if Proper(steps) && Written(steps) == "." + path {
      var own := ProperKeys(steps);
      WrittenKeys(own);
      var rendered := Text.Join(RenderKeys(own), ".");
      assert ("." + path)[1..] == path && ("." + rendered)[1..] == rendered;
      PathRoundTrip(own);
    }
  }

  lemma StepsOfAppend(keys: seq<Key>, key: Key)
    ensures StepsOf(keys + [key]) == StepsOf(keys) + KeySteps(key)
  {
    if keys == [] {
      assert StepsOf([key]) == KeySteps(key) + [];
    } else {
      assert (keys + [key])[1..] == keys[1..] + [key];
      StepsOfAppend(keys[1..], key);
    }
  }

  lemma {:induction false} ParseKeysAppend(segments: seq<string>, segment: string)
    ensures ParseKeys(segments + [segment]) == ParseKeys(segments) + [ParseKey(segment)]
  {
    if segments != [] {
      assert (segments + [segment])[1..] == segments[1..] + [segment];
      ParseKeysAppend(segments[1..], segment);
    }
  }

  /** The parser's loops: peel trailing pairs off each segment, then emit its steps. */
  method ParsePath(path: string) returns (steps: seq<Step>)
    ensures steps == PathSteps(path)
    ensures Proper(steps) && Written(steps) == "." + path
  {
    steps := [];
    var segments := Text.Split(path, '.');
    for i := 0 to |segments|
      invariant steps == StepsOf(ParseKeys(segments[..i]))
    {
      var name, arrays := segments[i], 0;
      while EndsWithPair(name)
        invariant ParseKey(segments[i]) == Key(ParseKey(name).name, ParseKey(name).arrays + arrays)
        decreases |name|
      {
        name := name[..|name| - 2];
        arrays := arrays + 1;
      }
      ghost var before := steps;
      steps := steps + [Member(name)];
      for k := 0 to arrays
        invariant steps == before + [Member(name)] + Elements(k)
      {
        steps := steps + [Element];
      }
      assert segments[..i + 1] == segments[..i] + [segments[i]];
      ParseKeysAppend(segments[..i], segments[i]);
      StepsOfAppend(ParseKeys(segments[..i]), Key(name, arrays));
    }
    assert segments[..|segments|] == segments;
    PathStepsAreExact(path, steps);
  }
}
