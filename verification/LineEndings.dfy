/** Line endings: what the scripts' `\r\n` normalisation does to each line, and what it leaves behind. */
module LineEndings {
  import opened Text

  /** `s.replaceAll('\r\n', '\n')` */
  function Normalise(s: string): string {
    if s == "" then ""
    else if |s| > 1 && s[0] == '\r' && s[1] == '\n' then "\n" + Normalise(s[2..])
    else [s[0]] + Normalise(s[1..])
  }

  /** Lines printed with one newline after each. */
  function Document(lines: seq<string>): string {
    Join(lines, "\n") + "\n"
  }

  predicate EndsInReturn(line: string) {
    line != "" && line[|line| - 1] == '\r'
  }

  function StripReturn(line: string): string {
    if EndsInReturn(line) then line[..|line| - 1] else line
  }

  function StripReturns(lines: seq<string>): (stripped: seq<string>)
    ensures |stripped| == |lines|
  {
    if lines == [] then [] else [StripReturn(lines[0])] + StripReturns(lines[1..])
  }

  lemma {:induction false} NormaliseOneLine(a: string)
    requires '\n' !in a
    ensures Normalise(a) == a
  {
    if a != "" {
      NormaliseOneLine(a[1..]);
    }
  }

  lemma {:induction false} NormaliseLine(a: string, b: string)
    requires '\n' !in a
    ensures Normalise(a + "\n" + b) == StripReturn(a) + "\n" + Normalise(b)
  {
    var s := a + "\n" + b;
    if a == "" {
      assert s[1..] == b;
    } else if |a| == 1 {
      assert s[1..] == "\n" + b && s[2..] == b;
      assert ("\n" + b)[1..] == b;
    } else {
      assert s[1] == a[1] && s[1..] == a[1..] + "\n" + b;
      NormaliseLine(a[1..], b);
      assert [a[0]] + (StripReturn(a[1..]) + "\n" + Normalise(b)) ==
             ([a[0]] + StripReturn(a[1..])) + "\n" + Normalise(b);
      assert StripReturn(a) == [a[0]] + StripReturn(a[1..]);
    }
  }

  /** The lines of a printed document: each loses one carriage return from its end. */
  lemma {:induction false} LinesOfDocument(lines: seq<string>)
    requires lines != [] && forall k :: 0 <= k < |lines| ==> '\n' !in lines[k]
    ensures Split(Normalise(Document(lines)), '\n') == StripReturns(lines) + [""]
  {
    var a, rest := lines[0], lines[1..];
    var b := if rest == [] then "" else Document(rest);
    assert Document(lines) == a + "\n" + b;
    NormaliseLine(a, b);
    SplitFirst(StripReturn(a), '\n', Normalise(b));
    if rest == [] {
      assert StripReturns(rest) == [];
    } else {
      LinesOfDocument(rest);
      assert [StripReturn(a)] + (StripReturns(rest) + [""]) == ([StripReturn(a)] + StripReturns(rest)) + [""];
    }
  }

  /** A carriage return that ends the text, or stands before a carriage return and a newline. */
  predicate StrayAt(s: string, j: int) {
    0 <= j < |s| && s[j] == '\r' && (j + 1 == |s| || (j + 2 < |s| && s[j + 1] == '\r' && s[j + 2] == '\n'))
  }

  predicate Stray(s: string) {
    exists j {:trigger StrayAt(s, j)} :: 0 <= j < |s| && StrayAt(s, j)
  }

  predicate SomeReturn(lines: seq<string>) {
    exists k :: 0 <= k < |lines| && EndsInReturn(lines[k])
  }

  lemma {:induction false} StrayStep(a: string, b: string)
    requires '\n' !in a
    ensures Stray(a + "\n" + b) <==> EndsInReturn(StripReturn(a)) || Stray(b)
  {
    var s := a + "\n" + b;
    var n := |a| + 1;
    assert forall j :: 0 <= j < |b| ==> s[n + j] == b[j];
    assert forall j :: 0 <= j < |a| ==> s[j] == a[j] && a[j] != '\n';
    if EndsInReturn(StripReturn(a)) {
      assert StrayAt(s, |a| - 2);
    }
    if j :| 0 <= j < |b| && StrayAt(b, j) {
      assert StrayAt(s, n + j);
    }
    if j :| 0 <= j < |s| && StrayAt(s, j) {
      if j >= n {
        assert StrayAt(b, j - n);
      } else {
        assert s[j + 2] == '\n' && s[|a|] == '\n' && j != |a|;
        assert j + 2 == |a|;
        assert StripReturn(a) == a[..|a| - 1];
      }
    }
  }

  /** The stray carriage returns of a text are those left at the end of a line. */
  lemma {:induction false} StrayReturns(s: string)
    ensures Stray(s) <==> SomeReturn(Split(Normalise(s), '\n'))
    decreases |s|
  {
    IndexOfSpec(s, '\n');
    var i := IndexOf(s, '\n');
    var a := s[..i];
    if i == |s| {
      assert a == s;
      NormaliseOneLine(s);
      SplitFirst(s, '\n', "");
      assert Split(s, '\n')[0] == s;
      assert EndsInReturn(s) ==> StrayAt(s, |s| - 1);
    } else {
      var b := s[i + 1..];
      assert s == a + "\n" + b;
      StrayStep(a, b);
      StrayReturns(b);
      NormaliseLine(a, b);
      SplitFirst(StripReturn(a), '\n', Normalise(b));
      SomeReturnStep(StripReturn(a), Split(Normalise(b), '\n'));
    }
  }

  lemma {:induction false} SomeReturnStep(line: string, rest: seq<string>)
    ensures SomeReturn([line] + rest) <==> EndsInReturn(line) || SomeReturn(rest)
  {
    var lines := [line] + rest;
    assert lines[0] == line;
    if k :| 0 <= k < |rest| && EndsInReturn(rest[k]) {
      assert EndsInReturn(lines[k + 1]);
    }
    if k :| 0 < k < |lines| && EndsInReturn(lines[k]) {
      assert EndsInReturn(rest[k - 1]);
    }
  }

  /** Printing distinguishes lists of lines. */
  lemma {:induction false} DocumentIsInjective(a: seq<string>, b: seq<string>)
    requires a != [] && b != [] && Document(a) == Document(b)
    requires forall k :: 0 <= k < |a| ==> '\n' !in a[k]
    requires forall k :: 0 <= k < |b| ==> '\n' !in b[k]
    ensures a == b
  {
    SplitJoin(a, '\n');
    SplitJoin(b, '\n');
    assert Document(a)[..|Document(a)| - 1] == Join(a, "\n");
    assert Document(b)[..|Document(b)| - 1] == Join(b, "\n");
  }

  lemma {:induction false} StripReturnsAt(lines: seq<string>, k: nat)
    requires k < |lines|
    ensures StripReturns(lines)[k] == StripReturn(lines[k])
  {
    if k > 0 {
      StripReturnsAt(lines[1..], k - 1);
    }
  }
}
