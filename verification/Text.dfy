/** Splitting text on a separator character and joining it back, as the scripts do line by line. */
module Text {
  /** Concatenate `parts` with `sep` between neighbours. */
  function Join(parts: seq<string>, sep: string): string {
    if parts == [] then ""
    else if |parts| == 1 then parts[0]
    else parts[0] + sep + Join(parts[1..], sep)
  }

  /** The position of the first `c`, or the length when there is none. */
  function IndexOf(s: string, c: char): (i: nat)
    ensures i <= |s|
  {
    if s == [] || s[0] == c then 0 else 1 + IndexOf(s[1..], c)
  }

  lemma {:induction false} IndexOfSpec(s: string, c: char)
    ensures var i := IndexOf(s, c); (i < |s| ==> s[i] == c) && c !in s[..i]
  {
    if s != [] && s[0] != c {
      IndexOfSpec(s[1..], c);
      assert s[..IndexOf(s, c)] == [s[0]] + s[1..][..IndexOf(s[1..], c)];
    }
  }

  /** The pieces of `s` between occurrences of `c`; always at least one piece. */
  function Split(s: string, c: char): (parts: seq<string>)
    ensures |parts| >= 1
    decreases |s|
  {
    var i := IndexOf(s, c);
    if i == |s| then [s] else [s[..i]] + Split(s[i + 1..], c)
  }

  /** No piece contains the separator. */
  lemma {:induction false} SplitPieces(s: string, c: char, k: nat)
    requires k < |Split(s, c)|
    ensures c !in Split(s, c)[k]
    decreases |s|
  {
    IndexOfSpec(s, c);
    var i := IndexOf(s, c);
    if i == |s| {
      assert s[..i] == s;
    } else if k > 0 {
      SplitPieces(s[i + 1..], c, k - 1);
    }
  }

  lemma {:induction false} IndexOfAppend(a: string, c: char, b: string)
    requires c !in a
    ensures IndexOf(a + [c] + b, c) == |a| && IndexOf(a, c) == |a|
  {
    if a != [] {
      assert a[0] in a;
      assert (a + [c] + b)[1..] == a[1..] + [c] + b;
      IndexOfAppend(a[1..], c, b);
    }
  }

  /** A first piece splits off at its separator. */
  lemma SplitFirst(a: string, c: char, b: string)
    requires c !in a
    ensures Split(a, c) == [a]
    ensures Split(a + [c] + b, c) == [a] + Split(b, c)
  {
    IndexOfAppend(a, c, b);
    assert (a + [c] + b)[|a| + 1..] == b;
    assert (a + [c] + b)[..|a|] == a;
  }

  lemma Associate<T>(x: seq<T>, y: seq<T>, z: seq<T>)
    ensures x + y + z == x + (y + z)
  {
  }

  /** Splitting distributes over a separator anywhere in the text. */
  lemma {:induction false} SplitConcat(a: string, c: char, b: string)
    ensures Split(a + [c] + b, c) == Split(a, c) + Split(b, c)
    decreases |a|
  {
    IndexOfSpec(a, c);
    var i := IndexOf(a, c);
    if i == |a| {
      assert a[..i] == a;
      SplitFirst(a, c, b);
    } else {
      var rest := a[i + 1..];
      SplitConcat(rest, c, b);
      SplitFirst(a[..i], c, rest + [c] + b);
      assert a == a[..i] + [c] + rest;
      Associate(a[..i] + [c], rest, [c]);
      Associate(a[..i] + [c], rest + [c], b);
      assert [a[..i]] + (Split(rest, c) + Split(b, c)) == ([a[..i]] + Split(rest, c)) + Split(b, c);
    }
  }

  /** Joining the pieces of a split gives the text back. */
  lemma {:induction false} JoinSplit(s: string, c: char)
    ensures Join(Split(s, c), [c]) == s
    decreases |s|
  {
    IndexOfSpec(s, c);
    var i := IndexOf(s, c);
    if i < |s| {
      var rest := Split(s[i + 1..], c);
      JoinSplit(s[i + 1..], c);
      assert ([s[..i]] + rest)[1..] == rest;
      assert s == s[..i] + [c] + s[i + 1..];
    }
  }

  /** Splitting a join gives the pieces back when none contains the separator. */
  lemma {:induction false} SplitJoin(parts: seq<string>, c: char)
    requires parts != [] && forall i :: 0 <= i < |parts| ==> c !in parts[i]
    ensures Split(Join(parts, [c]), c) == parts
  {
    SplitFirst(parts[0], c, "");
    if |parts| > 1 {
      SplitJoin(parts[1..], c);
      SplitFirst(parts[0], c, Join(parts[1..], [c]));
      assert parts == [parts[0]] + parts[1..];
    }
  }

  lemma {:induction false} JoinConcat(a: seq<string>, b: seq<string>, sep: string)
    requires a != [] && b != []
    ensures Join(a + b, sep) == Join(a, sep) + sep + Join(b, sep)
  {
    assert (a + b)[1..] == a[1..] + b;
    if |a| > 1 {
      JoinConcat(a[1..], b, sep);
      assert Join(a + b, sep) == a[0] + sep + (Join(a[1..], sep) + sep + Join(b, sep));
      assert Join(a, sep) == a[0] + sep + Join(a[1..], sep);
    } else {
      assert a + b == [a[0]] + b;
    }
  }

  predicate EndsWith(s: string, suffix: string) {
    |suffix| <= |s| && s[|s| - |suffix|..] == suffix
  }

  /** `s.slice(a, b)` for non-negative bounds. */
  function Slice(s: string, a: nat, b: nat): string {
    if a <= b <= |s| then s[a..b] else if a <= |s| < b then s[a..] else ""
  }
}
