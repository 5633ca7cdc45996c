/**
 * Text primitives of the response protocol: multiline search for a whole line, escaping of delimiter
 * lines, and texts assembled from pieces.
 */
module ResponseText {
  import opened Outcomes
  import opened Text

  // ---- Whole-line search ----

  /** The line terminators of a multiline regular expression. */
  predicate IsTerminator(c: char) {
    c == '\n' || c == '\r' || c == '\U{2028}' || c == '\U{2029}'
  }

  predicate OneLine(s: string) {
    forall i :: 0 <= i < |s| ==> !IsTerminator(s[i])
  }

  /** The end of the first line. */
  function LineEnd(s: string): (e: nat)
    ensures e <= |s|
  {
    if s == [] || IsTerminator(s[0]) then 0 else 1 + LineEnd(s[1..])
  }

  lemma {:induction false} LineEndSpec(s: string)
    ensures LineEnd(s) < |s| ==> IsTerminator(s[LineEnd(s)])
    ensures forall i :: 0 <= i < LineEnd(s) ==> !IsTerminator(s[i])
  {
    if s != [] && !IsTerminator(s[0]) {
      LineEndSpec(s[1..]);
      forall i | 0 <= i < LineEnd(s)
        ensures !IsTerminator(s[i])
      {
        if i > 0 {
          assert s[i] == s[1..][i - 1];
        }
      }
    }
  }

  /** `s.search(/^pat$/m)`: where the first line equal to `pat` starts. */
  function Search(s: string, pat: string): (found: Option<nat>)
    ensures found.Some? ==> found.value + |pat| <= |s|
    decreases |s|
  {
    var e := LineEnd(s);
    if s[..e] == pat then Some(0)
    else if e == |s| then None
    else Shift(e + 1, Search(s[e + 1..], pat))
  }

  function Shift(n: nat, found: Option<nat>): Option<nat> {
    match found
    case None => None
    case Some(k) => Some(n + k)
  }

  /** What the regular expression means: `pat` at `i`, between line boundaries. */
  predicate MatchAt(s: string, i: int, pat: string) {
    && 0 <= i <= i + |pat| <= |s|
    && (forall k :: 0 <= k < |pat| ==> s[i + k] == pat[k])
    && (i > 0 ==> IsTerminator(s[i - 1]))
    && (i + |pat| < |s| ==> IsTerminator(s[i + |pat|]))
  }

  lemma {:induction false} LineEndOfLine(s: string, e: nat)
    requires e <= |s| && (forall i :: 0 <= i < e ==> !IsTerminator(s[i])) && (e < |s| ==> IsTerminator(s[e]))
    ensures LineEnd(s) == e
  {
    LineEndSpec(s);
  }

  /** A match starts on the first line exactly when the first line is the pattern. */
  lemma {:induction false} MatchOnFirstLine(s: string, i: int, pat: string)
    requires OneLine(pat) && MatchAt(s, i, pat) && i <= LineEnd(s)
    ensures i == 0 && s[..LineEnd(s)] == pat
  {
    LineEndSpec(s);
    if i == 0 {
      forall k | 0 <= k < |pat|
        ensures !IsTerminator(s[k])
      {
        assert s[0 + k] == pat[k];
      }
      LineEndOfLine(s, |pat|);
      assert forall k :: 0 <= k < |pat| ==> s[0 + k] == pat[k];
    }
  }

  /** Matches survive cutting off complete lines before them, and come back when the lines do. */
  lemma {:induction false} MatchShift(s: string, cut: nat, i: nat, pat: string)
    requires cut <= |s| && (cut > 0 ==> IsTerminator(s[cut - 1]))
    ensures MatchAt(s[cut..], i, pat) <==> MatchAt(s, cut + i, pat)
  {
    var rest := s[cut..];
    if cut + i + |pat| <= |s| {
      assert forall k {:trigger pat[k]} :: 0 <= k < |pat| ==> s[cut + i + k] == rest[i + k];
      assert i > 0 ==> rest[i - 1] == s[cut + i - 1];
    }
  }

  lemma {:induction false} SearchUnfold(s: string, pat: string, e: nat, rest: string)
    requires e == LineEnd(s) < |s| && rest == s[e + 1..]
    ensures Search(s, pat) == if s[..e] == pat then Some(0) else Shift(e + 1, Search(rest, pat))
  {
  }

  lemma {:induction false} FirstLineMatches(s: string, pat: string)
    requires s[..LineEnd(s)] == pat
    ensures MatchAt(s, 0, pat)
  {
    LineEndSpec(s);
    assert forall k {:trigger pat[k]} :: 0 <= k < |pat| ==> s[0 + k] == s[..LineEnd(s)][k];
  }

  lemma {:induction false} SearchMatches(s: string, pat: string)
    ensures Search(s, pat).Some? ==> MatchAt(s, Search(s, pat).value, pat)
    decreases |s|
  {
    var e := LineEnd(s);
    if s[..e] == pat {
      FirstLineMatches(s, pat);
    } else if e < |s| {
      LineEndSpec(s);
      var rest := s[e + 1..];
      SearchUnfold(s, pat, e, rest);
      SearchMatches(rest, pat);
      if Search(rest, pat).Some? {
        MatchShift(s, e + 1, Search(rest, pat).value, pat);
      }
    }
  }

  lemma {:induction false} SearchNotLater(s: string, pat: string, i: int)
    requires OneLine(pat) && MatchAt(s, i, pat)
    ensures Search(s, pat).Some? && Search(s, pat).value <= i
    decreases |s|
  {
    var e := LineEnd(s);
    LineEndSpec(s);
    if i <= e {
      MatchOnFirstLine(s, i, pat);
    } else {
      var rest := s[e + 1..];
      SearchUnfold(s, pat, e, rest);
      MatchShift(s, e + 1, i - e - 1, pat);
      SearchNotLater(rest, pat, i - e - 1);
    }
  }

  /** The search finds the first match, and finds nothing only when there is none. */
  lemma {:induction false} SearchIsFirstMatch(s: string, pat: string)
    requires OneLine(pat)
    ensures Search(s, pat).Some? ==> MatchAt(s, Search(s, pat).value, pat)
    ensures forall i :: MatchAt(s, i, pat) ==> Search(s, pat).Some? && Search(s, pat).value <= i
  {
    SearchMatches(s, pat);
    forall i | MatchAt(s, i, pat)
      ensures Search(s, pat).Some? && Search(s, pat).value <= i
    {
      SearchNotLater(s, pat, i);
    }
  }

  lemma {:induction false} DropConcat<T>(a: seq<T>, b: seq<T>, c: seq<T>, k: nat)
    requires k <= |a|
    ensures (a + b + c)[k..] == a[k..] + b + c
  {
  }

  lemma {:induction false} SearchConcat(a: string, b: string, pat: string)
    ensures Search(a + "\n" + b, pat) ==
      if Search(a, pat).Some? then Search(a, pat) else Shift(|a| + 1, Search(b, pat))
    decreases |a|
  {
    var s := a + "\n" + b;
    var e := LineEnd(a);
    LineEndSpec(a);
    assert forall i :: 0 <= i < |a| ==> s[i] == a[i];
    LineEndOfLine(s, e);
    assert s[..e] == a[..e];
    var rest := s[e + 1..];
    if e < |a| {
      DropConcat(a, "\n", b, e + 1);
      SearchConcat(a[e + 1..], b, pat);
    } else {
      assert rest == b;
    }
    SearchUnfold(s, pat, e, rest);
  }

  // ---- Texts assembled from pieces ----

  /** Where piece `k` starts in the pieces joined by newlines. */
  function Offset(pieces: seq<string>, k: nat): nat
    requires k <= |pieces|
  {
    if k == 0 then 0 else |pieces[0]| + 1 + Offset(pieces[1..], k - 1)
  }

  lemma {:induction false} OffsetStep(pieces: seq<string>, k: nat)
    requires k < |pieces|
    ensures Offset(pieces, k + 1) == Offset(pieces, k) + |pieces[k]| + 1
  {
    if k > 0 {
      OffsetStep(pieces[1..], k - 1);
    }
  }

  lemma {:induction false} JoinStep(pieces: seq<string>)
    requires |pieces| > 1
    ensures Join(pieces, "\n") == pieces[0] + "\n" + Join(pieces[1..], "\n")
  {
  }

  /** Each piece stands at its offset, followed by a newline or the end. */
  lemma {:induction false} PieceAt(pieces: seq<string>, k: nat)
    requires k < |pieces|
    ensures var text, at := Join(pieces, "\n"), Offset(pieces, k);
            && at + |pieces[k]| <= |text| && text[at..at + |pieces[k]|] == pieces[k]
            && (k + 1 < |pieces| ==> at + |pieces[k]| < |text| && text[at + |pieces[k]|] == '\n')
            && (k + 1 == |pieces| ==> at + |pieces[k]| == |text|)
  {
    if |pieces| > 1 {
      JoinStep(pieces);
    }
    if k > 0 {
      PieceAt(pieces[1..], k - 1);
      var rest, at := Join(pieces[1..], "\n"), Offset(pieces[1..], k - 1);
      assert Join(pieces, "\n")[|pieces[0]| + 1..] == rest;
      assert rest[at..at + |pieces[k]|] == Join(pieces, "\n")[|pieces[0]| + 1 + at..|pieces[0]| + 1 + at + |pieces[k]|];
    }
  }

  lemma {:induction false} SearchJoin(pieces: seq<string>, pat: string)
    requires pieces != []
    ensures Search(Join(pieces, "\n"), pat) ==
      if Search(pieces[0], pat).Some? || |pieces| == 1 then Search(pieces[0], pat)
      else Shift(|pieces[0]| + 1, Search(Join(pieces[1..], "\n"), pat))
  {
    if |pieces| > 1 {
      JoinStep(pieces);
      SearchConcat(pieces[0], Join(pieces[1..], "\n"), pat);
    }
  }

  /** None of the first `k` pieces has a line equal to `pat`. */
  predicate NoneBefore(pieces: seq<string>, pat: string, k: nat)
    requires k <= |pieces|
  {
    k == 0 || (Search(pieces[0], pat).None? && NoneBefore(pieces[1..], pat, k - 1))
  }

  /** The search runs through the pieces in order. */
  lemma {:induction false} SearchPieces(pieces: seq<string>, pat: string, k: nat)
    requires k < |pieces| && Search(pieces[k], pat).Some? && NoneBefore(pieces, pat, k)
    ensures Search(Join(pieces, "\n"), pat) == Shift(Offset(pieces, k), Search(pieces[k], pat))
  {
    hide Search, Join;
    SearchJoin(pieces, pat);
    if k > 0 {
      SearchPieces(pieces[1..], pat, k - 1);
    }
  }

  function Count(lines: seq<string>, line: string): nat {
    if lines == [] then 0 else (if lines[0] == line then 1 else 0) + Count(lines[1..], line)
  }

  lemma {:induction false} CountConcat(a: seq<string>, b: seq<string>, line: string)
    ensures Count(a + b, line) == Count(a, line) + Count(b, line)
  {
    if a == [] {
      assert a + b == b;
    } else {
      assert (a + b)[1..] == a[1..] + b;
      CountConcat(a[1..], b, line);
    }
  }

  /** How often a line occurs in each piece, added up. */
  function CountPieces(pieces: seq<string>, line: string): nat {
    if pieces == [] then 0 else Count(Split(pieces[0], '\n'), line) + CountPieces(pieces[1..], line)
  }

  lemma {:induction false} CountJoin(pieces: seq<string>, line: string)
    requires pieces != []
    ensures Count(Split(Join(pieces, "\n"), '\n'), line) == CountPieces(pieces, line)
  {
    if |pieces| > 1 {
      CountJoin(pieces[1..], line);
      SplitConcat(pieces[0], '\n', Join(pieces[1..], "\n"));
      CountConcat(Split(pieces[0], '\n'), Split(Join(pieces[1..], "\n"), '\n'), line);
    }
  }

  /** A line counted by splitting on newlines is found by the multiline search. */
  lemma {:induction false} CountedIsFound(s: string, pat: string)
    requires OneLine(pat) && Count(Split(s, '\n'), pat) > 0
    ensures Search(s, pat).Some?
    decreases |s|
  {
    IndexOfSpec(s, '\n');
    var i := IndexOf(s, '\n');
    if i < |s| {
      var a, b := s[..i], s[i + 1..];
      assert s == a + "\n" + b;
      SplitFirst(a, '\n', b);
      SearchConcat(a, b, pat);
      if a == pat {
        LineEndOfLine(a, |a|);
      } else {
        assert ([a] + Split(b, '\n'))[1..] == Split(b, '\n');
        CountedIsFound(b, pat);
      }
    } else {
      assert Split(s, '\n') == [s];
      LineEndOfLine(s, |s|);
    }
  }
}
