/** Whitespace, trimming and words, as the scripts' regular expressions see them. */
module Whitespace {
  import opened Text

  /** `\s` */
  predicate IsSpace(c: char) {
    || '\t' <= c <= '\r' || c == ' ' || c == '\U{A0}' || c == '\U{1680}' || '\U{2000}' <= c <= '\U{200A}'
    || c == '\U{2028}' || c == '\U{2029}' || c == '\U{202F}' || c == '\U{205F}' || c == '\U{3000}' || c == '\U{FEFF}'
  }

  function TrimStart(s: string): (t: string)
    ensures |t| <= |s|
  {
    if s != [] && IsSpace(s[0]) then TrimStart(s[1..]) else s
  }

  function TrimEnd(s: string): string {
    if s != [] && IsSpace(s[|s| - 1]) then TrimEnd(s[..|s| - 1]) else s
  }

  function Trim(s: string): string {
    TrimEnd(TrimStart(s))
  }

  predicate AllSpace(s: string) {
    forall k :: 0 <= k < |s| ==> IsSpace(s[k])
  }

  // ---- What trimming takes away ----

  /** No whitespace in front. */
  predicate StartsFull(s: string) { s == "" || !IsSpace(s[0]) }

  predicate EndsFull(s: string) { s == "" || !IsSpace(s[|s| - 1]) }

  /** Trimming the start takes away whitespace, and all of it. */
  lemma {:induction false} TrimStartCuts(s: string) returns (lead: string)
    ensures AllSpace(lead) && s == lead + TrimStart(s) && StartsFull(TrimStart(s))
  {
    hide IsSpace;
    lead := "";
    if s != "" && IsSpace(s[0]) {
      var rest := TrimStartCuts(s[1..]);
      lead := [s[0]] + rest;
    }
  }

  lemma {:induction false} TrimStartIs(lead: string, t: string)
    requires AllSpace(lead) && StartsFull(t)
    ensures TrimStart(lead + t) == t
  {
    hide IsSpace;
    if lead == "" {
      assert lead + t == t;
    } else {
      assert (lead + t)[1..] == lead[1..] + t;
      TrimStartIs(lead[1..], t);
    }
  }

  /** Trimming the end takes away whitespace, and all of it. */
  lemma {:induction false} TrimEndCuts(s: string) returns (tail: string)
    ensures AllSpace(tail) && s == TrimEnd(s) + tail && EndsFull(TrimEnd(s))
  {
    hide IsSpace;
    tail := "";
    if s != "" && IsSpace(s[|s| - 1]) {
      var rest := TrimEndCuts(s[..|s| - 1]);
      tail := rest + [s[|s| - 1]];
      assert s == s[..|s| - 1] + [s[|s| - 1]];
    }
  }

  lemma {:induction false} TrimEndIs(t: string, tail: string)
    requires AllSpace(tail) && EndsFull(t)
    ensures TrimEnd(t + tail) == t
  {
    hide IsSpace;
    if tail == "" {
      assert t + tail == t;
    } else {
      assert (t + tail)[..|t + tail| - 1] == t + tail[..|tail| - 1];
      TrimEndIs(t, tail[..|tail| - 1]);
    }
  }

  // ---- What trimming leaves ----

  predicate Shows(s: string) {
    exists i :: 0 <= i < |s| && !IsSpace(s[i])
  }

  lemma {:induction false} TrimStartShows(s: string)
    ensures Shows(TrimStart(s)) <==> Shows(s)
    ensures TrimStart(s) != "" <==> Shows(s)
  {
    hide IsSpace;
    if s != "" && IsSpace(s[0]) {
      TrimStartShows(s[1..]);
      if i :| 0 <= i < |s| && !IsSpace(s[i]) {
        assert !IsSpace(s[1..][i - 1]);
      }
      if i :| 0 <= i < |s| - 1 && !IsSpace(s[1..][i]) {
        assert !IsSpace(s[i + 1]);
      }
    }
  }

  lemma {:induction false} TrimEndShows(s: string)
    ensures TrimEnd(s) != "" <==> Shows(s)
  {
    hide IsSpace;
    if s != "" && IsSpace(s[|s| - 1]) {
      var rest := s[..|s| - 1];
      TrimEndShows(rest);
      if i :| 0 <= i < |s| && !IsSpace(s[i]) {
        assert !IsSpace(rest[i]);
      }
    }
  }

  /** Trimming leaves something exactly when there is something but whitespace. */
  lemma {:induction false} TrimShows(s: string)
    ensures Trim(s) != "" <==> Shows(s)
  {
    TrimStartShows(s);
    TrimEndShows(TrimStart(s));
  }

  lemma {:induction false} ShowsConcat(a: string, b: string)
    ensures Shows(a + b) <==> Shows(a) || Shows(b)
  {
    hide IsSpace;
    var s := a + b;
    if i :| 0 <= i < |a| && !IsSpace(a[i]) {
      assert !IsSpace(s[i]);
    }
    if i :| 0 <= i < |b| && !IsSpace(b[i]) {
      assert !IsSpace(s[|a| + i]);
    }
    if i :| 0 <= i < |s| && !IsSpace(s[i]) {
      assert if i < |a| then !IsSpace(a[i]) else !IsSpace(b[i - |a|]);
    }
  }

  // ---- Words ----

  /** The first whitespace character. */
  function WordEnd(s: string): (n: nat)
    ensures n <= |s|
  {
    if s == "" || IsSpace(s[0]) then 0 else 1 + WordEnd(s[1..])
  }

  lemma {:induction false} WordEndAt(word: string, rest: string)
    requires forall k :: 0 <= k < |word| ==> !IsSpace(word[k])
    requires rest == "" || IsSpace(rest[0])
    ensures WordEnd(word + rest) == |word|
  {
    if word == "" {
      assert word + rest == rest;
    } else {
      assert (word + rest)[1..] == word[1..] + rest;
      WordEndAt(word[1..], rest);
    }
  }

  /** The maximal runs without whitespace, in order. */
  function Words(s: string): seq<string>
    decreases |s|
  {
    if s == "" then []
    else if IsSpace(s[0]) then Words(s[1..])
    else [s[..WordEnd(s)]] + Words(s[WordEnd(s)..])
  }

  lemma {:induction false} WordEndSpec(s: string)
    ensures var n := WordEnd(s); (n < |s| ==> IsSpace(s[n])) && forall k :: 0 <= k < n ==> !IsSpace(s[k])
  {
    hide IsSpace;
    if s != "" && !IsSpace(s[0]) {
      WordEndSpec(s[1..]);
      assert forall k :: 0 < k < WordEnd(s) ==> s[k] == s[1..][k - 1];
    }
  }

  /** A word is split off where whitespace or the end follows it. */
  lemma {:induction false} WordsFirst(word: string, rest: string)
    requires word != "" && (forall k :: 0 <= k < |word| ==> !IsSpace(word[k])) && (rest == "" || IsSpace(rest[0]))
    ensures Words(word + rest) == [word] + Words(rest)
  {
    hide IsSpace;
    WordEndAt(word, rest);
    assert (word + rest)[..|word|] == word && (word + rest)[|word|..] == rest;
  }

  /** Words of a text followed by whitespace or nothing. */
  lemma {:induction false} WordsConcat(a: string, b: string)
    requires b == "" || IsSpace(b[0])
    ensures Words(a + b) == Words(a) + Words(b)
    decreases |a|
  {
    hide IsSpace;
    if a == "" {
      assert a + b == b;
    } else if IsSpace(a[0]) {
      assert (a + b)[1..] == a[1..] + b;
      WordsConcat(a[1..], b);
    } else {
      var n := WordEnd(a);
      WordEndSpec(a);
      var word, rest := a[..n], a[n..];
      WordsConcat(rest, b);
      assert a + b == word + (rest + b) && a == word + rest;
      WordsFirst(word, rest + b);
      assert [word] + (Words(rest) + Words(b)) == ([word] + Words(rest)) + Words(b);
    }
  }

  lemma {:induction false} WordsSkip(gap: string, rest: string)
    requires AllSpace(gap)
    ensures Words(gap + rest) == Words(rest)
  {
    hide IsSpace;
    if gap == "" {
      assert gap + rest == rest;
    } else {
      assert (gap + rest)[1..] == gap[1..] + rest;
      WordsSkip(gap[1..], rest);
    }
  }

  /** Whitespace between two texts keeps their words apart. */
  lemma {:induction false} WordsAround(a: string, gap: string, b: string)
    requires gap != "" && AllSpace(gap)
    ensures Words(a + gap + b) == Words(a) + Words(b)
  {
    hide IsSpace;
    assert a + gap + b == a + (gap + b);
    WordsConcat(a, gap + b);
    WordsSkip(gap, b);
  }

  lemma {:induction false} WordsTrimStart(s: string)
    ensures Words(TrimStart(s)) == Words(s)
  {
    hide IsSpace;
    if s != "" && IsSpace(s[0]) {
      WordsTrimStart(s[1..]);
    }
  }

  lemma {:induction false} WordsTrimEnd(s: string)
    ensures Words(TrimEnd(s)) == Words(s)
  {
    hide IsSpace;
    if s != "" && IsSpace(s[|s| - 1]) {
      var rest, last := s[..|s| - 1], [s[|s| - 1]];
      WordsTrimEnd(rest);
      assert s == rest + last;
      WordsConcat(rest, last);
      assert last[1..] == "";
    }
  }

  lemma {:induction false} WordsTrim(s: string)
    ensures Words(Trim(s)) == Words(s)
  {
    WordsTrimStart(s);
    WordsTrimEnd(TrimStart(s));
  }

  /** `s.replace(/\s+/g, ' ')` */
  function Collapse(s: string): string
    decreases |s|
  {
    if s == "" then ""
    else if IsSpace(s[0]) then " " + Collapse(TrimStart(s))
    else s[..WordEnd(s)] + Collapse(s[WordEnd(s)..])
  }

  lemma {:induction false} CollapseStart(s: string)
    requires s != "" && IsSpace(s[0])
    ensures Collapse(s) != "" && IsSpace(Collapse(s)[0])
  {
  }

  /** Collapsing whitespace keeps the words. */
  lemma {:induction false} WordsCollapse(s: string)
    ensures Words(Collapse(s)) == Words(s)
    decreases |s|
  {
    if s != "" {
      if IsSpace(s[0]) {
        hide IsSpace;
        WordsCollapse(TrimStart(s));
        WordsTrimStart(s);
        SpaceIsSpace();
        WordsSkip(" ", Collapse(TrimStart(s)));
      } else {
        var n := WordEnd(s);
        WordEndSpec(s);
        var word, rest := s[..n], s[n..];
        WordsCollapse(rest);
        if rest != "" {
          CollapseStart(rest);
        }
        hide IsSpace;
        WordsFirst(word, Collapse(rest));
      }
    }
  }

  lemma {:induction false} SpaceIsSpace()
    ensures AllSpace(" ") && AllSpace("\n") && AllSpace("\n\n")
  {
  }

  function WordsOf(lines: seq<string>): seq<string> {
    if lines == [] then [] else Words(lines[0]) + WordsOf(lines[1..])
  }

  lemma {:induction false} WordsOfConcat(a: seq<string>, b: seq<string>)
    ensures WordsOf(a + b) == WordsOf(a) + WordsOf(b)
  {
    if a == [] {
      assert a + b == b;
    } else {
      assert (a + b)[1..] == a[1..] + b;
      WordsOfConcat(a[1..], b);
    }
  }

  /** Joining with whitespace keeps the words, in order. */
  lemma {:induction false} WordsJoin(parts: seq<string>, gap: string)
    requires gap != "" && AllSpace(gap)
    ensures Words(Join(parts, gap)) == WordsOf(parts)
  {
    hide IsSpace, AllSpace, Words;
    if parts == [] {
      NoWords();
    } else if |parts| == 1 {
      assert WordsOf(parts[1..]) == [];
    } else {
      WordsJoin(parts[1..], gap);
      WordsAround(parts[0], gap, Join(parts[1..], gap));
    }
  }

  lemma {:induction false} NoWords()
    ensures Words("") == []
  {
  }

  lemma {:induction false} BlankHasNoWords(s: string)
    requires Trim(s) == ""
    ensures Words(s) == []
  {
    WordsTrim(s);
  }
}
