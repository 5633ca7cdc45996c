/** Disjoint edits of a sequence: in-place splices from the last to the first are one simultaneous substitution. */
module Splices {
  /** Replace the half-open range `start..end` by `value`. */
  datatype Edit<T> = Edit(start: nat, end: nat, value: seq<T>)

  /** The edits are in order, do not overlap, and lie between `at` and `length`. */
  predicate Fits<T>(edits: seq<Edit<T>>, at: nat, length: nat)
    ensures Fits(edits, at, length) ==> at <= length
  {
    if edits == [] then at <= length
    else at <= edits[0].start <= edits[0].end && Fits(edits[1..], edits[0].end, length)
  }

  /** The simultaneous substitution, from position `at` on. */
  function Weave<T>(s: seq<T>, edits: seq<Edit<T>>, at: nat): seq<T>
    requires Fits(edits, at, |s|)
  {
    if edits == [] then s[at..]
    else s[at..edits[0].start] + edits[0].value + Weave(s, edits[1..], edits[0].end)
  }

  /** One splice in place. */
  function Splice<T>(s: seq<T>, e: Edit<T>): seq<T>
    requires e.start <= e.end <= |s|
  {
    s[..e.start] + e.value + s[e.end..]
  }

  lemma {:induction false} Regroup<T>(a: seq<T>, b: seq<T>, c: seq<T>, d: seq<T>)
    ensures a + b + c + d == a + (b + c + d)
  {
  }

  lemma {:induction false} WeaveFrom<T>(s: seq<T>, edits: seq<Edit<T>>, at: nat, k: nat)
    requires at <= k && Fits(edits, k, |s|)
    ensures Fits(edits, at, |s|) && Weave(s, edits, at) == s[at..k] + Weave(s, edits, k)
  {
    if edits == [] {
      assert s[at..] == s[at..k] + s[k..];
    } else {
      var e := edits[0];
      assert s[at..e.start] == s[at..k] + s[k..e.start];
      Regroup(s[at..k], s[k..e.start], e.value, Weave(s, edits[1..], e.end));
    }
  }

  /** Splicing an earlier range after the later ones have been substituted substitutes them all. */
  lemma {:induction false} SpliceEarlier<T>(s: seq<T>, edits: seq<Edit<T>>)
    requires edits != [] && Fits(edits, 0, |s|)
    ensures Fits(edits[1..], 0, |s|) && edits[0].end <= |Weave(s, edits[1..], 0)|
    ensures Splice(Weave(s, edits[1..], 0), edits[0]) == Weave(s, edits, 0)
  {
    var e, rest := edits[0], edits[1..];
    WeaveFrom(s, rest, 0, e.end);
    var w := Weave(s, rest, 0);
    assert w[..e.start] == s[0..e.start] && w[e.end..] == Weave(s, rest, e.end);
  }

  // ---- Where everything ends up ----

  /** How far the first `i` edits move what follows them. */
  function Shift<T>(edits: seq<Edit<T>>, i: nat): int
    requires i <= |edits|
  {
    if i == 0 then 0 else |edits[0].value| - (edits[0].end - edits[0].start) + Shift(edits[1..], i - 1)
  }

  lemma {:induction false} WeaveLength<T>(s: seq<T>, edits: seq<Edit<T>>, at: nat)
    requires Fits(edits, at, |s|)
    ensures |Weave(s, edits, at)| == |s| - at + Shift(edits, |edits|)
  {
    if edits != [] {
      WeaveLength(s, edits[1..], edits[0].end);
    }
  }

  /** Where edit `i` ends, or `at` before the first. */
  function EndBefore<T>(edits: seq<Edit<T>>, at: nat, i: nat): nat
    requires i <= |edits|
  {
    if i == 0 then at else edits[i - 1].end
  }

  lemma {:induction false} ThirdPart<T>(a: seq<T>, b: seq<T>, c: seq<T>, j: nat)
    requires j < |c|
    ensures (a + b + c)[|a| + |b| + j] == c[j] && (a + b + c)[|a| + |b|..] == c
  {
  }

  lemma {:induction false} SecondPart<T>(a: seq<T>, b: seq<T>, c: seq<T>, j: nat)
    requires j < |b|
    ensures (a + b + c)[|a| + j] == b[j]
  {
  }

  lemma {:induction false} FirstPart<T>(a: seq<T>, b: seq<T>, c: seq<T>, j: nat)
    requires j < |a|
    ensures (a + b + c)[j] == a[j]
  {
  }

  lemma {:induction false} WeaveStep<T>(s: seq<T>, edits: seq<Edit<T>>, at: nat)
    requires edits != [] && Fits(edits, at, |s|)
    ensures var e := edits[0];
            && at <= e.start <= e.end <= |s| && Fits(edits[1..], e.end, |s|)
            && Weave(s, edits, at) == s[at..e.start] + e.value + Weave(s, edits[1..], e.end)
  {
  }

  /** Everything between two edits is kept, moved by the edits before it. */
  lemma {:induction false} WeaveKeeps<T>(s: seq<T>, edits: seq<Edit<T>>, at: nat, i: nat, k: nat)
    requires Fits(edits, at, |s|) && i <= |edits|
    requires EndBefore(edits, at, i) <= k < if i < |edits| then edits[i].start else |s|
    ensures k < |s| && 0 <= k - at + Shift(edits, i) < |Weave(s, edits, at)|
    ensures Weave(s, edits, at)[k - at + Shift(edits, i)] == s[k]
  {
    if edits != [] {
      var e, rest := edits[0], edits[1..];
      WeaveStep(s, edits, at);
      if i > 0 {
        assert EndBefore(edits, at, i) == EndBefore(rest, e.end, i - 1);
        WeaveKeeps(s, rest, e.end, i - 1, k);
        hide Weave, Fits;
        ThirdPart(s[at..e.start], e.value, Weave(s, rest, e.end), k - e.end + Shift(rest, i - 1));
      } else {
        hide Weave, Fits;
        FirstPart(s[at..e.start], e.value, Weave(s, rest, e.end), k - at);
      }
    }
  }

  /** Every edit's value stands where the edits before it move its range. */
  lemma {:induction false} WeavePlaces<T>(s: seq<T>, edits: seq<Edit<T>>, at: nat, i: nat, k: nat)
    requires Fits(edits, at, |s|) && i < |edits| && k < |edits[i].value|
    ensures 0 <= edits[i].start + k - at + Shift(edits, i) < |Weave(s, edits, at)|
    ensures Weave(s, edits, at)[edits[i].start + k - at + Shift(edits, i)] == edits[i].value[k]
  {
    var e, rest := edits[0], edits[1..];
    WeaveStep(s, edits, at);
    if i == 0 {
      hide Weave, Fits;
      SecondPart(s[at..e.start], e.value, Weave(s, rest, e.end), k);
    } else {
      assert edits[i] == rest[i - 1];
      WeavePlaces(s, rest, e.end, i - 1, k);
      hide Weave, Fits;
      ThirdPart(s[at..e.start], e.value, Weave(s, rest, e.end), rest[i - 1].start + k - e.end + Shift(rest, i - 1));
    }
  }

  // ---- Undoing ----

  /** The edits that put back what `edits` replaced, in a sequence where they have moved to `base`. */
  function Undo<T>(s: seq<T>, edits: seq<Edit<T>>, at: nat, base: nat): seq<Edit<T>>
    requires Fits(edits, at, |s|)
  {
    if edits == [] then []
    else
      var e := edits[0];
      var start := base + (e.start - at);
      [Edit(start, start + |e.value|, s[e.start..e.end])] + Undo(s, edits[1..], e.end, start + |e.value|)
  }

  /** Substituting the replaced ranges back restores the sequence. */
  lemma {:induction false} UndoRestores<T>(s: seq<T>, edits: seq<Edit<T>>, at: nat, w: seq<T>, base: nat)
    requires Fits(edits, at, |s|) && base <= |w| && w[base..] == Weave(s, edits, at)
    ensures Fits(Undo(s, edits, at, base), base, |w|)
    ensures Weave(w, Undo(s, edits, at, base), base) == s[at..]
  {
    if edits != [] {
      var e, rest := edits[0], edits[1..];
      var start := base + (e.start - at);
      var end := start + |e.value|;
      WeaveStep(s, edits, at);
      WovenHead(w, base, s[at..e.start], e.value, Weave(s, rest, e.end));
      UndoRestores(s, rest, e.end, w, end);
      UndoStep(s, edits, at, w, base);
    }
  }

  /** A woven sequence, cut where its first edit stands. */
  lemma {:induction false} WovenHead<T>(w: seq<T>, base: nat, gap: seq<T>, value: seq<T>, tail: seq<T>)
    requires base <= |w| && w[base..] == gap + value + tail
    ensures var start, end := base + |gap|, base + |gap| + |value|;
            end <= |w| && w[base..start] == gap && w[start..end] == value && w[end..] == tail
  {
    var rest := w[base..];
    assert rest[..|gap|] == gap && rest[|gap|..|gap| + |value|] == value && rest[|gap| + |value|..] == tail;
  }

  lemma {:induction false} UndoStep<T>(s: seq<T>, edits: seq<Edit<T>>, at: nat, w: seq<T>, base: nat)
    requires edits != [] && Fits(edits, at, |s|) && base <= |w|
    requires var e := edits[0];
             var start, end := base + (e.start - at), base + (e.start - at) + |e.value|;
             && start <= end <= |w| && w[base..start] == s[at..e.start]
             && Fits(Undo(s, edits[1..], e.end, end), end, |w|)
             && Weave(w, Undo(s, edits[1..], e.end, end), end) == s[e.end..]
    ensures Fits(Undo(s, edits, at, base), base, |w|)
    ensures Weave(w, Undo(s, edits, at, base), base) == s[at..]
  {
    var e := edits[0];
    var start, end := base + (e.start - at), base + (e.start - at) + |e.value|;
    var undo := Undo(s, edits, at, base);
    assert undo[1..] == Undo(s, edits[1..], e.end, end);
    assert undo[0] == Edit(start, end, s[e.start..e.end]);
    assert s[at..] == s[at..e.start] + s[e.start..e.end] + s[e.end..];
  }

  /** The ranges to put back hold the values substituted. */
  lemma {:induction false} UndoRange<T>(s: seq<T>, edits: seq<Edit<T>>, at: nat, w: seq<T>, base: nat, i: nat)
    requires Fits(edits, at, |s|) && base <= |w| && w[base..] == Weave(s, edits, at) && i < |edits|
    ensures |Undo(s, edits, at, base)| == |edits|
    ensures var u := Undo(s, edits, at, base)[i];
            && u.start <= u.end <= |w| && w[u.start..u.end] == edits[i].value
            && edits[i].start <= edits[i].end <= |s| && u.value == s[edits[i].start..edits[i].end]
  {
    var e, rest := edits[0], edits[1..];
    var start := base + (e.start - at);
    var end := start + |e.value|;
    assert w[base..] == s[at..e.start] + e.value + Weave(s, rest, e.end);
    assert w[start..end] == w[base..][start - base..end - base];
    assert w[end..] == w[base..][end - base..];
    UndoLength(s, edits, at, base);
    if i > 0 {
      UndoRange(s, rest, e.end, w, end, i - 1);
    }
  }

  lemma {:induction false} UndoLength<T>(s: seq<T>, edits: seq<Edit<T>>, at: nat, base: nat)
    requires Fits(edits, at, |s|)
    ensures |Undo(s, edits, at, base)| == |edits|
  {
    if edits != [] {
      UndoLength(s, edits[1..], edits[0].end, base + (edits[0].start - at) + |edits[0].value|);
    }
  }
}
