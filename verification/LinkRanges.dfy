/** Which range the scan of a link, image or definition finds in any text, and which error it reports. */
module LinkRanges {
  import opened Outcomes
  import opened Text
  import opened Whitespace
  import opened LinkDestinations
  import opened LinkGrammar

  // ---- Destinations in angle brackets ----

  /** How many backslashes stand directly before position `k`. */
  function Backslashes(s: string, k: nat): nat
    requires k <= |s|
  {
    if k > 0 && s[k - 1] == '\\' then 1 + Backslashes(s, k - 1) else 0
  }

  /** An odd number of backslashes hides the character behind them. */
  predicate Hidden(s: string, k: nat)
    requires k <= |s|
  {
    Backslashes(s, k) % 2 == 1
  }

  /** The first closing angle bracket behind `start` that is not hidden. */
  predicate ClosesAngle(s: string, start: nat, k: nat) {
    && start < k < |s| && s[k] == '>' && !Hidden(s, k)
    && forall j :: start < j < k && s[j] == '>' ==> Hidden(s, j)
  }

  lemma {:induction false} AngleScan(s: string, i: nat)
    requires i <= |s| ==> !Hidden(s, i)
    ensures match Plus(i, AngleEnd(Skip(s, i)))
            case None => forall j :: i <= j < |s| && s[j] == '>' ==> Hidden(s, j)
            case Some(k) => i <= k < |s| && s[k] == '>' && !Hidden(s, k)
                            && forall j :: i <= j < k && s[j] == '>' ==> Hidden(s, j)
    decreases |s| - i
  {
    if i < |s| {
      hide AngleEnd;
      AngleStep(s, i);
      if s[i] == '\\' {
        assert Hidden(s, i + 1);
        assert i + 2 <= |s| ==> !Hidden(s, i + 2);
        AngleScan(s, i + 2);
      } else if s[i] != '>' {
        AngleScan(s, i + 1);
      }
    }
  }

  lemma {:induction false} AngleIsExact(s: string, start: nat, k: nat)
    requires start < |s| && s[start] == '<'
    ensures Plus(start + 1, AngleEnd(s[start + 1..])) == Some(k) <==> ClosesAngle(s, start, k)
  {
    AngleScan(s, start + 1);
    hide AngleEnd, Hidden;
    assert Skip(s, start + 1) == s[start + 1..];
  }

  // ---- Bare destinations ----

  /** Parentheses are balanced up to `j`, with no whitespace outside of them, and whitespace or one too many follows. */
  ghost predicate StopsBare(s: string, start: nat, j: nat) {
    && start <= j < |s| && (s[j] == ')' || IsSpace(s[j]))
    && exists t :: WellFormed(t, '(', ')') && NoTopSpace(t) && s[start..j] == Print(t, '(', ')')
  }

  /** The first place to stop, or the end of the text when there is none. */
  ghost predicate EndsBare(s: string, start: nat, k: nat) {
    if k < |s| then StopsBare(s, start, k) else k == |s| && forall j :: start <= j < |s| ==> !StopsBare(s, start, j)
  }

  /** A balanced text and what follows it. */
  predicate ReadsBare(s: string, t: Balanced, outer: string) {
    WellFormed(t, '(', ')') && s == Print(t, '(', ')') + outer
  }

  /** Where the scan of `s` at this depth is when it has read `s` up to `outer`. */
  predicate ScannedTo(s: string, depth: nat, outer: string) {
    |s| >= |outer| && BareEnd(s, depth) == |s| - |outer| + BareEnd(outer, depth)
  }

  /** The text a stopping scan reads before it closes a parenthesis or stops. */
  lemma {:induction false} BareOf(s: string, depth: nat) returns (t: Balanced, outer: string)
    requires BareEnd(s, depth) < |s|
    ensures ReadsBare(s, t, outer) && ScannedTo(s, depth, outer) && outer != ""
    ensures if depth == 0 then NoTopSpace(t) && BareEnd(outer, 0) == 0 else outer[0] == ')'
    decreases |s|
  {
    hide IsSpace, ReadsBare, ScannedTo;
    if s[0] == '\\' {
      t, outer := BareOf(s[2..], depth);
      EscapeRead(s, depth, t, outer);
      t := Escaped(s[1], t);
    } else if s[0] == '(' {
      var inner, rest := BareOf(s[1..], depth + 1);
      GroupScanned(s, depth, inner, rest);
      t, outer := BareOf(rest[1..], depth);
      GroupRead(s, depth, inner, rest, t, outer);
      t := Group(inner, t);
    } else if s[0] == ')' || (depth == 0 && IsSpace(s[0])) {
      t, outer := Nil, s;
      NothingRead(s, depth);
    } else {
      t, outer := BareOf(s[1..], depth);
      OneRead(s, depth, t, outer);
      t := Plain(s[0], t);
    }
  }

  lemma {:induction false} NothingRead(s: string, depth: nat)
    ensures ReadsBare(s, Nil, s) && ScannedTo(s, depth, s)
  {
    assert "" + s == s;
  }

  lemma {:induction false} OneRead(s: string, depth: nat, t: Balanced, outer: string)
    requires s != "" && s[0] !in "\\()" && (depth == 0 ==> !IsSpace(s[0]))
    requires ReadsBare(s[1..], t, outer) && ScannedTo(s[1..], depth, outer)
    ensures ReadsBare(s, Plain(s[0], t), outer) && ScannedTo(s, depth, outer)
  {
    assert s == [s[0]] + s[1..];
  }

  lemma {:induction false} EscapeRead(s: string, depth: nat, t: Balanced, outer: string)
    requires |s| > 1 && s[0] == '\\' && ReadsBare(s[2..], t, outer) && ScannedTo(s[2..], depth, outer)
    ensures ReadsBare(s, Escaped(s[1], t), outer) && ScannedTo(s, depth, outer)
  {
    hide IsSpace;
    assert s == [s[0], s[1]] + s[2..];
  }

  lemma {:induction false} GroupScanned(s: string, depth: nat, inner: Balanced, rest: string)
    requires s != "" && s[0] == '(' && rest != "" && rest[0] == ')'
    requires ReadsBare(s[1..], inner, rest) && ScannedTo(s[1..], depth + 1, rest) && BareEnd(s, depth) < |s|
    ensures ScannedTo(s, depth, rest[1..]) && |rest| < |s| && BareEnd(rest[1..], depth) < |rest[1..]|
  {
    hide IsSpace, Print;
  }

  lemma {:induction false} GroupRead(s: string, depth: nat, inner: Balanced, rest: string, t: Balanced, outer: string)
    requires s != "" && s[0] == '(' && rest != "" && rest[0] == ')' && ReadsBare(s[1..], inner, rest)
    requires ScannedTo(s, depth, rest[1..]) && ReadsBare(rest[1..], t, outer) && ScannedTo(rest[1..], depth, outer)
    ensures ReadsBare(s, Group(inner, t), outer) && ScannedTo(s, depth, outer)
  {
    hide BareEnd;
    var i, p := Print(inner, '(', ')'), Print(t, '(', ')');
    assert s == ['('] + s[1..] && rest == [')'] + rest[1..];
    hide Print, WellFormed;
    assert s == (['('] + i + [')'] + p) + outer;
  }

  lemma {:induction false} StopsThere(s: string)
    requires s != "" && BareEnd(s, 0) == 0
    ensures s[0] == ')' || IsSpace(s[0])
  {
    hide IsSpace;
  }

  /** The scan of a bare destination stops at a place to stop, and only there. */
  lemma {:induction false} StopIsExact(s: string, start: nat, j: nat)
    requires start <= j < |s|
    ensures start + BareEnd(s[start..], 0) == j <==> StopsBare(s, start, j)
  {
    hide IsSpace, NoTopSpace, WellFormed, Print, BareEnd;
    var rest, text := s[start..], s[start..j];
    assert rest == text + s[j..];
    if start + BareEnd(rest, 0) == j {
      var t, outer := BareOf(rest, 0);
      StopsThere(outer);
      assert outer == s[j..] && Print(t, '(', ')') == text by { CutAlike(Print(t, '(', ')'), outer, text, s[j..]); }
    }
    if StopsBare(s, start, j) {
      var t :| WellFormed(t, '(', ')') && NoTopSpace(t) && text == Print(t, '(', ')');
      BareAfter(t, s[j..], 0);
      Stopped(s[j..]);
    }
  }

  lemma {:induction false} CutAlike(a: string, x: string, b: string, y: string)
    requires a + x == b + y && |x| == |y|
    ensures a == b && x == y
  {
    assert (a + x)[..|a|] == a && (b + y)[..|b|] == b;
    assert (a + x)[|a|..] == x && (b + y)[|b|..] == y;
  }

  lemma {:induction false} Stopped(s: string)
    requires s != "" && (s[0] == ')' || IsSpace(s[0]))
    ensures BareEnd(s, 0) == 0
  {
  }

  lemma {:induction false} BareIsExact(s: string, start: nat, k: nat)
    requires start <= |s|
    ensures start + BareEnd(s[start..], 0) == k <==> start <= k && EndsBare(s, start, k)
  {
    hide BareEnd, StopsBare;
    var end := start + BareEnd(s[start..], 0);
    forall j: nat | start <= j < |s|
      ensures end == j <==> StopsBare(s, start, j)
    {
      StopIsExact(s, start, j);
    }
    if end < |s| {
      assert StopsBare(s, start, end);
    }
  }

  // ---- Where the destination starts ----

  /** The separator of a node whose label ends at `end`. */
  predicate Separates(s: string, kind: NodeKind, end: nat, at: nat) {
    && end < at < |s|
    && if kind == Definition then s[at] == ':' && ':' !in s[end + 1..at] else at == end + 1 && s[at] == '('
  }

  /** The separator of the label that starts at the first bracket. */
  ghost predicate Leads(s: string, kind: NodeKind, at: nat) {
    exists end: nat :: ClosesLabel(s, end) && Separates(s, kind, end, at)
  }

  /** A destination starts here: behind the separator and all whitespace that follows. */
  ghost predicate Starts(s: string, kind: NodeKind, start: nat) {
    exists at: nat :: Leads(s, kind, at) && at < start <= |s| && AllSpace(s[at + 1..start]) && StartsFull(s[start..])
  }

  /** The separator as the scan finds it. */
  function Lead(s: string, kind: NodeKind): Option<nat> {
    match LabelEndOf(s)
    case None => None
    case Some(end) =>
      if kind == Definition then
        var colon := end + 1 + IndexOf(s[end + 1..], ':');
        if colon < |s| then Some(colon) else None
      else if end + 1 < |s| && s[end + 1] == '(' then Some(end + 1) else None
  }

  lemma {:induction false} FirstIsIndex(s: string, from: nat, at: nat, c: char)
    requires from <= at < |s|
    ensures from + IndexOf(s[from..], c) == at <==> s[at] == c && c !in s[from..at]
  {
    IndexOfSpec(s[from..], c);
    var i := IndexOf(s[from..], c);
    if from + i < at {
      assert s[from..at][i] == c;
    } else if from + i == at {
      assert s[from..at] == s[from..][..i];
    } else {
      assert s[at] == s[from..][..i][at - from];
    }
  }

  lemma {:induction false} SeparatorIsExact(s: string, kind: NodeKind, end: nat, at: nat)
    requires LabelEndOf(s) == Some(end)
    ensures Lead(s, kind) == Some(at) <==> Separates(s, kind, end, at)
  {
    hide LabelEndOf, IndexOf;
    if kind == Definition && end < at < |s| {
      FirstIsIndex(s, end + 1, at, ':');
    }
  }

  lemma {:induction false} LeadIsExact(s: string, kind: NodeKind, at: nat)
    ensures Lead(s, kind) == Some(at) <==> Leads(s, kind, at)
  {
    forall end: nat
      ensures LabelEndOf(s) == Some(end) <==> ClosesLabel(s, end)
    {
      LabelEndIsExact(s, end);
    }
    hide ClosesLabel, LabelEndOf, Separates;
    match LabelEndOf(s)
    case None =>
    case Some(end) =>
      SeparatorIsExact(s, kind, end, at);
  }

  lemma {:induction false} AllSpaceStep(s: string)
    requires s != ""
    ensures AllSpace(s) <==> IsSpace(s[0]) && AllSpace(s[1..])
  {
    hide IsSpace;
    assert forall k :: 0 < k < |s| ==> s[k] == s[1..][k - 1];
  }

  lemma {:induction false} SpacesAreExact(s: string, n: nat)
    requires n <= |s|
    ensures Spaces(s) == n <==> AllSpace(s[..n]) && StartsFull(s[n..])
  {
    hide IsSpace;
    if n > 0 {
      var front, rest := s[..n], s[1..];
      SpacesAreExact(rest, n - 1);
      assert rest[n - 1..] == s[n..];
      assert front[1..] == rest[..n - 1];
      AllSpaceStep(front);
    }
  }

  lemma {:induction false} StartIsExact(s: string, kind: NodeKind, at: nat, start: nat)
    requires Lead(s, kind) == Some(at) && at < |s| && start <= |s|
    ensures start == at + 1 + Spaces(s[at + 1..]) <==> Starts(s, kind, start)
  {
    forall a: nat
      ensures Lead(s, kind) == Some(a) <==> Leads(s, kind, a)
    {
      LeadIsExact(s, kind, a);
    }
    hide Lead, Leads, Spaces, AllSpace, StartsFull;
    if at < start {
      SpacesAreExact(s[at + 1..], start - at - 1);
      assert s[at + 1..][..start - at - 1] == s[at + 1..start];
      assert s[at + 1..][start - at - 1..] == s[start..];
    }
  }

  // ---- Ranges and errors ----

  /** The range of the destination that starts here. */
  ghost predicate IsRange(s: string, start: nat, range: Range) {
    if start < |s| && s[start] == '<' then range.start == start + 1 && ClosesAngle(s, start, range.end)
    else range.start == start <= range.end && EndsBare(s, start, range.end)
  }

  ghost predicate Finds(s: string, kind: NodeKind, range: Range) {
    exists start: nat :: Starts(s, kind, start) && IsRange(s, start, range)
  }

  /** No separator follows the label. */
  predicate Unseparated(s: string, kind: NodeKind, end: nat)
    requires end < |s|
  {
    if kind == Definition then ':' !in s[end + 1..] else end + 1 == |s| || s[end + 1] != '('
  }

  ghost predicate SeparatorIsMissing(s: string, kind: NodeKind) {
    exists end: nat :: ClosesLabel(s, end) && Unseparated(s, kind, end)
  }

  /** What each error means. */
  ghost predicate Fails(s: string, kind: NodeKind, error: RangeError) {
    match error
    case NoLabelEnd => forall end :: !ClosesLabel(s, end)
    case NoSeparator => kind == Definition && SeparatorIsMissing(s, kind)
    case NoInlineDestination => kind != Definition && SeparatorIsMissing(s, kind)
    case NoAngleEnd =>
      exists start: nat :: Starts(s, kind, start) && start < |s| && s[start] == '<' && NoClose(s, start)
  }

  ghost predicate NoClose(s: string, start: nat) {
    forall k :: !ClosesAngle(s, start, k)
  }

  lemma {:induction false} FromIsExact(s: string, start: nat, range: Range)
    requires start <= |s|
    ensures RangeFrom(s, start) == Ok(range) <==> IsRange(s, start, range)
    ensures RangeFrom(s, start).Err? ==> RangeFrom(s, start).error == NoAngleEnd
    ensures RangeFrom(s, start).Err? <==> start < |s| && s[start] == '<' && NoClose(s, start)
  {
    hide ClosesAngle, EndsBare, AngleEnd, BareEnd;
    if start < |s| && s[start] == '<' {
      forall k: nat
        ensures Plus(start + 1, AngleEnd(s[start + 1..])) == Some(k) <==> ClosesAngle(s, start, k)
      {
        AngleIsExact(s, start, k);
      }
    } else {
      BareIsExact(s, start, range.end);
    }
  }

  /** The scan looks behind the separator, or reports that there is none. */
  lemma {:induction false} LooksBehind(s: string, kind: NodeKind)
    ensures match Lead(s, kind)
            case Some(at) => at < |s| && RangeOf(s, kind) == RangeFrom(s, at + 1 + Spaces(s[at + 1..]))
            case None =>
              RangeOf(s, kind) == Err(if LabelEndOf(s).None? then NoLabelEnd
                                      else if kind == Definition then NoSeparator else NoInlineDestination)
  {
    hide LabelEndOf, IndexOf, Spaces, RangeFrom;
  }

  /** For any text whatever, the range that is found is that of the destination behind the label. */
  lemma {:induction false} RangeIsExact(s: string, kind: NodeKind, range: Range)
    ensures RangeOf(s, kind) == Ok(range) <==> Finds(s, kind, range)
  {
    LooksBehind(s, kind);
    hide RangeOf, Lead, Leads, LabelEndOf, Spaces, RangeFrom, IsRange, NoClose, AllSpace, StartsFull;
    match Lead(s, kind)
    case None =>
      NoStart(s, kind);
    case Some(at) =>
      OneStart(s, kind, at);
      FromIsExact(s, at + 1 + Spaces(s[at + 1..]), range);
  }

  lemma {:induction false} NoStart(s: string, kind: NodeKind)
    requires Lead(s, kind).None?
    ensures forall start :: !Starts(s, kind, start)
  {
    hide Lead, Leads, AllSpace, StartsFull;
    forall at: nat
      ensures !Leads(s, kind, at)
    {
      LeadIsExact(s, kind, at);
    }
  }

  lemma {:induction false} OneStart(s: string, kind: NodeKind, at: nat)
    requires Lead(s, kind) == Some(at) && at < |s|
    ensures forall start :: Starts(s, kind, start) <==> start == at + 1 + Spaces(s[at + 1..])
  {
    hide Lead, Leads, AllSpace, StartsFull, Spaces;
    forall start: nat
      ensures Starts(s, kind, start) <==> start == at + 1 + Spaces(s[at + 1..])
    {
      if start <= |s| {
        StartIsExact(s, kind, at, start);
      }
    }
  }

  lemma {:induction false} SeparatorMissing(s: string, kind: NodeKind)
    ensures match LabelEndOf(s)
            case None => Lead(s, kind).None?
            case Some(end) => end < |s| && (Lead(s, kind).None? <==> Unseparated(s, kind, end))
  {
    hide LabelEndOf, IndexOf;
    if LabelEndOf(s).Some? {
      var rest := s[LabelEndOf(s).value + 1..];
      IndexOfSpec(rest, ':');
      assert rest[..|rest|] == rest;
    }
  }

  lemma {:induction false} OneLabelEnd(s: string)
    ensures forall end: nat :: ClosesLabel(s, end) <==> LabelEndOf(s) == Some(end)
  {
    hide ClosesLabel, LabelEndOf;
    forall end: nat
      ensures LabelEndOf(s) == Some(end) <==> ClosesLabel(s, end)
    {
      LabelEndIsExact(s, end);
    }
  }

  /** Without a separator the error says what is missing. */
  lemma {:induction false} MissingIsExact(s: string, kind: NodeKind, error: RangeError)
    requires Lead(s, kind).None?
    ensures RangeOf(s, kind) == Err(error) <==> Fails(s, kind, error)
  {
    LooksBehind(s, kind);
    OneLabelEnd(s);
    SeparatorMissing(s, kind);
    NoStart(s, kind);
    hide RangeOf, Lead, LabelEndOf, Spaces, RangeFrom, Starts, NoClose, ClosesLabel;
  }

  /** With a separator nothing is missing before the destination. */
  lemma {:induction false} NothingMissing(s: string, kind: NodeKind, error: RangeError)
    requires Lead(s, kind).Some? && error != NoAngleEnd
    ensures !Fails(s, kind, error)
  {
    OneLabelEnd(s);
    SeparatorMissing(s, kind);
    hide Lead, LabelEndOf, ClosesLabel, Unseparated;
  }

  lemma {:induction false} UnclosedAt(s: string, kind: NodeKind, start: nat)
    requires forall other :: Starts(s, kind, other) <==> other == start
    ensures Fails(s, kind, NoAngleEnd) <==> start < |s| && s[start] == '<' && NoClose(s, start)
  {
    hide Starts, NoClose;
  }

  /** Then only the closing angle bracket can be. */
  lemma {:induction false} UnclosedIsExact(s: string, kind: NodeKind, error: RangeError)
    requires Lead(s, kind).Some?
    ensures RangeOf(s, kind) == Err(error) <==> Fails(s, kind, error)
  {
    hide RangeOf, Lead, LabelEndOf, Spaces, RangeFrom, Starts, NoClose, Fails, IsRange;
    var at := Lead(s, kind).value;
    LooksBehind(s, kind);
    var start := at + 1 + Spaces(s[at + 1..]);
    FromIsExact(s, start, Range(0, 0));
    if error == NoAngleEnd {
      OneStart(s, kind, at);
      UnclosedAt(s, kind, start);
    } else {
      NothingMissing(s, kind, error);
    }
  }

  /** Each error is reported exactly when it means that. */
  lemma {:induction false} ErrorsAreExact(s: string, kind: NodeKind, error: RangeError)
    ensures RangeOf(s, kind) == Err(error) <==> Fails(s, kind, error)
  {
    hide *;
    if Lead(s, kind).None? {
      MissingIsExact(s, kind, error);
    } else {
      UnclosedIsExact(s, kind, error);
    }
  }
}
