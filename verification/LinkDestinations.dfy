/** Locating the destination inside the raw text of a Markdown link, image or definition. */
module LinkDestinations {
  import opened Outcomes
  import opened Text
  import opened Whitespace

  datatype NodeKind = Link | Image | Definition

  datatype RangeError = NoLabelEnd | NoSeparator | NoInlineDestination | NoAngleEnd

  datatype Range = Range(start: nat, end: nat)

  function Plus(n: nat, found: Option<nat>): Option<nat> {
    match found
    case None => None
    case Some(k) => Some(n + k)
  }

  function Skip(s: string, n: nat): string {
    if n <= |s| then s[n..] else ""
  }

  // ---- The scans, over the rest of the text ----

  /** Where the bracket that closes `depth` open ones is; a backslash hides the character after it. */
  function Close(s: string, depth: nat): (k: Option<nat>)
    requires depth > 0
    ensures k.Some? ==> k.value < |s|
    decreases |s|
  {
    if s == "" then None
    else if s[0] == '\\' then Plus(2, Close(Skip(s, 2), depth))
    else if s[0] == '[' then Plus(1, Close(s[1..], depth + 1))
    else if s[0] == ']' then (if depth == 1 then Some(0) else Plus(1, Close(s[1..], depth - 1)))
    else Plus(1, Close(s[1..], depth))
  }

  function LabelEndOf(s: string): (k: Option<nat>)
    ensures k.Some? ==> k.value < |s|
  {
    var first := IndexOf(s, '[');
    if first == |s| then None else Plus(first + 1, Close(s[first + 1..], 1))
  }

  function Spaces(s: string): (n: nat)
    ensures n <= |s|
  {
    if s != "" && IsSpace(s[0]) then 1 + Spaces(s[1..]) else 0
  }

  /** The first `>` that is not escaped. */
  function AngleEnd(s: string): (k: Option<nat>)
    ensures k.Some? ==> k.value < |s|
    decreases |s|
  {
    if s == "" then None
    else if s[0] == '\\' then Plus(2, AngleEnd(Skip(s, 2)))
    else if s[0] == '>' then Some(0)
    else Plus(1, AngleEnd(s[1..]))
  }

  /** Where a bare destination ends: at whitespace or a closing parenthesis outside all parentheses. */
  function BareEnd(s: string, depth: nat): (k: nat)
    ensures k <= |s|
    decreases |s|
  {
    if s == "" then 0
    else if s[0] == '\\' then (if |s| == 1 then 1 else 2 + BareEnd(s[2..], depth))
    else if s[0] == '(' then 1 + BareEnd(s[1..], depth + 1)
    else if s[0] == ')' then (if depth == 0 then 0 else 1 + BareEnd(s[1..], depth - 1))
    else if IsSpace(s[0]) && depth == 0 then 0
    else 1 + BareEnd(s[1..], depth)
  }

  /** The destination starting at `start`, which is after the whitespace. */
  function RangeFrom(raw: string, start: nat): Result<Range, RangeError>
    requires start <= |raw|
  {
    if start < |raw| && raw[start] == '<' then
      match AngleEnd(raw[start + 1..])
      case None => Err(NoAngleEnd)
      case Some(k) => Ok(Range(start + 1, start + 1 + k))
    else Ok(Range(start, start + BareEnd(raw[start..], 0)))
  }

  function RangeOf(raw: string, kind: NodeKind): Result<Range, RangeError> {
    match LabelEndOf(raw)
    case None => Err(NoLabelEnd)
    case Some(end) =>
      if kind == Definition then
        var colon := end + 1 + IndexOf(raw[end + 1..], ':');
        if colon >= |raw| then Err(NoSeparator) else RangeFrom(raw, colon + 1 + Spaces(raw[colon + 1..]))
      else if end + 1 >= |raw| || raw[end + 1] != '(' then Err(NoInlineDestination)
      else RangeFrom(raw, end + 2 + Spaces(raw[end + 2..]))
  }

  // ---- The loops ----

  method LabelEnd(source: string) returns (end: Option<nat>)
    ensures end == LabelEndOf(source)
  {
    var first := IndexOf(source, '[');
    if first == |source| {
      return None;
    }
    IndexOfSpec(source, '[');
    var depth: nat := 0;
    var index := first;
    while index < |source|
      invariant first <= index && (index == first <==> depth == 0)
      invariant index > first ==> LabelEndOf(source) == Plus(index, Close(Skip(source, index), depth))
      decreases |source| - index
    {
      if depth > 0 {
        CloseStep(source, index, depth);
      }
      var c := source[index];
      if c == '\\' {
        index := index + 1;
      } else if c == '[' {
        depth := depth + 1;
      } else if c == ']' {
        depth := depth - 1;
        if depth == 0 {
          return Some(index);
        }
      }
      index := index + 1;
    }
    return None;
  }

  lemma {:induction false} CloseStep(s: string, index: nat, depth: nat)
    requires index < |s| && depth > 0
    ensures Plus(index, Close(Skip(s, index), depth)) ==
      if s[index] == '\\' then Plus(index + 2, Close(Skip(s, index + 2), depth))
      else if s[index] == '[' then Plus(index + 1, Close(Skip(s, index + 1), depth + 1))
      else if s[index] == ']' then (if depth == 1 then Some(index)
                                    else Plus(index + 1, Close(Skip(s, index + 1), depth - 1)))
      else Plus(index + 1, Close(Skip(s, index + 1), depth))
  {
    var rest := s[index..];
    assert Skip(rest, 2) == Skip(s, index + 2);
    assert rest[1..] == Skip(s, index + 1);
  }

  method SkipWhitespace(source: string, start: nat) returns (index: nat)
    requires start <= |source|
    ensures index == start + Spaces(source[start..])
  {
    index := start;
    while index < |source| && IsSpace(source[index])
      invariant start <= index <= |source|
      invariant start + Spaces(source[start..]) == index + Spaces(source[index..])
      decreases |source| - index
    {
      assert source[index..][1..] == source[index + 1..];
      index := index + 1;
    }
  }

  method AngleRange(rawNode: string, start: nat) returns (range: Result<Range, RangeError>)
    requires start < |rawNode| && rawNode[start] == '<'
    ensures range == RangeFrom(rawNode, start)
  {
    var index := start + 1;
    while index < |rawNode|
      invariant start < index
      invariant Plus(start + 1, AngleEnd(rawNode[start + 1..])) == Plus(index, AngleEnd(Skip(rawNode, index)))
      decreases |rawNode| - index
    {
      AngleStep(rawNode, index);
      if rawNode[index] == '\\' {
        index := index + 1;
      } else if rawNode[index] == '>' {
        return Ok(Range(start + 1, index));
      }
      index := index + 1;
    }
    return Err(NoAngleEnd);
  }

  lemma {:induction false} AngleStep(s: string, index: nat)
    requires index < |s|
    ensures Plus(index, AngleEnd(Skip(s, index))) ==
      if s[index] == '\\' then Plus(index + 2, AngleEnd(Skip(s, index + 2)))
      else if s[index] == '>' then Some(index)
      else Plus(index + 1, AngleEnd(Skip(s, index + 1)))
  {
    var rest := s[index..];
    assert Skip(rest, 2) == Skip(s, index + 2);
    assert rest[1..] == Skip(s, index + 1);
  }

  method BareRange(rawNode: string, start: nat) returns (range: Range)
    requires start <= |rawNode|
    ensures range == Range(start, start + BareEnd(rawNode[start..], 0))
  {
    var depth: nat := 0;
    var index := start;
    while index < |rawNode|
      invariant start <= index
      invariant start + BareEnd(rawNode[start..], 0) ==
        if index <= |rawNode| then index + BareEnd(rawNode[index..], depth) else |rawNode|
      decreases |rawNode| - index
    {
      var c := rawNode[index];
      BareStep(rawNode, index, depth);
      if c == '\\' {
        index := index + 1;
      } else if c == '(' {
        depth := depth + 1;
      } else if c == ')' {
        if depth == 0 {
          return Range(start, index);
        }
        depth := depth - 1;
      } else if IsSpace(c) && depth == 0 {
        return Range(start, index);
      }
      index := index + 1;
    }
    return Range(start, |rawNode|);
  }

  lemma {:induction false} BareStep(s: string, index: nat, depth: nat)
    requires index < |s|
    ensures index + BareEnd(s[index..], depth) ==
      if s[index] == '\\' then (if index + 2 <= |s| then index + 2 + BareEnd(s[index + 2..], depth) else |s|)
      else if s[index] == '(' then index + 1 + BareEnd(s[index + 1..], depth + 1)
      else if s[index] == ')' then (if depth == 0 then index else index + 1 + BareEnd(s[index + 1..], depth - 1))
      else if IsSpace(s[index]) && depth == 0 then index
      else index + 1 + BareEnd(s[index + 1..], depth)
  {
    hide IsSpace;
    var rest := s[index..];
    assert |rest| > 1 ==> rest[2..] == s[index + 2..];
    assert rest[1..] == s[index + 1..];
  }

  method DestinationRange(rawNode: string, kind: NodeKind) returns (range: Result<Range, RangeError>)
    ensures range == RangeOf(rawNode, kind)
  {
    hide Close, BareEnd, AngleEnd, IsSpace, LabelEndOf, Spaces, IndexOf;
    var endOfLabel := LabelEnd(rawNode);
    if endOfLabel.None? {
      return Err(NoLabelEnd);
    }
    var end := endOfLabel.value;
    var start: nat;
    if kind == Definition {
      var colon := end + 1 + IndexOf(rawNode[end + 1..], ':');
      if colon == |rawNode| {
        return Err(NoSeparator);
      }
      start := SkipWhitespace(rawNode, colon + 1);
    } else {
      if end + 1 >= |rawNode| || rawNode[end + 1] != '(' {
        return Err(NoInlineDestination);
      }
      start := SkipWhitespace(rawNode, end + 2);
    }
    if start < |rawNode| && rawNode[start] == '<' {
      range := AngleRange(rawNode, start);
    } else {
      var bare := BareRange(rawNode, start);
      range := Ok(bare);
    }
  }
}
