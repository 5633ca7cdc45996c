/**
 * The three-section translation response: escaping, rendering, and the parser, with the exact class
 * of responses that survive the round trip.
 */
module TranslationResponse {
  import opened Outcomes
  import opened Text
  import opened Whitespace
  import opened ResponseText

  datatype Response = Response(translation: string, review: string, final: string)

  datatype ParseError =
    | MissingSection(index: nat)
    | DuplicateSection(index: nat)
    | OutOfOrder(index: nat)
    | OutsideSections

  function SectionName(i: nat): string
    requires i < 3
  {
    if i == 0 then "translation" else if i == 1 then "review" else "final"
  }

  function OpenTag(i: nat): string
    requires i < 3
  {
    "<" + SectionName(i) + ">"
  }

  function CloseTag(i: nat): string
    requires i < 3
  {
    "</" + SectionName(i) + ">"
  }

  function Body(r: Response, i: nat): string
    requires i < 3
  {
    if i == 0 then r.translation else if i == 1 then r.review else r.final
  }

  predicate IsDelimiter(line: string) {
    exists i :: 0 <= i < 3 && (line == OpenTag(i) || line == CloseTag(i))
  }

  /** `line.replace(/^\\+/, '')`. */
  function StripBackslashes(line: string): string {
    if line != [] && line[0] == '\\' then StripBackslashes(line[1..]) else line
  }

  function EscapeLine(line: string): string {
    if IsDelimiter(StripBackslashes(line)) then "\\" + line else line
  }

  function UnescapeLine(line: string): string {
    if line != [] && line[0] == '\\' && IsDelimiter(StripBackslashes(line[1..])) then line[1..] else line
  }

  function EscapeLines(lines: seq<string>): (escaped: seq<string>)
    ensures |escaped| == |lines|
  {
    if lines == [] then [] else [EscapeLine(lines[0])] + EscapeLines(lines[1..])
  }

  function UnescapeLines(lines: seq<string>): (plain: seq<string>)
    ensures |plain| == |lines|
  {
    if lines == [] then [] else [UnescapeLine(lines[0])] + UnescapeLines(lines[1..])
  }

  function EscapeBody(value: string): string {
    Join(EscapeLines(Split(value, '\n')), "\n")
  }

  function UnescapeBody(value: string): string {
    Join(UnescapeLines(Split(value, '\n')), "\n")
  }

  function RenderSection(r: Response, i: nat): string
    requires i < 3
  {
    OpenTag(i) + "\n" + EscapeBody(Body(r, i)) + "\n" + CloseTag(i)
  }

  /** The exact escaped three-section shape. */
  function Render(r: Response): string {
    Join([RenderSection(r, 0), RenderSection(r, 1), RenderSection(r, 2)], "\n\n")
  }

  predicate OnlyNewlines(s: string) {
    s != [] && forall i :: 0 <= i < |s| ==> s[i] == '\n'
  }

  /** Where one section's tags are, provided each stands on exactly one line. */
  function Locate(body: string, i: nat, open: string, close: string): Result<(nat, nat), ParseError> {
    var lines := Split(body, '\n');
    if Count(lines, open) == 0 || Count(lines, close) == 0 then Err(MissingSection(i))
    else if Count(lines, open) > 1 || Count(lines, close) > 1 then Err(DuplicateSection(i))
    else if Search(body, open).None? || Search(body, close).None? then Err(OutOfOrder(i))
    else Ok((Search(body, open).value, Search(body, close).value))
  }

  /** The first section starts the text; the others follow the previous one after newlines only. */
  predicate GoodSeparator(body: string, i: nat, previousCloseEnd: nat, openStart: nat) {
    var separator := Slice(body, previousCloseEnd, openStart);
    if i == 0 then separator == "" else OnlyNewlines(separator)
  }

  /** One section between given tags: its unescaped body and where its close tag ends. */
  function ParseBetween(body: string, i: nat, open: string, close: string, previousCloseEnd: nat)
    : Result<(string, nat), ParseError>
  {
    match Locate(body, i, open, close)
    case Err(e) => Err(e)
    case Ok((openStart, closeStart)) =>
      if closeStart < openStart || !GoodSeparator(body, i, previousCloseEnd, openStart) then Err(OutOfOrder(i))
      else Ok((UnescapeBody(Content(body, openStart + |open|, closeStart)), closeStart + |close|))
  }

  function ParseSection(body: string, i: nat, previousCloseEnd: nat): Result<(string, nat), ParseError>
    requires i < 3
  {
    ParseBetween(body, i, OpenTag(i), CloseTag(i), previousCloseEnd)
  }

  /** The text between the tags, without the newline after the open tag and the one before the close tag. */
  function Content(body: string, openEnd: nat, closeStart: nat): string
    requires openEnd <= |body| && closeStart <= |body|
  {
    var start := if openEnd < |body| && body[openEnd] == '\n' then openEnd + 1 else openEnd;
    var end := if closeStart > 0 && body[closeStart - 1] == '\n' then closeStart - 1 else closeStart;
    Slice(body, start, end)
  }

  function ParseBody(body: string): Result<Response, ParseError> {
    match ParseSection(body, 0, 0)
    case Err(e) => Err(e)
    case Ok((translation, end0)) =>
      match ParseSection(body, 1, end0)
      case Err(e) => Err(e)
      case Ok((review, end1)) =>
        match ParseSection(body, 2, end1)
        case Err(e) => Err(e)
        case Ok((final, end2)) =>
          if end2 != |body| then Err(OutsideSections) else Ok(Response(translation, review, final))
  }

  // ---- The fenced wrapper ----

  const FENCE_OPEN := "```\n"
  const XML_FENCE_OPEN := "```xml\n"
  const FENCE_CLOSE := "\n```"

  predicate Fenced(s: string, open: string) {
    |s| >= |open| + 4 && open <= s && s[|s| - 4..] == FENCE_CLOSE
  }

  /** Strip one fenced wrapper around the whole text. */
  function Unfence(s: string): string {
    if Fenced(s, XML_FENCE_OPEN) then Trim(s[7..|s| - 4])
    else if Fenced(s, FENCE_OPEN) then Trim(s[4..|s| - 4])
    else s
  }

  function Parse(text: string): Result<Response, ParseError> {
    ParseBody(Unfence(Trim(text)))
  }

  /** The parser's loop over the sections. */
  method ParseTranslationResponse(text: string) returns (parsed: Result<Response, ParseError>)
    ensures parsed == Parse(text)
  {
    var body := Unfence(Trim(text));
    var values: seq<string> := [];
    var previousCloseEnd := 0;
    for i := 0 to 3
      invariant |values| == i
      invariant i > 0 ==> ParseSection(body, 0, 0).Ok? && ParseSection(body, 0, 0).value.0 == values[0]
      invariant i == 1 ==> previousCloseEnd == ParseSection(body, 0, 0).value.1
      invariant i > 1 ==>
        var second := ParseSection(body, 1, ParseSection(body, 0, 0).value.1);
        second.Ok? && second.value.0 == values[1] && (i == 2 ==> previousCloseEnd == second.value.1)
      invariant i > 2 ==>
        var third := ParseSection(body, 2, ParseSection(body, 1, ParseSection(body, 0, 0).value.1).value.1);
        third.Ok? && third.value.0 == values[2] && previousCloseEnd == third.value.1
      invariant i == 0 ==> previousCloseEnd == 0
    {
      var section := ParseSection(body, i, previousCloseEnd);
      if section.Err? {
        return Err(section.error);
      }
      values := values + [section.value.0];
      previousCloseEnd := section.value.1;
    }
    if previousCloseEnd != |body| {
      return Err(OutsideSections);
    }
    return Ok(Response(values[0], values[1], values[2]));
  }
}
