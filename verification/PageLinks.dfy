/** A whole page: locating every destination and replacing them all rewrites the destinations and nothing else. */
module PageLinks {
  import opened Outcomes
  import opened Sorting
  import opened Splices
  import opened LinkDestinations
  import opened LinkGrammar
  import opened LinkRewriting

  /**
   * Text without rewritten links, and nodes with their new destinations. The label of a node is
   * itself such a text, as when a link's label holds an image; what the visit does not enter, such as
   * the label of an image, is prose.
   */
  datatype Page =
    | End
    | Prose(text: string, rest: Page)
    | Linked(node: Node, inside: Page, value: string, rest: Page)

  function PrintPage(p: Page): string {
    match p
    case End => ""
    case Prose(text, rest) => text + PrintPage(rest)
    case Linked(n, _, _, rest) => PrintNode(n) + PrintPage(rest)
  }

  /** The node with its label and its destination replaced, in the same brackets. */
  function NewNode(n: Node, text: string, value: string): string {
    HeadWith(n, text) + (if n.destination.Angled? then "<" + value + ">" else value) + n.tail
  }

  function NewPage(p: Page): string {
    match p
    case End => ""
    case Prose(text, rest) => text + NewPage(rest)
    case Linked(n, inside, value, rest) => NewNode(n, NewPage(inside), value) + NewPage(rest)
  }

  predicate IsPage(p: Page) {
    match p
    case End => true
    case Prose(_, rest) => IsPage(rest)
    case Linked(n, inside, _, rest) =>
      IsNode(n) && Scannable(n) && Label(n.caption) == PrintPage(inside) && IsPage(inside) && IsPage(rest)
  }

  /** The replacement for one node that starts at `offset`, as the scan of its raw text locates it. */
  function ReplacementOf(n: Node, value: string, offset: nat): Result<Replacement, RangeError> {
    match RangeOf(PrintNode(n), n.kind)
    case Err(e) => Err(e)
    case Ok(r) => Ok(Edit(offset + r.start, offset + r.end, value))
  }

  /** The replacements in the order in which the tree is visited, or the first node's error. */
  function Visit(p: Page, offset: nat): Result<seq<Replacement>, RangeError> {
    match p
    case End => Ok([])
    case Prose(text, rest) => Visit(rest, offset + |text|)
    case Linked(n, inside, value, rest) =>
      var own, within, later := ReplacementOf(n, value, offset), Visit(inside, offset + LabelStart(n)),
                                Visit(rest, offset + |PrintNode(n)|);
      if own.Err? then Err(own.error) else if within.Err? then within else if later.Err? then later
      else Ok([own.value] + within.value + later.value)
  }

  // ---- Where the replacements lie ----

  function LabelStart(n: Node): nat {
    if n.kind == Image then 2 else 1
  }

  /** Where a node's label ends, counted from the node's start. */
  function LabelStop(n: Node): nat {
    LabelStart(n) + |Label(n.caption)|
  }

  /** The replacement of the destination where it is written. */
  function Own(n: Node, value: string, offset: nat): Replacement {
    Edit(offset + TokenRange(n).start, offset + TokenRange(n).end, value)
  }

  /** The replacements of a page's destinations, from left to right. */
  function Replacements(p: Page, offset: nat): seq<Replacement> {
    match p
    case End => []
    case Prose(text, rest) => Replacements(rest, offset + |text|)
    case Linked(n, inside, value, rest) =>
      Replacements(inside, offset + LabelStart(n)) + [Own(n, value, offset)] +
      Replacements(rest, offset + |PrintNode(n)|)
  }

  lemma {:induction false} LinkedParts(at: nat, n: Node, inside: Page, value: string, rest: Page)
    ensures var p := Linked(n, inside, value, rest);
            && Replacements(p, at) == Replacements(inside, at + LabelStart(n)) + [Own(n, value, at)]
                                      + Replacements(rest, at + |PrintNode(n)|)
            && PrintPage(p) == PrintNode(n) + PrintPage(rest)
            && NewPage(p) == NewNode(n, NewPage(inside), value) + NewPage(rest)
  {
    hide Own, PrintNode, LabelStart, NewNode;
  }

  lemma {:induction false} MovedBehind<T>(x: T, a: seq<T>, b: seq<T>, c: seq<T>, d: seq<T>)
    requires multiset(a) == multiset(b) && multiset(c) == multiset(d)
    ensures multiset([x] + a + c) == multiset(b + [x] + d)
  {
  }

  lemma {:induction false} ReplacementIsOwn(n: Node, value: string, offset: nat)
    requires IsNode(n) && Scannable(n)
    ensures ReplacementOf(n, value, offset) == Ok(Own(n, value, offset))
  {
    hide IsNode, Scannable, RangeOf, PrintNode, TokenRange;
    DestinationIsExact(n);
  }

  /** The visit succeeded with these replacements, in some order. */
  ghost predicate Found(found: Result<seq<Replacement>, RangeError>, replacements: seq<Replacement>) {
    found.Ok? && multiset(found.value) == multiset(replacements)
  }

  /** On a page the visit finds every destination where it is written. */
  lemma {:induction false} VisitFinds(p: Page, offset: nat)
    requires IsPage(p)
    ensures Found(Visit(p, offset), Replacements(p, offset))
    decreases p
  {
    hide Own, PrintNode, IsNode, Scannable, ReplacementOf, LabelStart, Label, PrintPage;
    match p
    case End =>
    case Prose(text, rest) =>
      hide Found;
      VisitFinds(rest, offset + |text|);
    case Linked(n, inside, value, rest) =>
      hide Found, Visit, Replacements;
      VisitFinds(inside, offset + LabelStart(n));
      VisitFinds(rest, offset + |PrintNode(n)|);
      ReplacementIsOwn(n, value, offset);
      FindsLinked(n, inside, value, rest, offset);
  }

  lemma {:induction false} FindsLinked(n: Node, inside: Page, value: string, rest: Page, offset: nat)
    requires ReplacementOf(n, value, offset) == Ok(Own(n, value, offset))
    requires Found(Visit(inside, offset + LabelStart(n)), Replacements(inside, offset + LabelStart(n)))
    requires Found(Visit(rest, offset + |PrintNode(n)|), Replacements(rest, offset + |PrintNode(n)|))
    ensures var p := Linked(n, inside, value, rest); Found(Visit(p, offset), Replacements(p, offset))
  {
    hide ReplacementOf, Own, PrintNode, LabelStart, Visit, Replacements;
    var own, start, next := Own(n, value, offset), offset + LabelStart(n), offset + |PrintNode(n)|;
    VisitParts(n, inside, value, rest, offset);
    LinkedParts(offset, n, inside, value, rest);
    MovedBehind(own, Visit(inside, start).value, Replacements(inside, start), Visit(rest, next).value,
                Replacements(rest, next));
  }

  lemma {:induction false} VisitParts(n: Node, inside: Page, value: string, rest: Page, offset: nat)
    requires ReplacementOf(n, value, offset) == Ok(Own(n, value, offset))
    requires Visit(inside, offset + LabelStart(n)).Ok? && Visit(rest, offset + |PrintNode(n)|).Ok?
    ensures Visit(Linked(n, inside, value, rest), offset) ==
            Ok([Own(n, value, offset)] + Visit(inside, offset + LabelStart(n)).value +
               Visit(rest, offset + |PrintNode(n)|).value)
  {
    hide ReplacementOf, Own, PrintNode, LabelStart;
  }

  /** A node is its opening, its label, and what follows, where its own replacement lies. */
  lemma {:induction false} NodeShape(n: Node)
    ensures var r, raw := TokenRange(n), PrintNode(n);
            && LabelStart(n) <= LabelStop(n) < r.start <= r.end <= |raw|
            && raw[LabelStart(n)..LabelStop(n)] == Label(n.caption)
  {
    hide Label, Token;
  }

  /** All replacements lie between two positions. */
  ghost predicate Within(rs: seq<Replacement>, low: nat, high: nat) {
    forall k :: 0 <= k < |rs| ==> low < rs[k].start <= rs[k].end <= high
  }

  lemma {:induction false} ApartConcat(a: seq<Replacement>, b: seq<Replacement>, low: nat, cut: nat, high: nat)
    requires low <= cut <= high && Within(a, low, cut) && Within(b, cut, high)
    requires Pairwise(a, Apart) && Pairwise(b, Apart)
    ensures Within(a + b, low, high) && Pairwise(a + b, Apart)
  {
  }

  /** The replacements of different nodes are apart, and lie in the page. */
  lemma {:induction false} ReplacementsApart(p: Page, offset: nat)
    requires IsPage(p)
    ensures Within(Replacements(p, offset), offset, offset + |PrintPage(p)|)
    ensures Pairwise(Replacements(p, offset), Apart)
  {
    hide PrintNode, IsNode, Scannable, Within, Pairwise, TokenRange, LabelStart, LabelStop, Label;
    match p
    case End =>
      NothingApart(offset);
    case Prose(text, rest) =>
      ReplacementsApart(rest, offset + |text|);
      WithinMore(Replacements(rest, offset + |text|), offset + |text|, offset, offset + |PrintPage(p)|);
    case Linked(n, inside, value, rest) =>
      var next, stop := offset + |PrintNode(n)|, offset + LabelStop(n);
      NodeShape(n);
      ReplacementsApart(inside, offset + LabelStart(n));
      ReplacementsApart(rest, next);
      InsideEnds(n, inside);
      WithinMore(Replacements(inside, offset + LabelStart(n)), offset + LabelStart(n), offset, stop);
      OneApart(Own(n, value, offset), stop, next);
      ApartConcat(Replacements(inside, offset + LabelStart(n)), [Own(n, value, offset)], offset, stop, next);
      ApartConcat(Replacements(inside, offset + LabelStart(n)) + [Own(n, value, offset)], Replacements(rest, next),
                  offset, next, offset + |PrintPage(p)|);
  }

  lemma {:induction false} InsideEnds(n: Node, inside: Page)
    requires Label(n.caption) == PrintPage(inside)
    ensures LabelStart(n) + |PrintPage(inside)| == LabelStop(n)
  {
  }

  lemma {:induction false} NothingApart(offset: nat)
    ensures Within([], offset, offset) && Pairwise<Replacement>([], Apart)
  {
  }

  lemma {:induction false} OneApart(r: Replacement, low: nat, high: nat)
    requires low < r.start <= r.end <= high
    ensures Within([r], low, high) && Pairwise([r], Apart)
  {
  }

  lemma {:induction false} WithinMore(rs: seq<Replacement>, from: nat, low: nat, high: nat)
    requires Within(rs, from, high) && low <= from
    ensures Within(rs, low, high)
  {
  }

  lemma {:induction false} ReplacementsDisjoint(p: Page)
    requires IsPage(p)
    ensures Disjoint(Replacements(p, 0), |PrintPage(p)|)
  {
    ReplacementsApart(p, 0);
  }

  // ---- Substituting them ----

  lemma {:induction false} SliceOf(source: string, at: nat, raw: string, i: nat)
    requires at + |raw| <= |source| && source[at..at + |raw|] == raw && i <= |raw|
    ensures source[at..at + i] == raw[..i] && source[at + i..at + |raw|] == raw[i..]
  {
  }

  lemma {:induction false} SliceWithin(source: string, at: nat, raw: string, i: nat, j: nat)
    requires at + |raw| <= |source| && source[at..at + |raw|] == raw && i <= j <= |raw|
    ensures source[at + i..at + j] == raw[i..j]
  {
    SliceOf(source, at, raw, j);
    assert source[at + i..at + j] == source[at..at + j][i..];
    assert raw[i..j] == raw[..j][i..];
  }

  lemma {:induction false} WeaveFirst(source: string, e: Replacement, edits: seq<Replacement>, at: nat, next: nat)
    requires at <= e.start <= e.end <= next && Fits(edits, next, |source|)
    ensures Fits([e] + edits, at, |source|)
    ensures Weave(source, [e] + edits, at) ==
            source[at..e.start] + e.value + source[e.end..next] + Weave(source, edits, next)
  {
    WeaveFrom(source, edits, e.end, next);
    assert ([e] + edits)[1..] == edits;
    Regroup(source[at..e.start], e.value, source[e.end..next], Weave(source, edits, next));
    assert source[at..e.start] + e.value + (source[e.end..next] + Weave(source, edits, next))
        == source[at..e.start] + (e.value + source[e.end..next] + Weave(source, edits, next));
  }

  /** An edit inside one stretch of text, before the edits of what follows it. */
  lemma {:induction false} StretchWoven(source: string, at: nat, raw: string, start: nat, end: nat, value: string,
                                        edits: seq<Replacement>)
    requires at + |raw| <= |source| && source[at..at + |raw|] == raw && start <= end <= |raw|
    requires Fits(edits, at + |raw|, |source|)
    ensures var e := Edit(at + start, at + end, value);
            && Fits([e] + edits, at, |source|)
            && Weave(source, [e] + edits, at) == raw[..start] + value + raw[end..] + Weave(source, edits, at + |raw|)
  {
    hide Weave, Fits;
    WeaveFirst(source, Edit(at + start, at + end, value), edits, at, at + |raw|);
    SliceOf(source, at, raw, start);
    SliceOf(source, at, raw, end);
  }

  /** Substituting `edits` from `at` on gives `text`, and then what `later` gives from `next` on. */
  ghost predicate Through(source: string, at: nat, edits: seq<Replacement>, text: string, later: seq<Replacement>,
                          next: nat)
  {
    && Fits(edits, at, |source|) && Fits(later, next, |source|)
    && Weave(source, edits, at) == text + Weave(source, later, next)
  }

  lemma {:induction false} ThroughBoth(
      source: string, at: nat, edits: seq<Replacement>, text: string, between: seq<Replacement>, middle: nat,
      more: string, later: seq<Replacement>, next: nat)
    requires Through(source, at, edits, text, between, middle) && Through(source, middle, between, more, later, next)
    ensures Through(source, at, edits, text + more, later, next)
  {
    hide Fits, Weave;
    assert text + (more + Weave(source, later, next)) == text + more + Weave(source, later, next);
  }

  predicate Stands(source: string, at: nat, text: string) {
    at + |text| <= |source| && source[at..at + |text|] == text
  }

  /** Text without edits of its own. */
  lemma {:induction false} ThroughText(source: string, at: nat, text: string, edits: seq<Replacement>)
    requires Stands(source, at, text) && Fits(edits, at + |text|, |source|)
    ensures Through(source, at, edits, text, edits, at + |text|)
  {
    hide Fits, Weave;
    WeaveFrom(source, edits, at, at + |text|);
  }

  lemma {:induction false} ThroughFits(source: string, at: nat, edits: seq<Replacement>, text: string,
                                       later: seq<Replacement>, next: nat)
    requires Through(source, at, edits, text, later, next)
    ensures Fits(edits, at, |source|) && Fits(later, next, |source|)
  {
  }

  function Opening(n: Node): string {
    if n.kind == Image then "![" else "["
  }

  /** What follows the label of a node with a new destination. */
  function Closing(n: Node, value: string): string {
    "]" + (if n.kind == Definition then ":" else "(") + n.gap +
    (if n.destination.Angled? then "<" + value + ">" else value) + n.tail
  }

  lemma {:induction false} NewNodeParts(n: Node, text: string, value: string)
    ensures NewNode(n, text, value) == Opening(n) + text + Closing(n, value)
  {
  }

  lemma {:induction false} NodeParts(n: Node)
    ensures LabelStart(n) == |Opening(n)| && LabelStop(n) <= |PrintNode(n)|
    ensures PrintNode(n)[..LabelStart(n)] == Opening(n)
    ensures PrintNode(n)[LabelStop(n)..] == Closing(n, Token(n.destination))
    ensures PrintNode(n) == NewNode(n, Label(n.caption), Token(n.destination))
  {
    hide Label, Token;
  }

  lemma {:induction false} ClosingRange(n: Node, value: string)
    ensures var was, start, end := Closing(n, Token(n.destination)), TokenRange(n).start - LabelStop(n),
                                   TokenRange(n).end - LabelStop(n);
            0 <= start <= end <= |was| && was[..start] + value + was[end..] == Closing(n, value)
  {
    hide Label, Token;
  }

  /** A node's own replacement, after its label. */
  lemma {:induction false} ThroughClosing(source: string, at: nat, n: Node, value: string, edits: seq<Replacement>)
    requires Stands(source, at, PrintNode(n)) && Fits(edits, at + |PrintNode(n)|, |source|)
    ensures Through(source, at + LabelStop(n), [Own(n, value, at)] + edits, Closing(n, value), edits,
                    at + |PrintNode(n)|)
  {
    hide Fits, Weave, PrintNode, TokenRange, LabelStop, Closing, Token;
    var stop, raw, r := LabelStop(n), PrintNode(n), TokenRange(n);
    NodeShape(n);
    NodeParts(n);
    SliceOf(source, at, raw, stop);
    ClosingRange(n, value);
    StretchWoven(source, at + stop, raw[stop..], r.start - stop, r.end - stop, value, edits);
  }

  /** The parts of a node in the source. */
  lemma {:induction false} PartsStand(source: string, at: nat, n: Node, inside: Page)
    requires Stands(source, at, PrintNode(n)) && Label(n.caption) == PrintPage(inside)
    ensures LabelStart(n) + |PrintPage(inside)| == LabelStop(n)
    ensures LabelStart(n) == |Opening(n)| && Stands(source, at, Opening(n))
    ensures Stands(source, at + LabelStart(n), PrintPage(inside))
  {
    NodeShape(n);
    NodeParts(n);
    hide PrintNode, TokenRange, LabelStart, Label, Opening;
    SliceOf(source, at, PrintNode(n), LabelStart(n));
    SliceWithin(source, at, PrintNode(n), LabelStart(n), LabelStop(n));
  }

  lemma {:induction false} NextStands(source: string, at: nat, a: string, b: string)
    requires Stands(source, at, a + b)
    ensures Stands(source, at, a) && Stands(source, at + |a|, b)
  {
    SliceOf(source, at, a + b, |a|);
  }

  /** Substituting a page's replacements, and later ones, gives the new page and what follows it. */
  lemma {:induction false} PageWoven(source: string, at: nat, p: Page, edits: seq<Replacement>)
    requires IsPage(p) && Stands(source, at, PrintPage(p)) && Fits(edits, at + |PrintPage(p)|, |source|)
    ensures Through(source, at, Replacements(p, at) + edits, NewPage(p), edits, at + |PrintPage(p)|)
    decreases p
  {
    hide Weave, Fits, Through, Stands, PrintNode, Own, LabelStart, LabelStop, NewNode, IsNode, Scannable;
    match p
    case End =>
      EndWoven(source, at, edits);
    case Prose(text, rest) =>
      NextStands(source, at, text, PrintPage(rest));
      PageWoven(source, at + |text|, rest, edits);
      ProseWoven(source, at, text, rest, edits);
    case Linked(n, inside, value, rest) =>
      var next := at + |PrintNode(n)|;
      var later := Replacements(rest, next) + edits;
      NextStands(source, at, PrintNode(n), PrintPage(rest));
      PageWoven(source, next, rest, edits);
      ThroughFits(source, next, later, NewPage(rest), edits, at + |PrintPage(p)|);
      PartsStand(source, at, n, inside);
      ThroughClosing(source, at, n, value, later);
      ThroughFits(source, at + LabelStop(n), [Own(n, value, at)] + later, Closing(n, value), later, next);
      PageWoven(source, at + LabelStart(n), inside, [Own(n, value, at)] + later);
      var own := [Own(n, value, at)];
      var all := Replacements(inside, at + LabelStart(n)) + (own + later);
      NodeThrough(source, at, n, NewPage(inside), value, all, own + later, later, next);
      ThroughBoth(source, at, all, NewNode(n, NewPage(inside), value), later, next, NewPage(rest), edits,
                  at + |PrintPage(p)|);
      LinkedWoven(source, at, n, inside, value, rest, edits, at + |PrintPage(p)|);
  }

  lemma {:induction false} EndWoven(source: string, at: nat, edits: seq<Replacement>)
    requires Fits(edits, at, |source|)
    ensures Through(source, at, [] + edits, "", edits, at)
  {
    assert [] + edits == edits;
  }

  lemma {:induction false} ProseWoven(source: string, at: nat, text: string, rest: Page, edits: seq<Replacement>)
    requires Stands(source, at, text)
    requires var next := at + |text|;
             Through(source, next, Replacements(rest, next) + edits, NewPage(rest), edits, next + |PrintPage(rest)|)
    ensures Through(source, at, Replacements(rest, at + |text|) + edits, text + NewPage(rest), edits,
                    at + |text| + |PrintPage(rest)|)
  {
    var next := at + |text|;
    hide *;
    ThroughFits(source, next, Replacements(rest, next) + edits, NewPage(rest), edits, next + |PrintPage(rest)|);
    ThroughText(source, at, text, Replacements(rest, next) + edits);
    ThroughBoth(source, at, Replacements(rest, next) + edits, text, Replacements(rest, next) + edits, next,
                NewPage(rest), edits, next + |PrintPage(rest)|);
  }

  lemma {:induction false} Regrouped<T>(a: seq<T>, b: seq<T>, c: seq<T>, d: seq<T>)
    ensures a + b + c + d == a + (b + (c + d))
  {
  }

  lemma {:induction false} NodeThrough(
      source: string, at: nat, n: Node, text: string, value: string, all: seq<Replacement>, between: seq<Replacement>,
      later: seq<Replacement>, next: nat)
    requires Stands(source, at, Opening(n)) && LabelStart(n) == |Opening(n)|
    requires Through(source, at + LabelStart(n), all, text, between, at + LabelStop(n))
    requires Through(source, at + LabelStop(n), between, Closing(n, value), later, next)
    ensures Through(source, at, all, NewNode(n, text, value), later, next)
  {
    var start, stop := at + LabelStart(n), at + LabelStop(n);
    hide *;
    ThroughFits(source, start, all, text, between, stop);
    ThroughText(source, at, Opening(n), all);
    ThroughBoth(source, at, all, Opening(n), all, start, text, between, stop);
    ThroughBoth(source, at, all, Opening(n) + text, between, stop, Closing(n, value), later, next);
    NewNodeParts(n, text, value);
  }

  /** A page's replacements in the shape in which they were substituted. */
  lemma {:induction false} LinkedWoven(source: string, at: nat, n: Node, inside: Page, value: string, rest: Page,
                                       edits: seq<Replacement>, end: nat)
    requires var own, later := [Own(n, value, at)], Replacements(rest, at + |PrintNode(n)|) + edits;
             Through(source, at, Replacements(inside, at + LabelStart(n)) + (own + later),
                     NewNode(n, NewPage(inside), value) + NewPage(rest), edits, end)
    ensures var p := Linked(n, inside, value, rest);
            Through(source, at, Replacements(p, at) + edits, NewPage(p), edits, end)
  {
    hide *;
    LinkedParts(at, n, inside, value, rest);
    Regrouped(Replacements(inside, at + LabelStart(n)), [Own(n, value, at)], Replacements(rest, at + |PrintNode(n)|),
              edits);
  }

  lemma {:induction false} PermutedDisjoint(a: seq<Replacement>, b: seq<Replacement>, length: nat)
    requires Disjoint(a, length) && multiset(a) == multiset(b)
    ensures Disjoint(b, length)
  {
    PairwisePermuted(a, b, Apart);
    SameMembers(b, a, multiset{});
    forall i | 0 <= i < |b|
      ensures b[i].start <= b[i].end <= length
    {
      assert b[i] in a;
    }
  }

  /**
   * Whatever order the nodes were visited in, the page comes back with every destination replaced and
   * everything else as it was.
   */
  lemma {:induction false} PageIsRewritten(p: Page, found: seq<Replacement>)
    requires IsPage(p) && multiset(found) == multiset(Replacements(p, 0))
    ensures Disjoint(found, |PrintPage(p)|) && Rewritten(PrintPage(p), found) == NewPage(p)
  {
    hide Disjoint, Replacements, PrintPage, NewPage, IsPage, Rewritten;
    ReplacementsDisjoint(p);
    PermutedDisjoint(Replacements(p, 0), found, |PrintPage(p)|);
    RewritingIgnoresOrder(PrintPage(p), found, Replacements(p, 0));
    WholePageWoven(p);
    InOrderAlready(PrintPage(p), Replacements(p, 0));
  }

  /** The replacements that the visit of the tree collects rewrite the page. */
  lemma {:induction false} VisitRewritesPage(p: Page)
    requires IsPage(p)
    ensures var found := Visit(p, 0);
            && found.Ok? && Disjoint(found.value, |PrintPage(p)|)
            && Rewritten(PrintPage(p), found.value) == NewPage(p)
  {
    hide Visit, Replacements, Disjoint, Rewritten, IsPage, PrintPage, NewPage;
    VisitFinds(p, 0);
    PageIsRewritten(p, Visit(p, 0).value);
  }

  lemma {:induction false} WholePageWoven(p: Page)
    requires IsPage(p)
    ensures Fits(Replacements(p, 0), 0, |PrintPage(p)|)
    ensures Weave(PrintPage(p), Replacements(p, 0), 0) == NewPage(p)
  {
    var source := PrintPage(p);
    PageWoven(source, 0, p, []);
    assert Replacements(p, 0) + [] == Replacements(p, 0);
    assert NewPage(p) + Weave(source, [], |source|) == NewPage(p);
  }

  /** Replacements that fit in order are substituted as they are. */
  lemma {:induction false} InOrderAlready(source: string, replacements: seq<Replacement>)
    requires Disjoint(replacements, |source|) && Fits(replacements, 0, |source|)
    ensures Rewritten(source, replacements) == Weave(source, replacements, 0)
  {
    hide Weave, ByStart;
    FitsIsAscending(replacements, 0, |source|);
    ByStartAscending(replacements, |source|);
    AscendingIsUnique(ByStart(replacements), replacements, |source|);
  }

  lemma {:induction false} FitsIsAscending(replacements: seq<Replacement>, at: nat, length: nat)
    requires Disjoint(replacements, length) && Fits(replacements, at, length)
    ensures Ascending(replacements, length)
  {
    if replacements != [] {
      var rest := replacements[1..];
      assert forall k :: 0 <= k < |rest| ==> rest[k] == replacements[k + 1];
      FitsIsAscending(rest, replacements[0].end, length);
      if |replacements| > 1 {
        assert Apart(replacements[0], replacements[1]);
        assert rest[0].start >= replacements[0].end;
      }
    }
  }
}
