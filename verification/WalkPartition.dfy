/** The curated partition of services and events, judged against what is rendered and what is declared. */
module WalkPartition {
  /** What the rendering projection produced and what the independent scan found declared. */
  datatype Surface = Surface(
    renderedKeys: seq<string>, renderedScopes: seq<string>, renderedEvents: seq<string>,
    declaredKeys: seq<string>, declaredEvents: seq<string>)

  /** The names in the curated maps: service keys and event scopes with a page, and named exemptions. */
  datatype Maps = Maps(servicePage: seq<string>, serviceExempt: seq<string>, scopePage: seq<string>,
                       eventExempt: seq<string>)

  datatype Kind =
    | KeyWithoutPage | ScopeWithoutPage | StaleKeyPage | StaleScopePage
    | InvisibleKey | RenderedExemptKey | StaleKeyExemption
    | InvisibleEvent | RenderedExemptEvent | StaleEventExemption
    | UnscannedKey | UnscannedEvent

  datatype Problem = Problem(kind: Kind, name: string)

  /** Where names with each kind of problem are looked for. */
  function Candidates(s: Surface, m: Maps, kind: Kind): seq<string> {
    match kind
    case KeyWithoutPage => s.renderedKeys
    case ScopeWithoutPage => s.renderedScopes
    case StaleKeyPage => m.servicePage
    case StaleScopePage => m.scopePage
    case InvisibleKey => s.declaredKeys
    case RenderedExemptKey => s.declaredKeys
    case StaleKeyExemption => m.serviceExempt
    case InvisibleEvent => s.declaredEvents
    case RenderedExemptEvent => s.declaredEvents
    case StaleEventExemption => m.eventExempt
    case UnscannedKey => s.renderedKeys
    case UnscannedEvent => s.renderedEvents
  }

  /** What is wrong with a candidate. */
  predicate Wrong(s: Surface, m: Maps, kind: Kind, name: string) {
    match kind
    case KeyWithoutPage => name !in m.servicePage
    case ScopeWithoutPage => name !in m.scopePage
    case StaleKeyPage => name !in s.renderedKeys
    case StaleScopePage => name !in s.renderedScopes
    case InvisibleKey => name !in s.renderedKeys && name !in m.serviceExempt
    case RenderedExemptKey => name in s.renderedKeys && name in m.serviceExempt
    case StaleKeyExemption => name !in s.declaredKeys
    case InvisibleEvent => name !in s.renderedEvents && name !in m.eventExempt
    case RenderedExemptEvent => name in s.renderedEvents && name in m.eventExempt
    case StaleEventExemption => name !in s.declaredEvents
    case UnscannedKey => name !in s.declaredKeys
    case UnscannedEvent => name !in s.declaredEvents
  }

  predicate Present(s: Surface, m: Maps, p: Problem) {
    p.name in Candidates(s, m, p.kind) && Wrong(s, m, p.kind, p.name)
  }

  /** What each kind of problem says of a name. */
  predicate Says(s: Surface, m: Maps, p: Problem) {
    var key, rendered := p.name, p.name in s.renderedKeys;
    match p.kind
    case KeyWithoutPage => rendered && key !in m.servicePage
    case StaleKeyPage => !rendered && key in m.servicePage
    case InvisibleKey => key in s.declaredKeys && !(rendered || key in m.serviceExempt)
    case RenderedExemptKey => key in s.declaredKeys && rendered && key in m.serviceExempt
    case StaleKeyExemption => key in m.serviceExempt && key !in s.declaredKeys
    case UnscannedKey => rendered && key !in s.declaredKeys
    case ScopeWithoutPage => p.name in s.renderedScopes && p.name !in m.scopePage
    case StaleScopePage => p.name in m.scopePage && p.name !in s.renderedScopes
    case InvisibleEvent => p.name in s.declaredEvents && !(p.name in s.renderedEvents || p.name in m.eventExempt)
    case RenderedExemptEvent => p.name in s.declaredEvents && p.name in s.renderedEvents && p.name in m.eventExempt
    case StaleEventExemption => p.name in m.eventExempt && p.name !in s.declaredEvents
    case UnscannedEvent => p.name in s.renderedEvents && p.name !in s.declaredEvents
  }

  /** A problem is present exactly when what its kind says is true of its name. */
  lemma {:induction false} PresentIsExact(s: Surface, m: Maps, p: Problem)
    ensures Present(s, m, p) <==> Says(s, m, p)
  {
  }

  /** Two sets share nothing and together are a third. */
  predicate Splits(whole: set<string>, a: set<string>, b: set<string>) {
    a !! b && whole == a + b
  }

  function Elements(xs: seq<string>): set<string> { set x | x in xs }

  /**
   * The closed form: pages for exactly what is rendered, and everything declared is either rendered or
   * exempt, never both, with nothing else rendered or exempt.
   */
  predicate Partitioned(s: Surface, m: Maps) {
    && Elements(m.servicePage) == Elements(s.renderedKeys)
    && Elements(m.scopePage) == Elements(s.renderedScopes)
    && Splits(Elements(s.declaredKeys), Elements(s.renderedKeys), Elements(m.serviceExempt))
    && Splits(Elements(s.declaredEvents), Elements(s.renderedEvents), Elements(m.eventExempt))
  }

  ghost predicate NoProblem(s: Surface, m: Maps) {
    forall p :: !Present(s, m, p)
  }

  lemma {:induction false} PagesExact(s: Surface, m: Maps)
    requires NoProblem(s, m)
    ensures Elements(m.servicePage) == Elements(s.renderedKeys) && Elements(m.scopePage) == Elements(s.renderedScopes)
  {
    forall x
      ensures x in m.servicePage <==> x in s.renderedKeys
      ensures x in m.scopePage <==> x in s.renderedScopes
    {
      assert !Present(s, m, Problem(KeyWithoutPage, x)) && !Present(s, m, Problem(StaleKeyPage, x));
      assert !Present(s, m, Problem(ScopeWithoutPage, x)) && !Present(s, m, Problem(StaleScopePage, x));
    }
  }

  lemma {:induction false} DeclaredSplits(s: Surface, m: Maps)
    requires NoProblem(s, m)
    ensures Splits(Elements(s.declaredKeys), Elements(s.renderedKeys), Elements(m.serviceExempt))
    ensures Splits(Elements(s.declaredEvents), Elements(s.renderedEvents), Elements(m.eventExempt))
  {
    forall x
      ensures x in s.declaredKeys <==> x in s.renderedKeys || x in m.serviceExempt
      ensures !(x in s.renderedKeys && x in m.serviceExempt)
    {
      assert !Present(s, m, Problem(InvisibleKey, x)) && !Present(s, m, Problem(RenderedExemptKey, x));
      assert !Present(s, m, Problem(StaleKeyExemption, x)) && !Present(s, m, Problem(UnscannedKey, x));
    }
    forall x
      ensures x in s.declaredEvents <==> x in s.renderedEvents || x in m.eventExempt
      ensures !(x in s.renderedEvents && x in m.eventExempt)
    {
      assert !Present(s, m, Problem(InvisibleEvent, x)) && !Present(s, m, Problem(RenderedExemptEvent, x));
      assert !Present(s, m, Problem(StaleEventExemption, x)) && !Present(s, m, Problem(UnscannedEvent, x));
    }
  }

  /** The twelve separate checks together say exactly that the partition holds. */
  lemma {:induction false} ChecksArePartition(s: Surface, m: Maps)
    ensures NoProblem(s, m) <==> Partitioned(s, m)
  {
    if NoProblem(s, m) {
      PagesExact(s, m);
      DeclaredSplits(s, m);
    }
    if Partitioned(s, m) {
      forall p
        ensures !Present(s, m, p)
      {
        NotPresent(s, m, p);
      }
    }
  }

  lemma {:induction false} NotPresent(s: Surface, m: Maps, p: Problem)
    requires Partitioned(s, m)
    ensures !Present(s, m, p)
  {
    assert forall x :: x in Elements(s.declaredKeys) <==> x in s.declaredKeys;
    assert forall x :: x in Elements(s.renderedKeys) <==> x in s.renderedKeys;
    assert forall x :: x in Elements(s.declaredEvents) <==> x in s.declaredEvents;
    assert forall x :: x in Elements(s.renderedEvents) <==> x in s.renderedEvents;
    assert forall x :: x in Elements(s.renderedScopes) <==> x in s.renderedScopes;
    assert forall x :: x in Elements(m.servicePage) <==> x in m.servicePage;
    assert forall x :: x in Elements(m.scopePage) <==> x in m.scopePage;
    assert forall x :: x in Elements(m.serviceExempt) <==> x in m.serviceExempt;
    assert forall x :: x in Elements(m.eventExempt) <==> x in m.eventExempt;
  }

  // ---- The loops ----

  /** Report each candidate with this kind of problem. */
  method Report(s: Surface, m: Maps, kind: Kind, found: seq<Problem>) returns (problems: seq<Problem>)
    ensures forall p :: p in problems <==> p in found || (p.kind == kind && Present(s, m, p))
  {
    hide Wrong, Candidates;
    problems := found;
    var names := Candidates(s, m, kind);
    for i := 0 to |names|
      invariant forall p :: p in problems <==>
                  p in found || (p.kind == kind && p.name in names[..i] && Wrong(s, m, kind, p.name))
    {
      assert names[..i + 1] == names[..i] + [names[i]];
      if Wrong(s, m, kind, names[i]) {
        problems := problems + [Problem(kind, names[i])];
      }
    }
    assert names[..|names|] == names;
  }

  /** Every violation present is reported, and nothing else; the list is empty exactly when the partition holds. */
  method WalkPartitionProblems(s: Surface, m: Maps) returns (problems: seq<Problem>)
    ensures forall p :: p in problems <==> Says(s, m, p)
    ensures problems == [] <==> Partitioned(s, m)
  {
    hide Present, Says, Partitioned;
    problems := Report(s, m, KeyWithoutPage, []);
    problems := Report(s, m, ScopeWithoutPage, problems);
    problems := Report(s, m, StaleKeyPage, problems);
    problems := Report(s, m, StaleScopePage, problems);
    problems := Report(s, m, InvisibleKey, problems);
    problems := Report(s, m, RenderedExemptKey, problems);
    problems := Report(s, m, StaleKeyExemption, problems);
    problems := Report(s, m, InvisibleEvent, problems);
    problems := Report(s, m, RenderedExemptEvent, problems);
    problems := Report(s, m, StaleEventExemption, problems);
    problems := Report(s, m, UnscannedKey, problems);
    problems := Report(s, m, UnscannedEvent, problems);
    ChecksArePartition(s, m);
    forall p: Problem
      ensures Present(s, m, p) <==> Says(s, m, p)
    {
      PresentIsExact(s, m, p);
    }
    assert problems != [] ==> problems[0] in problems;
  }
}
