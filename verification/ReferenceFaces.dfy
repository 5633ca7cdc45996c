/** Compiler faces over project references: the `extends` walk and the worklist over reference edges. */
module ReferenceFaces {
  import opened Outcomes
  import opened Graphs
  import opened PairRecord

  datatype Face = Host | Client

  /** A compiler configuration, with its local parent and its references resolved to paths. */
  datatype Config = Config(parent: Option<string>, references: seq<string>)

  /** The repository: its root, its configuration files, and its split projects, longest path first. */
  datatype World = World(root: string, configs: map<string, Config>, splitRoots: seq<string>)

  function FaceFile(face: Face): string {
    if face == Host then "tsconfig.host.json" else "tsconfig.client.json"
  }

  /** The face a configuration has by its own name. */
  function NamedFace(w: World, path: string): Option<Face> {
    if Basename(path) == FaceFile(Host) then Some(Host)
    else if Basename(path) == FaceFile(Client) then Some(Client)
    else if path == w.root + "/tsconfig.base.json" then Some(Host)
    else if path == w.root + "/tsconfig.base.client.json" then Some(Client)
    else None
  }

  /** A configuration is named after its face, or is one of the two base configurations. */
  lemma {:induction false} NamedFaceIsExact(w: World, path: string)
    ensures NamedFace(w, path) == Some(Host) <==>
      || Basename(path) == "tsconfig.host.json"
      || (path == w.root + "/tsconfig.base.json" && Basename(path) != "tsconfig.client.json")
    ensures NamedFace(w, path) == Some(Client) <==>
      || Basename(path) == "tsconfig.client.json"
      || (path == w.root + "/tsconfig.base.client.json" && Basename(path) != "tsconfig.host.json")
  {
    assert "tsconfig.host.json"[9] != "tsconfig.client.json"[9];
    assert path == w.root + "/tsconfig.base.json" ==> path[|path| - 9..] == "base.json";
    assert path == w.root + "/tsconfig.base.client.json" ==> path[|path| - 9..] == "ient.json";
    assert "base.json"[0] != "ient.json"[0];
  }

  // ---- The extends walk ----

  /** The parent that exists. */
  function Parent(w: World, path: string): Option<string> {
    if path in w.configs && w.configs[path].parent.Some? && w.configs[path].parent.value in w.configs
    then w.configs[path].parent else None
  }

  /** The face found by walking `extends`, giving up on a configuration already seen. */
  function ProjectFace(w: World, path: string, seen: set<string>): Option<Face>
    decreases w.configs.Keys - seen
  {
    if NamedFace(w, path).Some? then NamedFace(w, path)
    else if path in seen || Parent(w, path).None? then None
    else ProjectFace(w, Parent(w, path).value, seen + {path})
  }

  /** The `n`th configuration up the `extends` chain. */
  function Ancestor(w: World, path: string, n: nat): Option<string>
    decreases n
  {
    if n == 0 then Some(path)
    else if Parent(w, path).None? then None
    else Ancestor(w, Parent(w, path).value, n - 1)
  }

  function FaceAt(w: World, path: string, n: nat): Option<Face> {
    if Ancestor(w, path, n).Some? then NamedFace(w, Ancestor(w, path, n).value) else None
  }

  /** The nearest ancestor with a face of its own is the `n`th. */
  ghost predicate Inherits(w: World, path: string, n: nat, face: Face) {
    FaceAt(w, path, n) == Some(face) && forall m: nat :: m < n ==> FaceAt(w, path, m).None?
  }

  lemma {:induction false} FaceAtStep(w: World, path: string, n: nat)
    requires Parent(w, path).Some?
    ensures FaceAt(w, path, n + 1) == FaceAt(w, Parent(w, path).value, n)
  {
  }

  lemma {:induction false} InheritsStep(w: World, path: string, n: nat, face: Face)
    requires NamedFace(w, path).None? && Parent(w, path).Some?
    ensures Inherits(w, Parent(w, path).value, n, face) <==> Inherits(w, path, n + 1, face)
  {
    hide NamedFace, Parent;
    var parent := Parent(w, path).value;
    FaceAtStep(w, path, n);
    if Inherits(w, parent, n, face) {
      forall m: nat | m < n + 1
        ensures FaceAt(w, path, m).None?
      {
        if m > 0 {
          FaceAtStep(w, path, m - 1);
        }
      }
    }
    if Inherits(w, path, n + 1, face) {
      forall m: nat | m < n
        ensures FaceAt(w, parent, m).None?
      {
        FaceAtStep(w, path, m);
      }
    }
  }

  lemma {:induction false} InheritsOnce(w: World, path: string, m: nat, n: nat, face: Face)
    requires Inherits(w, path, m, face) && Inherits(w, path, n, face)
    ensures m == n
  {
    hide FaceAt;
  }

  /** A face found by the walk is inherited. */
  lemma {:induction false} WalkIsSound(w: World, path: string, seen: set<string>) returns (n: nat)
    requires ProjectFace(w, path, seen).Some?
    ensures Inherits(w, path, n, ProjectFace(w, path, seen).value)
    decreases w.configs.Keys - seen
  {
    if NamedFace(w, path).Some? {
      n := 0;
    } else {
      n := WalkIsSound(w, Parent(w, path).value, seen + {path});
      InheritsStep(w, path, n, ProjectFace(w, path, seen).value);
      n := n + 1;
    }
  }

  /** An inherited face is found: what has been seen is further from the face than where the walk is. */
  lemma {:induction false} WalkIsComplete(w: World, path: string, seen: set<string>, n: nat, face: Face)
    requires Inherits(w, path, n, face)
    requires forall s :: s in seen ==> exists m: nat :: m > n && Inherits(w, s, m, face)
    ensures ProjectFace(w, path, seen) == Some(face)
    decreases n
  {
    hide Inherits;
    if path in seen {
      var m: nat :| m > n && Inherits(w, path, m, face);
      InheritsOnce(w, path, m, n, face);
      assert false;
    }
    if NamedFace(w, path).None? {
      NamelessInherits(w, path, n, face);
      var parent := Parent(w, path).value;
      InheritsStep(w, path, n - 1, face);
      WalkIsComplete(w, parent, seen + {path}, n - 1, face);
    } else {
      NamedInherits(w, path, n, face);
    }
  }

  lemma {:induction false} NamelessInherits(w: World, path: string, n: nat, face: Face)
    requires NamedFace(w, path).None? && Inherits(w, path, n, face)
    ensures n > 0 && Parent(w, path).Some?
  {
    hide NamedFace, Parent;
  }

  lemma {:induction false} NamedInherits(w: World, path: string, n: nat, face: Face)
    requires NamedFace(w, path).Some? && Inherits(w, path, n, face)
    ensures NamedFace(w, path) == Some(face)
  {
    hide NamedFace;
    assert FaceAt(w, path, 0) == NamedFace(w, path);
  }

  /** The walk finds exactly the face of the nearest ancestor that has one, cycles notwithstanding. */
  lemma {:induction false} ProjectFaceIsNearest(w: World, path: string, face: Face)
    ensures ProjectFace(w, path, {}) == Some(face) <==> exists n: nat :: Inherits(w, path, n, face)
  {
    hide Inherits;
    if ProjectFace(w, path, {}) == Some(face) {
      var n := WalkIsSound(w, path, {});
    }
    if n: nat :| Inherits(w, path, n, face) {
      WalkIsComplete(w, path, {}, n, face);
    }
  }

  // ---- Reference edges ----

  /** The innermost split project a configuration lies in. */
  function ContainingSplitRoot(roots: seq<string>, target: string): Option<string> {
    if roots == [] then None
    else if target == roots[0] || roots[0] + "/" <= target then Some(roots[0])
    else ContainingSplitRoot(roots[1..], target)
  }

  /** A reference from a configuration enters a split project at the wrong leaf, or from no face. */
  predicate Violates(w: World, path: string, target: string) {
    var split := ContainingSplitRoot(w.splitRoots, target);
    var face := ProjectFace(w, path, {});
    split.Some? && (face.None? || target != split.value + "/" + FaceFile(face.value))
  }

  /** The target is the project's root or below it. */
  ghost predicate LiesIn(root: string, target: string) {
    target == root || exists below: string :: target == root + "/" + below
  }

  ghost predicate FirstContaining(roots: seq<string>, target: string, i: int) {
    0 <= i < |roots| && LiesIn(roots[i], target) && forall j :: 0 <= j < i ==> !LiesIn(roots[j], target)
  }

  lemma {:induction false} LiesInIsExact(root: string, target: string)
    ensures LiesIn(root, target) <==> target == root || root + "/" <= target
  {
    if root + "/" <= target {
      assert target == root + "/" + target[|root| + 1..];
    }
  }

  /** The split project is the first of the list, which has the longest paths first, that contains the target. */
  lemma {:induction false} SplitRootIsExact(roots: seq<string>, target: string)
    ensures match ContainingSplitRoot(roots, target)
            case None => forall i :: 0 <= i < |roots| ==> !LiesIn(roots[i], target)
            case Some(root) => exists i :: FirstContaining(roots, target, i) && roots[i] == root
  {
    hide LiesIn;
    if roots != [] {
      var rest := roots[1..];
      LiesInIsExact(roots[0], target);
      SplitRootIsExact(rest, target);
      assert forall k :: 0 < k < |roots| ==> roots[k] == rest[k - 1];
      if LiesIn(roots[0], target) {
        assert FirstContaining(roots, target, 0);
      } else if ContainingSplitRoot(rest, target).Some? {
        var i :| FirstContaining(rest, target, i) && rest[i] == ContainingSplitRoot(rest, target).value;
        assert FirstContaining(roots, target, i + 1);
      }
    }
  }

  /** The leaf of a split project that belongs to a face. */
  function Leaf(root: string, face: Face): string {
    root + match face case Host => "/tsconfig.host.json" case Client => "/tsconfig.client.json"
  }

  /** A reference violates exactly when it enters a split project, but not at the leaf of its own face. */
  lemma {:induction false} ViolatesIsExact(w: World, path: string, target: string)
    ensures Violates(w, path, target) <==>
      exists i :: FirstContaining(w.splitRoots, target, i)
                  && (ProjectFace(w, path, {}).None?
                      || target != Leaf(w.splitRoots[i], ProjectFace(w, path, {}).value))
  {
    var split := ContainingSplitRoot(w.splitRoots, target);
    SplitRootIsExact(w.splitRoots, target);
    hide LiesIn, ProjectFace, ContainingSplitRoot;
    if split.Some? {
      LeafIsExact(split.value);
    }
  }

  lemma {:induction false} LeafIsExact(root: string)
    ensures Leaf(root, Host) == root + "/" + FaceFile(Host) && Leaf(root, Client) == root + "/" + FaceFile(Client)
  {
  }

  datatype Violation = Violation(config: string, reference: string)

  function Bad(w: World, path: string, targets: seq<string>): seq<Violation> {
    if targets == [] then []
    else (if Violates(w, path, targets[0]) then [Violation(path, targets[0])] else []) + Bad(w, path, targets[1..])
  }

  function Good(w: World, path: string, targets: seq<string>): seq<string> {
    if targets == [] then []
    else (if Violates(w, path, targets[0]) then [] else [targets[0]]) + Good(w, path, targets[1..])
  }

  lemma {:induction false} GoodAndBad(w: World, path: string, targets: seq<string>)
    ensures forall t :: t in Good(w, path, targets) <==> t in targets && !Violates(w, path, t)
    ensures forall v :: v in Bad(w, path, targets) <==>
              v.config == path && v.reference in targets && Violates(w, path, v.reference)
  {
    hide Violates;
    if targets != [] {
      GoodAndBad(w, path, targets[1..]);
    }
  }

  lemma {:induction false} ReferenceStep(w: World, path: string, targets: seq<string>, i: nat)
    requires i < |targets|
    ensures Good(w, path, targets[i..]) ==
            (if Violates(w, path, targets[i]) then [] else [targets[i]]) + Good(w, path, targets[i + 1..])
    ensures Bad(w, path, targets[i..]) ==
      (if Violates(w, path, targets[i]) then [Violation(path, targets[i])] else []) + Bad(w, path, targets[i + 1..])
  {
    hide Violates;
    assert targets[i..][1..] == targets[i + 1..];
  }

  /** All references, and those that do not violate. */
  function AllEdges(w: World): Graph {
    map path | path in w.configs :: w.configs[path].references
  }

  function GoodEdges(w: World): Graph {
    map path | path in w.configs :: Good(w, path, w.configs[path].references)
  }

  ghost predicate WalkTo(g: Graph, roots: set<string>, p: seq<string>, x: string) {
    |p| > 0 && p[0] in roots && p[|p| - 1] == x && IsWalk(g, p)
  }

  ghost predicate Reached(g: Graph, roots: set<string>, x: string) {
    exists p :: WalkTo(g, roots, p, x)
  }

  lemma {:induction false} ReachedStep(g: Graph, roots: set<string>, a: string, b: string)
    requires Reached(g, roots, a) && Edge(g, a, b)
    ensures Reached(g, roots, b)
  {
    var p :| WalkTo(g, roots, p, a);
    WalkAppend(g, p, b);
    assert WalkTo(g, roots, p + [b], b);
  }

  lemma {:induction false} RootReached(g: Graph, roots: set<string>, x: string)
    requires x in roots
    ensures Reached(g, roots, x)
  {
    assert WalkTo(g, roots, [x], x);
  }

  /** A set that holds the roots that exist and is closed under edges holds all that is reached and exists. */
  lemma {:induction false} ClosedHoldsReached(g: Graph, roots: set<string>, s: set<string>, p: seq<string>, x: string)
    requires forall r :: r in roots && r in g ==> r in s
    requires forall a, b :: a in s && Edge(g, a, b) && b in g ==> b in s
    requires WalkTo(g, roots, p, x) && x in g
    ensures x in s
  {
    if |p| > 1 {
      var q := p[..|p| - 1];
      assert Hop(g, p, |p| - 2);
      forall i | 0 <= i < |q| - 1
        ensures Hop(g, q, i)
      {
        assert Hop(g, p, i);
      }
      assert WalkTo(g, roots, q, q[|q| - 1]);
      ClosedHoldsReached(g, roots, s, q, q[|q| - 1]);
    }
  }

  // ---- The worklist ----

  function Aggregates(w: World): seq<string> {
    [w.root + "/tsconfig.host.json", w.root + "/tsconfig.client.json"]
  }

  ghost function Roots(w: World): set<string> {
    set r | r in Aggregates(w)
  }

  /** A configuration reached from the aggregates over references that do not violate. */
  ghost predicate CleanlyReached(w: World, x: string) {
    Reached(GoodEdges(w), Roots(w), x)
  }

  /** What the worklist has done: everything pending is cleanly reached, and nothing is forgotten. */
  ghost predicate Explored(w: World, visited: set<string>, pending: seq<string>) {
    && (forall x :: x in visited ==> x in w.configs && CleanlyReached(w, x))
    && (forall x :: x in pending ==> CleanlyReached(w, x))
    && (forall r :: r in Roots(w) && r in w.configs ==> r in visited || r in pending)
    && (forall a, b :: a in visited && Edge(GoodEdges(w), a, b) && b in w.configs ==> b in visited || b in pending)
  }

  predicate ViolatingEdge(w: World, v: Violation) {
    v.config in w.configs && v.reference in w.configs[v.config].references && Violates(w, v.config, v.reference)
  }

  /** The violations reported are those of the visited configurations. */
  ghost predicate Reported(w: World, visited: set<string>, violations: seq<Violation>) {
    forall v :: v in violations <==> v.config in visited && ViolatingEdge(w, v)
  }

  /** A violating reference from a configuration that is cleanly reached. */
  ghost predicate CleanViolation(w: World, v: Violation) {
    CleanlyReached(w, v.config) && ViolatingEdge(w, v)
  }

  lemma {:induction false} GoodEdge(w: World, a: string, b: string)
    ensures Edge(GoodEdges(w), a, b) <==> a in w.configs && b in w.configs[a].references && !Violates(w, a, b)
  {
    if a in w.configs {
      GoodAndBad(w, a, w.configs[a].references);
    }
  }

  lemma {:induction false} Begin(w: World)
    ensures Explored(w, {}, Aggregates(w)) && Reported(w, {}, [])
  {
    forall x | x in Aggregates(w)
      ensures CleanlyReached(w, x)
    {
      RootReached(GoodEdges(w), Roots(w), x);
    }
  }

  /** Dropping a configuration that does not exist, or has been visited. */
  lemma {:induction false} Skip(w: World, visited: set<string>, pending: seq<string>, x: string)
    requires Explored(w, visited, pending + [x]) && (x in visited || x !in w.configs)
    ensures Explored(w, visited, pending)
  {
    hide Violates, Roots, CleanlyReached, GoodEdges;
  }

  /** Visiting a configuration and queueing its good references. */
  lemma {:induction false} Visit(w: World, visited: set<string>, pending: seq<string>, x: string)
    requires Explored(w, visited, pending + [x]) && x in w.configs
    ensures Explored(w, visited + {x}, pending + Good(w, x, w.configs[x].references))
  {
    hide Violates, Roots, GoodEdges;
    var good := Good(w, x, w.configs[x].references);
    assert x in pending + [x];
    assert Reached(GoodEdges(w), Roots(w), x);
    GoodAndBad(w, x, w.configs[x].references);
    forall y | y in pending + good
      ensures CleanlyReached(w, y)
    {
      if y in good {
        GoodEdge(w, x, y);
        ReachedStep(GoodEdges(w), Roots(w), x, y);
      }
    }
    hide CleanlyReached;
    forall a, b | a in visited + {x} && Edge(GoodEdges(w), a, b) && b in w.configs
      ensures b in visited + {x} || b in pending + good
    {
      GoodEdge(w, a, b);
    }
  }

  /** Report and queue the references of one configuration. */
  method VisitReferences(w: World, path: string) returns (queued: seq<string>, violations: seq<Violation>)
    requires path in w.configs
    ensures queued == Good(w, path, w.configs[path].references)
    ensures violations == Bad(w, path, w.configs[path].references)
  {
    hide Violates, Good, Bad;
    queued, violations := [], [];
    var references := w.configs[path].references;
    assert references[0..] == references;
    for i := 0 to |references|
      invariant queued + Good(w, path, references[i..]) == Good(w, path, references)
      invariant violations + Bad(w, path, references[i..]) == Bad(w, path, references)
    {
      ReferenceStep(w, path, references, i);
      if Violates(w, path, references[i]) {
        violations := violations + [Violation(path, references[i])];
      } else {
        queued := queued + [references[i]];
      }
    }
    assert references[|references|..] == [];
    NoReferences(w, path);
  }

  lemma {:induction false} NoReferences(w: World, path: string)
    ensures Good(w, path, []) == [] && Bad(w, path, []) == []
  {
  }

  /** Follow the references from both aggregates, and report every edge that enters a wrong leaf. */
  method CollectViolations(w: World) returns (violations: seq<Violation>)
    ensures forall v :: v in violations <==> CleanViolation(w, v)
  {
    hide Violates, Explored, Reported, CleanlyReached;
    var pending := Aggregates(w);
    var visited: set<string> := {};
    violations := [];
    Begin(w);
    while pending != []
      invariant Explored(w, visited, pending) && Reported(w, visited, violations)
      invariant visited <= w.configs.Keys
      decreases w.configs.Keys - visited, |pending|
    {
      var path := pending[|pending| - 1];
      assert pending == pending[..|pending| - 1] + [path];
      pending := pending[..|pending| - 1];
      if path in visited || path !in w.configs {
        Skip(w, visited, pending, path);
        continue;
      }
      Visit(w, visited, pending, path);
      var queued, found := VisitReferences(w, path);
      ReportMore(w, visited, violations, path, found);
      visited := visited + {path};
      pending := pending + queued;
      violations := violations + found;
    }
    AllExplored(w, visited);
    VisitedReport(w, visited, violations);
  }

  lemma {:induction false} ReportMore(w: World, visited: set<string>, violations: seq<Violation>, path: string,
                                      found: seq<Violation>)
    requires Reported(w, visited, violations) && path in w.configs && path !in visited
    requires found == Bad(w, path, w.configs[path].references)
    ensures Reported(w, visited + {path}, violations + found)
  {
    GoodAndBad(w, path, w.configs[path].references);
    hide Violates;
  }

  lemma {:induction false} AllExplored(w: World, visited: set<string>)
    requires Explored(w, visited, [])
    ensures forall x :: x in visited <==> x in w.configs && CleanlyReached(w, x)
  {
    hide Violates;
    forall x | x in w.configs && CleanlyReached(w, x)
      ensures x in visited
    {
      var p :| WalkTo(GoodEdges(w), Roots(w), p, x);
      ClosedHoldsReached(GoodEdges(w), Roots(w), visited, p, x);
    }
  }

  lemma {:induction false} VisitedReport(w: World, visited: set<string>, violations: seq<Violation>)
    requires Reported(w, visited, violations)
    requires forall x :: x in visited <==> x in w.configs && CleanlyReached(w, x)
    ensures forall v :: v in violations <==> CleanViolation(w, v)
  {
    hide Violates, CleanlyReached;
  }

  // ---- Nothing reachable is missed ----

  /** A reference that violates, from a configuration reached over any references at all. */
  ghost predicate ReachableViolation(w: World, v: Violation) {
    Reached(AllEdges(w), Roots(w), v.config) && ViolatingEdge(w, v)
  }

  /** Along any walk, either the end is cleanly reached or some violation is. */
  lemma {:induction false} FirstViolation(w: World, p: seq<string>, x: string)
    requires WalkTo(AllEdges(w), Roots(w), p, x)
    ensures CleanlyReached(w, x) || exists v :: CleanViolation(w, v)
    decreases |p|
  {
    hide Violates, Roots, GoodEdges;
    if |p| == 1 {
      RootReached(GoodEdges(w), Roots(w), x);
    } else {
      var q, a := p[..|p| - 1], p[|p| - 2];
      forall i | 0 <= i < |q| - 1
        ensures Hop(AllEdges(w), q, i)
      {
        assert Hop(AllEdges(w), p, i);
      }
      assert Hop(AllEdges(w), p, |p| - 2);
      FirstViolation(w, q, a);
      if CleanlyReached(w, a) {
        GoodEdge(w, a, x);
        if Violates(w, a, x) {
          assert CleanViolation(w, Violation(a, x));
        } else {
          ReachedStep(GoodEdges(w), Roots(w), a, x);
        }
      }
    }
  }

  lemma {:induction false} CleanIsReachable(w: World, p: seq<string>, x: string)
    requires WalkTo(GoodEdges(w), Roots(w), p, x)
    ensures WalkTo(AllEdges(w), Roots(w), p, x)
  {
    hide Violates, Roots;
    forall i | 0 <= i < |p| - 1
      ensures Hop(AllEdges(w), p, i)
    {
      assert Hop(GoodEdges(w), p, i);
      GoodEdge(w, p[i], p[i + 1]);
    }
  }

  /**
   * The worklist does not go past a violating edge, and yet it is silent exactly when no violating edge
   * is reachable over any edges.
   */
  lemma {:induction false} SilentExactlyWhenNoneReachable(w: World, violations: seq<Violation>)
    requires forall v :: v in violations <==> CleanViolation(w, v)
    ensures violations == [] <==> forall v :: !ReachableViolation(w, v)
  {
    hide Violates, Roots, GoodEdges, AllEdges;
    if violations != [] {
      var v := violations[0];
      assert CleanViolation(w, v);
      var p :| WalkTo(GoodEdges(w), Roots(w), p, v.config);
      CleanIsReachable(w, p, v.config);
      assert ReachableViolation(w, v);
    }
    if v :| ReachableViolation(w, v) {
      var p :| WalkTo(AllEdges(w), Roots(w), p, v.config);
      FirstViolation(w, p, v.config);
      assert CleanlyReached(w, v.config) ==> CleanViolation(w, v);
      var u :| CleanViolation(w, u);
      assert u in violations;
    }
  }
}
