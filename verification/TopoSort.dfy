/** The sort itself, against its closed form: order by longest dependency chain, then by comparison. */
module TopoSort {
  import opened Outcomes
  import opened Graphs
  import opened PackageGraph
  import opened Sorting

  // ---- One layer ----

  /** The packages whose dependencies have all been placed. */
  function Ready(pkgs: seq<Package>, placed: set<string>): (ready: seq<Package>)
    ensures forall p :: p in ready ==> p in pkgs
  {
    if pkgs == [] then []
    else (if AllIn(pkgs[0].deps, placed) then [pkgs[0]] else []) + Ready(pkgs[1..], placed)
  }

  function Waiting(pkgs: seq<Package>, placed: set<string>): (waiting: seq<Package>)
    ensures forall p :: p in waiting ==> p in pkgs
  {
    if pkgs == [] then []
    else (if AllIn(pkgs[0].deps, placed) then [] else [pkgs[0]]) + Waiting(pkgs[1..], placed)
  }

  lemma {:induction false} ReadyOrWaiting(pkgs: seq<Package>, placed: set<string>)
    ensures multiset(Ready(pkgs, placed)) + multiset(Waiting(pkgs, placed)) == multiset(pkgs)
    ensures forall p :: p in pkgs ==>
              if AllIn(p.deps, placed) then p in Ready(pkgs, placed) else p in Waiting(pkgs, placed)
    ensures forall p :: p in Ready(pkgs, placed) ==> AllIn(p.deps, placed)
    ensures forall p :: p in Waiting(pkgs, placed) ==> !AllIn(p.deps, placed)
    ensures |Ready(pkgs, placed)| + |Waiting(pkgs, placed)| == |pkgs|
  {
    hide AllIn;
    if pkgs != [] {
      assert pkgs == [pkgs[0]] + pkgs[1..];
      ReadyOrWaiting(pkgs[1..], placed);
    }
  }

  /** The packages of a layer in the order of `comparePackages`. */
  function SortLayer(pkgs: seq<Package>, order: seq<string>, less: Less): (sorted: seq<Package>)
    ensures multiset(sorted) == multiset(pkgs) && |sorted| == |pkgs|
  {
    Sort(pkgs, (a: Package, b: Package) => Before(a, b, order, less))
  }

  predicate Ascending(pkgs: seq<Package>, order: seq<string>, less: Less) {
    forall i, j :: 0 <= i < j < |pkgs| ==> Before(pkgs[i], pkgs[j], order, less)
  }

  lemma {:induction false} LayerAscending(pkgs: seq<Package>, order: seq<string>, less: Less)
    requires StrictTotal(less) && Unique(pkgs)
    ensures Ascending(SortLayer(pkgs, order, less), order, less)
  {
    hide StrictTotal, Before;
    var le := (a: Package, b: Package) => Before(a, b, order, less);
    forall a, b, c | le(a, b) && le(b, c)
      ensures le(a, c)
    {
      BeforeIsStrict(a, b, c, order, less);
    }
    forall i, j | 0 <= i < j < |pkgs|
      ensures le(pkgs[i], pkgs[j]) || le(pkgs[j], pkgs[i])
    {
      BeforeIsStrict(pkgs[i], pkgs[j], pkgs[i], order, less);
    }
    SortSorted(pkgs, le);
  }

  // ---- The closed form ----

  predicate Earlier(a: Package, da: nat, b: Package, db: nat, order: seq<string>, less: Less) {
    da < db || (da == db && Before(a, b, order, less))
  }

  predicate InOrder(pkgs: seq<Package>, layers: seq<nat>, order: seq<string>, less: Less) {
    && |layers| == |pkgs|
    && forall i, j :: 0 <= i < j < |pkgs| ==> Earlier(pkgs[i], layers[i], pkgs[j], layers[j], order, less)
  }

  ghost predicate Layered(g: Graph, pkgs: seq<Package>, layers: seq<nat>) {
    |layers| == |pkgs| && forall i :: 0 <= i < |pkgs| ==> InLayer(g, pkgs[i].short, layers[i])
  }

  /** Ordered by the length of the longest dependency chain, then by comparison. */
  ghost predicate IsTopological(g: Graph, pkgs: seq<Package>, layers: seq<nat>, order: seq<string>, less: Less) {
    && InOrder(pkgs, layers, order, less)
    && forall i :: 0 <= i < |pkgs| ==> LongestChain(g, pkgs[i].short, layers[i])
  }

  /** The layer `r`, `n` times. */
  ghost function Repeat(r: nat, n: nat): (layers: seq<nat>)
    ensures |layers| == n && forall i :: 0 <= i < n ==> layers[i] == r
  {
    seq(n, _ => r)
  }

  lemma {:induction false} AppendLayer(g: Graph, out: seq<Package>, layers: seq<nat>, ready: seq<Package>, r: nat,
                                       order: seq<string>, less: Less)
    requires InOrder(out, layers, order, less) && Ascending(ready, order, less)
    requires forall i :: 0 <= i < |layers| ==> layers[i] < r
    ensures InOrder(out + ready, layers + Repeat(r, |ready|), order, less)
  {
    hide Before;
  }

  lemma {:induction false} AppendLayered(g: Graph, out: seq<Package>, layers: seq<nat>, ready: seq<Package>, r: nat)
    requires Layered(g, out, layers) && forall p :: p in ready ==> InLayer(g, p.short, r)
    ensures Layered(g, out + ready, layers + Repeat(r, |ready|))
  {
    hide InLayer;
  }

  // ---- Rounds ----

  /** What a round knows of the packages not yet placed. */
  ghost predicate Remaining(pkgs: seq<Package>, remaining: seq<Package>, placed: set<string>) {
    && (forall p :: p in remaining ==> p in pkgs && p.short !in placed)
    && (forall p :: p in pkgs ==> p.short in placed || p in remaining)
  }

  /** Placing the ready packages completes the next layer. */
  lemma {:induction false} NextLayer(pkgs: seq<Package>, g: Graph, remaining: seq<Package>, r: nat)
    requires Unique(pkgs) && g == GraphOf(pkgs) && Remaining(pkgs, remaining, Placed(g, r))
    ensures Placed(g, r + 1) == Placed(g, r) + Names(Ready(remaining, Placed(g, r)))
    ensures forall p :: p in Ready(remaining, Placed(g, r)) ==> InLayer(g, p.short, r)
    ensures Remaining(pkgs, Waiting(remaining, Placed(g, r)), Placed(g, r + 1))
  {
    hide Unique, AllIn, GraphOf, Names, Placed, Ready, Waiting;
    var placed := Placed(g, r);
    var ready := Ready(remaining, placed);
    forall n
      ensures n in Placed(g, r + 1) <==> n in placed || n in Names(ready)
    {
      PlacedNext(pkgs, g, remaining, r, n);
    }
    forall p | p in ready
      ensures InLayer(g, p.short, r)
    {
      NameOf(ready, p);
      assert p in remaining;
    }
    StillRemaining(pkgs, g, remaining, r);
  }

  lemma {:induction false} StillRemaining(pkgs: seq<Package>, g: Graph, remaining: seq<Package>, r: nat)
    requires Unique(pkgs) && g == GraphOf(pkgs) && Remaining(pkgs, remaining, Placed(g, r))
    ensures Remaining(pkgs, Waiting(remaining, Placed(g, r)), Placed(g, r + 1))
  {
    hide Unique, AllIn, GraphOf, Ready, Waiting;
    var placed := Placed(g, r);
    GraphOfSpec(pkgs);
    ReadyOrWaiting(remaining, placed);
    PlacedGrows(g, r);
  }

  lemma {:induction false} NameOf(pkgs: seq<Package>, p: Package)
    requires p in pkgs
    ensures p.short in Names(pkgs)
  {
  }

  /** The next layer is what has been placed, and what is ready. */
  lemma {:induction false} PlacedNext(pkgs: seq<Package>, g: Graph, remaining: seq<Package>, r: nat, n: string)
    requires Unique(pkgs) && g == GraphOf(pkgs) && Remaining(pkgs, remaining, Placed(g, r))
    ensures n in Placed(g, r + 1) <==> n in Placed(g, r) || n in Names(Ready(remaining, Placed(g, r)))
  {
    hide Unique, AllIn, GraphOf;
    var placed := Placed(g, r);
    GraphOfSpec(pkgs);
    ReadyOrWaiting(remaining, placed);
    PlacedGrows(g, r);
    if n in Placed(g, r + 1) && n !in placed {
      var p :| p in pkgs && p.short == n;
      assert p in remaining;
    }
  }

  /** With nothing ready, some package waits for an unknown dependency or for itself. */
  lemma {:induction false} NothingReady(pkgs: seq<Package>, g: Graph, remaining: seq<Package>, placed: set<string>)
    requires Unique(pkgs) && g == GraphOf(pkgs) && Remaining(pkgs, remaining, placed)
    requires Ready(remaining, placed) == [] && remaining != []
    ensures !(Acyclic(g) && Known(g))
    ensures Known(g) ==> forall n :: n in Names(remaining) ==> LeadsInto(g, n, Names(remaining))
  {
    hide Unique, GraphOf;
    GraphOfSpec(pkgs);
    ReadyOrWaiting(remaining, placed);
    var stuck := Names(remaining);
    if Known(g) {
      forall n | n in stuck
        ensures LeadsInto(g, n, stuck)
      {
        var p :| p in remaining && p.short == n;
        var d :| d in p.deps && d !in placed;
        assert Edge(g, n, d);
        var q :| q in pkgs && q.short == d;
        assert q in remaining;
      }
      assert remaining[0].short in stuck;
      var cycle := StuckSetHasCycle(g, stuck);
    }
  }

  /** Place the ready packages one by one. */
  method PlaceAll(ready: seq<Package>, out0: seq<Package>, placed0: set<string>)
    returns (out: seq<Package>, placed: set<string>)
    ensures out == out0 + ready && placed == placed0 + Names(ready)
  {
    out, placed := out0, placed0;
    for i := 0 to |ready|
      invariant out == out0 + ready[..i] && placed == placed0 + Names(ready[..i])
    {
      assert ready[..i + 1] == ready[..i] + [ready[i]];
      out := out + [ready[i]];
      placed := placed + {ready[i].short};
    }
    assert ready[..|ready|] == ready;
  }

  lemma {:induction false} SortedNames(a: seq<Package>, b: seq<Package>)
    requires multiset(a) == multiset(b)
    ensures Names(a) == Names(b) && forall p :: p in a <==> p in b
  {
    SameMembers(a, b, multiset{});
  }

  lemma {:induction false} StillUnique(pkgs: seq<Package>, placed: set<string>)
    requires Unique(pkgs)
    ensures Unique(Ready(pkgs, placed)) && Unique(Waiting(pkgs, placed))
  {
    if pkgs != [] {
      UniqueRest(pkgs);
      StillUnique(pkgs[1..], placed);
    }
  }

  /** What holds between rounds: `r` layers are placed and put out in order. */
  ghost predicate Round(pkgs: seq<Package>, g: Graph, remaining: seq<Package>, placed: set<string>, out: seq<Package>,
                        layers: seq<nat>, r: nat, order: seq<string>, less: Less)
  {
    && placed == Placed(g, r) && Remaining(pkgs, remaining, placed) && Unique(remaining)
    && multiset(out) + multiset(remaining) == multiset(pkgs)
    && InOrder(out, layers, order, less) && Layered(g, out, layers)
    && (forall i :: 0 <= i < |layers| ==> layers[i] < r)
  }

  lemma {:induction false} NextRound(pkgs: seq<Package>, g: Graph, remaining: seq<Package>, placed: set<string>,
                                     out: seq<Package>, layers: seq<nat>, r: nat, order: seq<string>, less: Less)
    requires Unique(pkgs) && StrictTotal(less) && g == GraphOf(pkgs)
             && Round(pkgs, g, remaining, placed, out, layers, r, order, less)
    ensures var ready := SortLayer(Ready(remaining, placed), order, less);
            Round(pkgs, g, Waiting(remaining, placed), placed + Names(ready), out + ready,
                  layers + Repeat(r, |ready|), r + 1, order, less)
  {
    hide StrictTotal, Unique, Before, GraphOf, AllIn, InOrder, Layered, Remaining, Names, Ascending, Repeat, SortLayer,
         Ready, Waiting, Placed;
    var layer := Ready(remaining, placed);
    var ready := SortLayer(layer, order, less);
    ReadyOrWaiting(remaining, placed);
    NextLayer(pkgs, g, remaining, r);
    StillUnique(remaining, placed);
    LayerAscending(layer, order, less);
    SortedNames(ready, layer);
    AppendLayer(g, out, layers, ready, r, order, less);
    AppendLayered(g, out, layers, ready, r);
    assert multiset(out + ready) == multiset(out) + multiset(layer);
  }

  /**
   * Sort by rounds. It succeeds exactly when there is neither a cycle nor an unknown dependency, and
   * then gives the packages in the order of the closed form; otherwise it reports the packages stuck.
   */
  method TopoSort(packages: seq<Package>, order: seq<string>, less: Less)
    returns (sorted: Result<seq<Package>, seq<Package>>, ghost layers: seq<nat>)
    requires Unique(packages) && StrictTotal(less)
    ensures sorted.Ok? <==> Acyclic(GraphOf(packages)) && Known(GraphOf(packages))
    ensures sorted.Ok? ==> multiset(sorted.value) == multiset(packages)
    ensures sorted.Ok? ==> IsTopological(GraphOf(packages), sorted.value, layers, order, less)
    ensures sorted.Err? ==> sorted.error != [] && AllStuck(GraphOf(packages), Names(sorted.error))
  {
    hide StrictTotal, Unique, GraphOf, Names, Acyclic, Round, AllStuck, IsTopological, Known;
    ghost var g := GraphOf(packages);
    var remaining := packages;
    var placed: set<string> := {};
    var out: seq<Package> := [];
    ghost var r: nat := 0;
    layers := [];
    Start(packages, g, order, less);
    while remaining != []
      invariant Round(packages, g, remaining, placed, out, layers, r, order, less)
      decreases |remaining|
    {
      var ready := SortLayer(Ready(remaining, placed), order, less);
      if ready == [] {
        StuckRound(packages, g, remaining, placed, out, layers, r, order, less);
        return Err(remaining), layers;
      }
      NextRound(packages, g, remaining, placed, out, layers, r, order, less);
      ReadyOrWaiting(remaining, placed);
      layers := layers + Repeat(r, |ready|);
      remaining := Waiting(remaining, placed);
      out, placed := PlaceAll(ready, out, placed);
      r := r + 1;
    }
    Finish(packages, g, out, placed, layers, r, order, less);
    return Ok(out), layers;
  }

  /** Every stuck package waits for a stuck one, unless some dependency is unknown. */
  ghost predicate AllStuck(g: Graph, stuck: set<string>) {
    Known(g) ==> forall n :: n in stuck ==> LeadsInto(g, n, stuck)
  }

  lemma {:induction false} StuckRound(pkgs: seq<Package>, g: Graph, remaining: seq<Package>, placed: set<string>,
                                      out: seq<Package>, layers: seq<nat>, r: nat, order: seq<string>, less: Less)
    requires Unique(pkgs) && g == GraphOf(pkgs) && Round(pkgs, g, remaining, placed, out, layers, r, order, less)
    requires remaining != [] && SortLayer(Ready(remaining, placed), order, less) == []
    ensures !(Acyclic(g) && Known(g)) && AllStuck(g, Names(remaining))
  {
    hide Unique, GraphOf, Acyclic, InOrder, Layered;
    NothingReady(pkgs, g, remaining, placed);
  }

  lemma {:induction false} Start(packages: seq<Package>, g: Graph, order: seq<string>, less: Less)
    requires Unique(packages)
    ensures Round(packages, g, packages, {}, [], [], 0, order, less)
  {
    hide Unique;
  }

  lemma {:induction false} Finish(packages: seq<Package>, g: Graph, out: seq<Package>, placed: set<string>,
                                  layers: seq<nat>, r: nat, order: seq<string>, less: Less)
    requires Unique(packages) && g == GraphOf(packages) && Round(packages, g, [], placed, out, layers, r, order, less)
    ensures Acyclic(g) && Known(g) && IsTopological(g, out, layers, order, less) && multiset(out) == multiset(packages)
  {
    hide Unique, GraphOf, InOrder, Acyclic;
    GraphOfSpec(packages);
    PlacedIsAcyclic(g, r);
    forall i | 0 <= i < |out|
      ensures LongestChain(g, out[i].short, layers[i])
    {
      LayerIsLongestChain(g, out[i].short, layers[i]);
    }
  }

  // ---- The closed form has one solution ----

  lemma {:induction false} EarlierIsAsymmetric(a: Package, da: nat, b: Package, db: nat, order: seq<string>, less: Less)
    requires StrictTotal(less) && Earlier(a, da, b, db, order, less)
    ensures !Earlier(b, db, a, da, order, less)
  {
    hide StrictTotal, Before;
    BeforeIsStrict(a, b, a, order, less);
  }

  /** The order does not depend on the order of the input, nor on how it was found. */
  lemma {:induction false} OrderIsUnique(g: Graph, a: seq<Package>, la: seq<nat>, b: seq<Package>, lb: seq<nat>,
                                         order: seq<string>, less: Less)
    requires StrictTotal(less) && multiset(a) == multiset(b)
    requires IsTopological(g, a, la, order, less) && IsTopological(g, b, lb, order, less)
    ensures a == b
  {
    hide StrictTotal, Earlier, LongestChain;
    if a != [] && b != [] {
      SameFirst(g, a, la, b, lb, order, less);
      TailIsTopological(g, a, la, order, less);
      TailIsTopological(g, b, lb, order, less);
      hide IsTopological;
      SameTails(a, b);
      OrderIsUnique(g, a[1..], la[1..], b[1..], lb[1..], order, less);
    } else {
      hide IsTopological;
      assert |multiset(a)| == |a| && |multiset(b)| == |b|;
    }
  }

  lemma {:induction false} SameTails(a: seq<Package>, b: seq<Package>)
    requires a != [] && b != [] && a[0] == b[0] && multiset(a) == multiset(b)
    ensures multiset(a[1..]) == multiset(b[1..])
    ensures a[1..] == b[1..] ==> a == b
  {
    assert a == [a[0]] + a[1..] && b == [b[0]] + b[1..];
    assert multiset(a[1..]) == multiset(a) - multiset{a[0]};
    assert multiset(b[1..]) == multiset(b) - multiset{b[0]};
  }

  lemma {:induction false} TailIsTopological(g: Graph, a: seq<Package>, la: seq<nat>, order: seq<string>, less: Less)
    requires a != [] && IsTopological(g, a, la, order, less)
    ensures IsTopological(g, a[1..], la[1..], order, less)
  {
    hide Earlier, LongestChain;
  }

  lemma {:induction false} SameFirst(g: Graph, a: seq<Package>, la: seq<nat>, b: seq<Package>, lb: seq<nat>,
                                     order: seq<string>, less: Less)
    requires StrictTotal(less) && multiset(a) == multiset(b) && a != [] && b != []
    requires IsTopological(g, a, la, order, less) && IsTopological(g, b, lb, order, less)
    ensures a[0] == b[0]
  {
    hide StrictTotal, Earlier, LongestChain;
    if a[0] != b[0] {
      assert a[0] in multiset(b) && b[0] in multiset(a);
      var i :| 0 <= i < |b| && b[i] == a[0];
      var j :| 0 <= j < |a| && a[j] == b[0];
      LongestChainIsUnique(g, a[0].short, la[0], lb[i]);
      LongestChainIsUnique(g, b[0].short, lb[0], la[j]);
      assert Earlier(b[0], lb[0], b[i], lb[i], order, less);
      assert Earlier(a[0], la[0], a[j], la[j], order, less);
      EarlierIsAsymmetric(a[0], la[0], a[j], la[j], order, less);
      assert false;
    }
  }

  /** Sorting the same packages in another input order gives the same list. */
  lemma {:induction false} GraphIgnoresOrder(a: seq<Package>, b: seq<Package>)
    requires Unique(a) && Unique(b) && multiset(a) == multiset(b)
    ensures GraphOf(a) == GraphOf(b)
  {
    hide Unique, GraphOf;
    GraphOfSpec(a);
    GraphOfSpec(b);
    SortedNames(a, b);
    forall n | n in GraphOf(a)
      ensures GraphOf(a)[n] == GraphOf(b)[n]
    {
      var p :| p in a && p.short == n;
      assert p in b;
    }
  }

  /** Dependencies come first. */
  lemma {:induction false} DependenciesFirst(g: Graph, pkgs: seq<Package>, layers: seq<nat>, order: seq<string>,
                                             less: Less, i: nat, j: nat)
    requires IsTopological(g, pkgs, layers, order, less) && i < |pkgs| && j < |pkgs|
    requires Edge(g, pkgs[i].short, pkgs[j].short)
    ensures j < i
  {
    hide Before;
    var n, d := pkgs[i].short, pkgs[j].short;
    var p :| ChainFrom(g, p, d) && |p| == layers[j] + 1;
    var q := [n] + p;
    forall k | 0 <= k < |q| - 1
      ensures Hop(g, q, k)
    {
      if k > 0 {
        assert Hop(g, p, k - 1);
      }
    }
    assert ChainFrom(g, q, n);
    assert layers[j] < layers[i];
  }

  /** Two inputs with the same packages are sorted alike. */
  lemma {:induction false} InputOrderDoesNotMatter(a: seq<Package>, b: seq<Package>, sortedA: seq<Package>,
                                                   la: seq<nat>,
                                                   sortedB: seq<Package>, lb: seq<nat>, order: seq<string>, less: Less)
    requires StrictTotal(less) && Unique(a) && Unique(b) && multiset(a) == multiset(b)
    requires multiset(sortedA) == multiset(a) && IsTopological(GraphOf(a), sortedA, la, order, less)
    requires multiset(sortedB) == multiset(b) && IsTopological(GraphOf(b), sortedB, lb, order, less)
    ensures sortedA == sortedB
  {
    hide StrictTotal, Unique, GraphOf, IsTopological;
    GraphIgnoresOrder(a, b);
    OrderIsUnique(GraphOf(a), sortedA, la, sortedB, lb, order, less);
  }
}
