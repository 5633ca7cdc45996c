/** Layered topological sort of workspace packages, and its closed form. */
module PackageGraph {
  import opened Graphs

  datatype Package = Package(short: string, group: string, deps: seq<string>)

  /** A locale's comparison of strings. */
  type Less = (string, string) -> bool

  ghost predicate StrictTotal(less: Less) {
    && (forall a :: !less(a, a))
    && (forall a, b :: a == b || less(a, b) || less(b, a))
    && (forall a, b, c :: less(a, b) && less(b, c) ==> less(a, c))
  }

  /** The position of a group in the caller's order, or the length when it is not listed. */
  function GroupRank(group: string, order: seq<string>): nat {
    if order == [] || order[0] == group then 0 else 1 + GroupRank(group, order[1..])
  }

  /** `comparePackages(a, b) < 0` */
  predicate Before(a: Package, b: Package, order: seq<string>, less: Less) {
    var ra, rb := GroupRank(a.group, order), GroupRank(b.group, order);
    if ra != rb then ra < rb
    else if a.group != b.group then less(a.group, b.group)
    else less(a.short, b.short)
  }

  lemma {:induction false} BeforeIsStrict(a: Package, b: Package, c: Package, order: seq<string>, less: Less)
    requires StrictTotal(less)
    ensures !Before(a, a, order, less)
    ensures a.short != b.short ==> Before(a, b, order, less) || Before(b, a, order, less)
    ensures Before(a, b, order, less) && Before(b, c, order, less) ==> Before(a, c, order, less)
  {
  }

  /** The group stands in the caller's order first at position `i`. */
  predicate StandsFirst(group: string, order: seq<string>, i: nat) {
    i < |order| && order[i] == group && group !in order[..i]
  }

  /** The first group is listed, and the second is listed later or not at all. */
  ghost predicate ListedBefore(a: string, b: string, order: seq<string>) {
    exists i: nat :: StandsFirst(a, order, i) && b !in order[..i + 1]
  }

  lemma {:induction false} RankIsExact(group: string, order: seq<string>)
    ensures var rank := GroupRank(group, order);
            rank <= |order| && group !in order[..rank] && (rank < |order| ==> StandsFirst(group, order, rank))
    ensures group !in order <==> GroupRank(group, order) == |order|
  {
    if order != [] && order[0] != group {
      var rank := GroupRank(group, order[1..]);
      RankIsExact(group, order[1..]);
      assert order[..rank + 1] == [order[0]] + order[1..][..rank];
      assert order == [order[0]] + order[1..];
    }
  }

  lemma {:induction false} RankOrder(a: string, b: string, order: seq<string>)
    ensures GroupRank(a, order) < GroupRank(b, order) <==> ListedBefore(a, b, order)
    ensures GroupRank(a, order) == GroupRank(b, order) <==> a == b || (a !in order && b !in order)
  {
    RankIsExact(a, order);
    RankIsExact(b, order);
    hide GroupRank;
    var ra, rb := GroupRank(a, order), GroupRank(b, order);
    if ra < rb {
      assert order[..rb][..ra + 1] == order[..ra + 1];
      assert StandsFirst(a, order, ra) && b !in order[..ra + 1];
    }
    if i: nat :| StandsFirst(a, order, i) && b !in order[..i + 1] {
      assert a in order[..i + 1];
    }
    if ra == rb < |order| {
      assert order[ra] == a == b;
    }
  }

  /**
   * Groups come in the caller's order, the others after them in the locale's; and within a group packages
   * come in the locale's order of their names.
   */
  lemma {:induction false} BeforeIsExact(a: Package, b: Package, order: seq<string>, less: Less)
    ensures Before(a, b, order, less) <==>
      || ListedBefore(a.group, b.group, order)
      || (a.group != b.group && a.group !in order && b.group !in order && less(a.group, b.group))
      || (a.group == b.group && less(a.short, b.short))
  {
    RankOrder(a.group, b.group, order);
    RankOrder(b.group, a.group, order);
  }

  // ---- The packages as a graph ----

  function Names(pkgs: seq<Package>): set<string> {
    set p | p in pkgs :: p.short
  }

  predicate Unique(pkgs: seq<Package>) {
    forall i, j :: 0 <= i < j < |pkgs| ==> pkgs[i].short != pkgs[j].short
  }

  function GraphOf(pkgs: seq<Package>): Graph {
    if pkgs == [] then map[] else GraphOf(pkgs[1..])[pkgs[0].short := pkgs[0].deps]
  }

  lemma {:induction false} UniqueRest(pkgs: seq<Package>)
    requires Unique(pkgs) && pkgs != []
    ensures Unique(pkgs[1..]) && forall p :: p in pkgs[1..] ==> p.short != pkgs[0].short
  {
    var rest := pkgs[1..];
    forall i, j | 0 <= i < j < |rest|
      ensures rest[i].short != rest[j].short
    {
      assert pkgs[i + 1].short != pkgs[j + 1].short;
    }
    forall p | p in rest
      ensures p.short != pkgs[0].short
    {
      var k :| 0 <= k < |rest| && rest[k] == p;
      assert pkgs[k + 1] == p;
    }
  }

  lemma {:induction false} GraphOfSpec(pkgs: seq<Package>)
    requires Unique(pkgs)
    ensures GraphOf(pkgs).Keys == Names(pkgs)
    ensures forall p :: p in pkgs ==> p.short in GraphOf(pkgs) && GraphOf(pkgs)[p.short] == p.deps
  {
    if pkgs != [] {
      UniqueRest(pkgs);
      hide Unique;
      GraphOfSpec(pkgs[1..]);
      assert pkgs == [pkgs[0]] + pkgs[1..];
    }
  }

  /** Every dependency is a package. */
  ghost predicate Known(g: Graph) {
    forall a, b :: Edge(g, a, b) ==> b in g
  }

  // ---- Layers ----

  /** The packages placed in the first `r` rounds. */
  ghost function Placed(g: Graph, r: nat): set<string> {
    if r == 0 then {}
    else set n | n in g && AllIn(g[n], Placed(g, r - 1)) :: n
  }

  predicate AllIn(deps: seq<string>, placed: set<string>) {
    forall d :: d in deps ==> d in placed
  }

  lemma {:induction false} PlacedGrows(g: Graph, r: nat)
    ensures Placed(g, r) <= Placed(g, r + 1)
  {
    if r > 0 {
      PlacedGrows(g, r - 1);
    }
  }

  lemma {:induction false} PlacedIsMonotone(g: Graph, r: nat, q: nat)
    requires r <= q
    ensures Placed(g, r) <= Placed(g, q)
    decreases q - r
  {
    if r < q {
      PlacedGrows(g, r);
      PlacedIsMonotone(g, r + 1, q);
    }
  }

  ghost predicate InLayer(g: Graph, n: string, d: nat) {
    n in Placed(g, d + 1) && n !in Placed(g, d)
  }

  /** The longest dependency chain from `n` has `d` edges. */
  ghost predicate LongestChain(g: Graph, n: string, d: nat) {
    && (exists p :: ChainFrom(g, p, n) && |p| == d + 1)
    && (forall p :: ChainFrom(g, p, n) ==> |p| <= d + 1)
  }

  ghost predicate ChainFrom(g: Graph, p: seq<string>, n: string) {
    |p| > 0 && p[0] == n && IsWalk(g, p)
  }

  lemma {:induction false} PlacedChainsAreShort(g: Graph, r: nat, p: seq<string>)
    requires |p| > 0 && p[0] in Placed(g, r) && IsWalk(g, p)
    ensures |p| <= r
  {
    if |p| > 1 {
      assert Hop(g, p, 0);
      WalkSuffix(g, p, 1);
      assert p[1] in g[p[0]];
      PlacedChainsAreShort(g, r - 1, p[1..]);
    }
  }

  lemma {:induction false} UnplacedHasChain(g: Graph, r: nat, n: string) returns (p: seq<string>)
    requires Known(g) && n in g && n !in Placed(g, r)
    ensures ChainFrom(g, p, n) && |p| == r + 1
  {
    if r == 0 {
      p := [n];
    } else {
      var d :| d in g[n] && d !in Placed(g, r - 1);
      assert Edge(g, n, d);
      var q := UnplacedHasChain(g, r - 1, d);
      p := [n] + q;
      forall i | 0 <= i < |p| - 1
        ensures Hop(g, p, i)
      {
        if i > 0 {
          assert Hop(g, q, i - 1);
        }
      }
    }
  }

  /** The layer of a package is the length of its longest dependency chain. */
  lemma {:induction false} LayerIsLongestChain(g: Graph, n: string, d: nat)
    requires Known(g) && InLayer(g, n, d)
    ensures LongestChain(g, n, d)
  {
    var p := UnplacedHasChain(g, d, n);
    forall q | ChainFrom(g, q, n)
      ensures |q| <= d + 1
    {
      PlacedChainsAreShort(g, d + 1, q);
    }
  }

  lemma {:induction false} LongestChainIsUnique(g: Graph, n: string, d: nat, e: nat)
    requires LongestChain(g, n, d) && LongestChain(g, n, e)
    ensures d == e
  {
    var p :| ChainFrom(g, p, n) && |p| == d + 1;
    var q :| ChainFrom(g, q, n) && |q| == e + 1;
  }

  /** Every package placed means no cycle. */
  lemma {:induction false} PlacedIsAcyclic(g: Graph, r: nat)
    requires g.Keys <= Placed(g, r)
    ensures Acyclic(g) && Known(g)
  {
    forall a, b | Edge(g, a, b)
      ensures b in g
    {
      assert a in Placed(g, r);
      PlacedKnows(g, r, a, b);
    }
    forall p: seq<string>
      ensures !IsCycle(g, p)
    {
      if IsCycle(g, p) {
        var q := GoRound(g, p, r);
        assert Hop(g, p, 0);
        PlacedChainsAreShort(g, r, q);
      }
    }
  }

  lemma {:induction false} PlacedKnows(g: Graph, r: nat, a: string, b: string)
    requires a in Placed(g, r) && Edge(g, a, b)
    ensures b in g && b in Placed(g, r)
  {
    assert b in Placed(g, r - 1);
    PlacedGrows(g, r - 1);
  }

  /** A cycle can be followed for as long as one likes. */
  lemma {:induction false} GoRound(g: Graph, p: seq<string>, n: nat) returns (q: seq<string>)
    requires IsCycle(g, p)
    ensures |q| > n && q[0] == p[0] && IsWalk(g, q)
    ensures q[|q| - 1] == p[0]
  {
    if n == 0 {
      q := p;
    } else {
      var r := GoRound(g, p, n - 1);
      q := r + p[1..];
      forall i | 0 <= i < |q| - 1
        ensures Hop(g, q, i)
      {
        if i < |r| - 1 {
          assert Hop(g, r, i);
        } else {
          assert Hop(g, p, i - (|r| - 1));
        }
      }
    }
  }
}
