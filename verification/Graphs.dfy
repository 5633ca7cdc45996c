/**
 * Directed graphs given by adjacency lists, as the tooling scripts keep them: walks, cycles, and
 * the one pigeonhole argument that every "this cannot get stuck" claim in this project rests on.
 */
module Graphs {
  /** Adjacency lists by node name; a name that is not a key has no outgoing edge. */
  type Graph = map<string, seq<string>>

  predicate Edge(g: Graph, a: string, b: string) {
    a in g && b in g[a]
  }

  /** The `i`th hop of a walk. */
  predicate Hop(g: Graph, p: seq<string>, i: int) {
    0 <= i < |p| - 1 && Edge(g, p[i], p[i + 1])
  }

  ghost predicate IsWalk(g: Graph, p: seq<string>) {
    forall i :: 0 <= i < |p| - 1 ==> Hop(g, p, i)
  }

  /** A closed walk with at least one edge. */
  ghost predicate IsCycle(g: Graph, p: seq<string>) {
    |p| >= 2 && p[0] == p[|p| - 1] && IsWalk(g, p)
  }

  /** A cycle that passes through no node twice, apart from its two equal ends. */
  ghost predicate IsSimpleCycle(g: Graph, p: seq<string>) {
    IsCycle(g, p) && forall i, j :: 0 <= i < j < |p| - 1 ==> p[i] != p[j]
  }

  ghost predicate Acyclic(g: Graph) {
    forall p: seq<string> :: !IsCycle(g, p)
  }

  /** `rank` orders its keys so that every edge into a known node goes strictly down. */
  ghost predicate Ranked(g: Graph, rank: map<string, nat>) {
    forall a, b {:trigger Edge(g, a, b)} :: a in rank && b in g && Edge(g, a, b) ==> b in rank && rank[b] < rank[a]
  }

  lemma {:induction false} WalkDescends(g: Graph, rank: map<string, nat>, p: seq<string>)
    requires Ranked(g, rank)
    requires |p| > 0 && p[0] in rank && IsWalk(g, p)
    requires forall x :: x in p ==> x in g
    ensures p[|p| - 1] in rank && rank[p[|p| - 1]] + |p| - 1 <= rank[p[0]]
  {
    if |p| > 1 {
      assert Hop(g, p, 0);
      assert p[1] in p;
      WalkSuffix(g, p, 1);
      WalkDescends(g, rank, p[1..]);
    }
  }

  /** A graph whose every node is ranked has no cycle. */
  lemma RankedIsAcyclic(g: Graph, rank: map<string, nat>)
    requires Ranked(g, rank) && g.Keys <= rank.Keys
    ensures Acyclic(g)
  {
    forall p: seq<string>
      ensures !IsCycle(g, p)
    {
      if IsCycle(g, p) {
        assert Hop(g, p, 0);
        forall x | x in p
          ensures x in g
        {
          var i :| 0 <= i < |p| && p[i] == x;
          if i < |p| - 1 {
            assert Hop(g, p, i);
          }
        }
        WalkDescends(g, rank, p);
      }
    }
  }

  /** Two equal entries in any sequence longer than the set it draws from. */
  lemma {:induction false} Pigeonhole(p: seq<string>, s: set<string>) returns (i: nat, j: nat)
    requires |p| > |s| && forall x :: x in p ==> x in s
    ensures i < j < |p| && p[i] == p[j]
  {
    var last := |p| - 1;
    if p[last] in p[..last] {
      i :| 0 <= i < last && p[i] == p[last];
      j := last;
    } else {
      i, j := Pigeonhole(p[..last], s - {p[last]});
    }
  }

  /** Some edge leads from `a` into `s`. */
  ghost predicate LeadsInto(g: Graph, a: string, s: set<string>) {
    exists b :: b in s && Edge(g, a, b)
  }

  /** A walk of any length inside a set from which every node has an edge back into the set. */
  lemma {:induction false} WalkInside(g: Graph, s: set<string>, start: string, n: nat) returns (p: seq<string>)
    requires start in s
    requires forall a :: a in s ==> LeadsInto(g, a, s)
    ensures |p| == n + 1 && p[0] == start && IsWalk(g, p) && forall x :: x in p ==> x in s
  {
    if n == 0 {
      p := [start];
    } else {
      var q := WalkInside(g, s, start, n - 1);
      assert q[n - 1] in q;
      assert LeadsInto(g, q[n - 1], s);
      var b :| b in s && Edge(g, q[n - 1], b);
      p := q + [b];
      WalkAppend(g, q, b);
    }
  }

  /** A non-empty set from which every node has an edge back into the set contains a cycle. */
  lemma StuckSetHasCycle(g: Graph, s: set<string>) returns (cycle: seq<string>)
    requires s != {}
    requires forall a :: a in s ==> LeadsInto(g, a, s)
    ensures IsCycle(g, cycle) && forall x :: x in cycle ==> x in s
  {
    var start :| start in s;
    var p := WalkInside(g, s, start, |s|);
    var i, j := Pigeonhole(p, s);
    cycle := p[i..][..j + 1 - i];
    WalkSuffix(g, p, i);
    forall k | 0 <= k < |cycle| - 1
      ensures Hop(g, cycle, k)
    {
      assert Hop(g, p[i..], k);
    }
  }

  lemma WalkAppend(g: Graph, p: seq<string>, b: string)
    requires IsWalk(g, p)
    requires |p| > 0 ==> Edge(g, p[|p| - 1], b)
    ensures IsWalk(g, p + [b])
  {
    var q := p + [b];
    forall i | 0 <= i < |q| - 1
      ensures Hop(g, q, i)
    {
      if i < |p| - 1 {
        assert Hop(g, p, i);
      }
    }
  }

  lemma WalkSuffix(g: Graph, p: seq<string>, start: nat)
    requires IsWalk(g, p) && start <= |p|
    ensures IsWalk(g, p[start..])
  {
    var q := p[start..];
    forall i | 0 <= i < |q| - 1
      ensures Hop(g, q, i)
    {
      assert Hop(g, p, start + i);
    }
  }
}
