/** Gate lists, their dependency graph, and the validation that precedes every aggregate run. */
module GateGraph {
  import opened Outcomes
  import opened Graphs

  /** A gate's scheduling metadata; an absent `needs` list is the empty list. */
  datatype Gate = Gate(id: string, title: string, needs: seq<string>, allowFailure: bool)

  datatype GraphError =
    | NoGates
    | DuplicateId(id: string)
    | UnknownNeed(gate: string, need: string)
    | DependencyCycle(path: seq<string>)

  /** The gate each id names; a repeated id names its last gate, as in a `Map` built from the list. */
  function ById(gates: seq<Gate>): (byId: map<string, Gate>)
    ensures forall i :: 0 <= i < |gates| ==> gates[i].id in byId
  {
    if gates == [] then map[] else
    var byId := ById(gates[..|gates| - 1])[gates[|gates| - 1].id := gates[|gates| - 1]];
    assert forall i :: 0 <= i < |gates| - 1 ==> gates[i] == gates[..|gates| - 1][i];
    byId
  }

  /** Every entry of the map is a gate of the list, under its own id. */
  lemma {:induction false} ByIdEntry(gates: seq<Gate>, id: string)
    requires id in ById(gates)
    ensures ById(gates)[id] in gates && ById(gates)[id].id == id
  {
    if gates[|gates| - 1].id != id {
      ByIdEntry(gates[..|gates| - 1], id);
    }
  }

  function Needs(byId: map<string, Gate>): Graph {
    map id | id in byId :: byId[id].needs
  }

  function NeedsGraph(gates: seq<Gate>): Graph {
    Needs(ById(gates))
  }

  ghost predicate UniqueIds(gates: seq<Gate>) {
    forall i, j :: 0 <= i < j < |gates| ==> gates[i].id != gates[j].id
  }

  ghost predicate HasId(gates: seq<Gate>, id: string) {
    exists g :: g in gates && g.id == id
  }

  ghost predicate KnownNeeds(gates: seq<Gate>) {
    forall g, need :: g in gates && need in g.needs ==> HasId(gates, need)
  }

  /** What `ValidateGateGraph` lets through. */
  ghost predicate Valid(gates: seq<Gate>) {
    gates != [] && UniqueIds(gates) && KnownNeeds(gates) && Acyclic(NeedsGraph(gates))
  }

  lemma {:induction false} ByIdOfMember(gates: seq<Gate>, g: Gate)
    requires UniqueIds(gates) && g in gates
    ensures ById(gates)[g.id] == g
  {
    var last := |gates| - 1;
    if gates[last] != g {
      assert g in gates[..last];
      ByIdOfMember(gates[..last], g);
      var i :| 0 <= i < last && gates[i] == g;
      assert gates[i].id != gates[last].id;
    }
  }

  /**
   * The search's state between calls: finished ids are ranked by completion, and `active` indexes
   * the current path, which follows dependency edges.
   */
  ghost predicate Searching(byId: map<string, Gate>, complete: set<string>, active: map<string, nat>,
                            path: seq<string>, rank: map<string, nat>)
  {
    && Finished(byId, complete, rank)
    && IsWalk(Needs(byId), path)
    && (forall i :: 0 <= i < |path| ==> path[i] in byId && path[i] in active && active[path[i]] == i)
    && (forall id :: id in active ==> id in path)
    && complete !! active.Keys
  }

  ghost predicate Finished(byId: map<string, Gate>, complete: set<string>, rank: map<string, nat>) {
    && rank.Keys == complete <= byId.Keys
    && Ranked(Needs(byId), rank)
    && forall id :: id in rank ==> rank[id] < |complete|
  }

  lemma EnterNode(byId: map<string, Gate>, complete: set<string>, active: map<string, nat>,
                  path: seq<string>, rank: map<string, nat>, id: string)
    requires Searching(byId, complete, active, path, rank)
    requires id in byId && id !in complete && id !in active
    requires |path| > 0 ==> Edge(Needs(byId), path[|path| - 1], id)
    ensures Searching(byId, complete, active[id := |path|], path + [id], rank)
  {
    WalkAppend(Needs(byId), path, id);
  }

  /** Meeting an active node again closes a cycle that visits no other node twice. */
  lemma CloseCycle(byId: map<string, Gate>, complete: set<string>, active: map<string, nat>,
                   path: seq<string>, rank: map<string, nat>, id: string)
    requires Searching(byId, complete, active, path, rank)
    requires id in active
    requires |path| > 0 ==> Edge(Needs(byId), path[|path| - 1], id)
    ensures active[id] < |path| && IsSimpleCycle(Needs(byId), path[active[id]..] + [id])
  {
    WalkSuffix(Needs(byId), path, active[id]);
    WalkAppend(Needs(byId), path[active[id]..], id);
  }

  /** Every known id in the list has been finished. */
  predicate Covered(byId: map<string, Gate>, needs: seq<string>, complete: set<string>) {
    forall i :: 0 <= i < |needs| && needs[i] in byId ==> needs[i] in complete
  }

  lemma CoverNext(byId: map<string, Gate>, needs: seq<string>, i: nat, complete: set<string>, complete': set<string>)
    requires i < |needs| && Covered(byId, needs[..i], complete) && complete <= complete'
    requires needs[i] in byId ==> needs[i] in complete'
    ensures Covered(byId, needs[..i + 1], complete')
  {
    forall j | 0 <= j < i && needs[j] in byId
      ensures needs[j] in complete'
    {
      assert needs[..i][j] == needs[j];
    }
  }

  lemma LeaveNode(byId: map<string, Gate>, complete: set<string>, active: map<string, nat>,
                  path: seq<string>, rank: map<string, nat>, id: string)
    requires id in byId && id !in active
    requires Searching(byId, complete, active[id := |path|], path + [id], rank)
    requires Covered(byId, byId[id].needs, complete)
    ensures Searching(byId, complete + {id}, active, path, rank[id := |complete|])
    ensures (path + [id])[..|path|] == path && active[id := |path|] - {id} == active
  {
    FinishNode(byId, complete, rank, id);
    forall i | 0 <= i < |path|
      ensures path[i] in byId && path[i] in active && active[path[i]] == i
      ensures i < |path| - 1 ==> Hop(Needs(byId), path, i)
    {
      assert (path + [id])[i] == path[i];
      assert i < |path| - 1 ==> Hop(Needs(byId), path + [id], i);
    }
    forall a | a in active
      ensures a in path
    {
      assert a in path + [id];
    }
  }

  lemma FinishNode(byId: map<string, Gate>, complete: set<string>, rank: map<string, nat>, id: string)
    requires Finished(byId, complete, rank)
    requires id in byId && id !in complete && Covered(byId, byId[id].needs, complete)
    ensures Finished(byId, complete + {id}, rank[id := |complete|])
  {
  }

  /**
   * Depth-first search below `id`, the next node after the current path. The three collections the
   * source shares between calls are passed in and handed back: a search that finds no cycle restores
   * the path and the active index and only adds finished ids.
   */
  method Visit(byId: map<string, Gate>, complete: set<string>, active: map<string, nat>, path: seq<string>,
               ghost rank: map<string, nat>, id: string)
    returns (cycle: Option<seq<string>>, complete': set<string>, active': map<string, nat>, path': seq<string>,
             ghost rank': map<string, nat>)
    requires Searching(byId, complete, active, path, rank)
    requires |path| > 0 ==> Edge(Needs(byId), path[|path| - 1], id)
    ensures cycle.Some? ==> IsSimpleCycle(Needs(byId), cycle.value)
    ensures cycle.None? ==> active' == active && path' == path && complete <= complete'
    ensures cycle.None? ==> Searching(byId, complete', active, path, rank') && (id in byId ==> id in complete')
    decreases byId.Keys - active.Keys, 0
  {
    complete', active', path', rank' := complete, active, path, rank;
    if id in complete {
      return None, complete', active', path', rank';
    }
    if id in active {
      CloseCycle(byId, complete, active, path, rank, id);
      return Some(path[active[id]..] + [id]), complete', active', path', rank';
    }
    if id !in byId {
      return None, complete', active', path', rank';
    }
    EnterNode(byId, complete, active, path, rank, id);
    active' := active'[id := |path'|];
    path' := path' + [id];
    assert id in byId.Keys - active.Keys && byId.Keys - active'.Keys == byId.Keys - active.Keys - {id};
    cycle, complete', active', path', rank' := VisitNeeds(byId, complete', active', path', rank', id);
    if cycle.None? {
      LeaveNode(byId, complete', active, path, rank', id);
      path' := path'[..|path'| - 1];
      active' := active' - {id};
      rank' := rank'[id := |complete'|];
      complete' := complete' + {id};
    }
  }

  /** Search below each need of `id`, the last node of the current path. */
  method VisitNeeds(byId: map<string, Gate>, complete: set<string>, active: map<string, nat>, path: seq<string>,
                    ghost rank: map<string, nat>, id: string)
    returns (cycle: Option<seq<string>>, complete': set<string>, active': map<string, nat>, path': seq<string>,
             ghost rank': map<string, nat>)
    requires Searching(byId, complete, active, path, rank)
    requires id in byId && |path| > 0 && path[|path| - 1] == id
    ensures cycle.Some? ==> IsSimpleCycle(Needs(byId), cycle.value)
    ensures cycle.None? ==> active' == active && path' == path && complete <= complete'
    ensures cycle.None? ==> Searching(byId, complete', active, path, rank')
    ensures cycle.None? ==> Covered(byId, byId[id].needs, complete')
    decreases byId.Keys - active.Keys, 1
  {
    complete', active', path', rank' := complete, active, path, rank;
    var needs := byId[id].needs;
    for i := 0 to |needs|
      invariant active' == active && path' == path && complete <= complete'
      invariant Searching(byId, complete', active, path, rank')
      invariant Covered(byId, needs[..i], complete')
    {
      assert Edge(Needs(byId), id, needs[i]);
      ghost var before := complete';
      cycle, complete', active', path', rank' := Visit(byId, complete', active', path', rank', needs[i]);
      if cycle.Some? {
        return;
      }
      CoverNext(byId, needs, i, before, complete');
    }
    assert needs[..|needs|] == needs;
    cycle := None;
  }

  /**
   * The first dependency cycle reached from the gates in list order. Sound and complete on every
   * list, with duplicate ids and unknown needs read as the search reads them.
   */
  method FindDependencyCycle(gates: seq<Gate>) returns (cycle: Option<seq<string>>)
    ensures cycle.None? <==> Acyclic(NeedsGraph(gates))
    ensures cycle.Some? ==> IsSimpleCycle(NeedsGraph(gates), cycle.value)
  {
    var byId := ById(gates);
    var complete, active, path := {}, map[], [];
    ghost var rank := map[];
    for i := 0 to |gates|
      invariant active == map[] && path == []
      invariant Searching(byId, complete, active, path, rank)
      invariant forall j :: 0 <= j < i ==> gates[j].id in complete
    {
      cycle, complete, active, path, rank := Visit(byId, complete, active, path, rank, gates[i].id);
      if cycle.Some? {
        return;
      }
    }
    forall id | id in byId
      ensures id in complete
    {
      ByIdEntry(gates, id);
    }
    RankedIsAcyclic(NeedsGraph(gates), rank);
    return None;
  }

  /** The checks before a run, in order: a gate at all, distinct ids, known needs, no cycle. */
  method ValidateGateGraph(gates: seq<Gate>) returns (error: Option<GraphError>)
    ensures error.None? <==> Valid(gates)
    ensures error == Some(NoGates) <==> gates == []
    ensures error.Some? && error.value.DuplicateId? <==> gates != [] && !UniqueIds(gates)
    ensures error.Some? && error.value.DuplicateId? ==>
      exists i, j :: 0 <= i < j < |gates| && gates[i].id == gates[j].id == error.value.id && UniqueIds(gates[..j])
    ensures error.Some? && error.value.UnknownNeed? <==> gates != [] && UniqueIds(gates) && !KnownNeeds(gates)
    ensures error.Some? && error.value.UnknownNeed? ==>
      !HasId(gates, error.value.need)
      && exists g :: g in gates && g.id == error.value.gate && error.value.need in g.needs
    ensures error.Some? && error.value.DependencyCycle? ==> IsCycle(NeedsGraph(gates), error.value.path)
  {
    if |gates| == 0 {
      return Some(NoGates);
    }
    var ids: set<string> := {};
    for i := 0 to |gates|
      invariant UniqueIds(gates[..i])
      invariant forall j :: 0 <= j < i ==> gates[j].id in ids
      invariant forall id :: id in ids ==> exists j :: 0 <= j < i && gates[j].id == id
    {
      if gates[i].id in ids {
        return Some(DuplicateId(gates[i].id));
      }
      ids := ids + {gates[i].id};
    }
    assert gates[..|gates|] == gates;
    assert forall id :: id in ids <==> HasId(gates, id);
    for i := 0 to |gates|
      invariant forall j, need :: 0 <= j < i && need in gates[j].needs ==> HasId(gates, need)
    {
      for k := 0 to |gates[i].needs|
        invariant forall j :: 0 <= j < k ==> HasId(gates, gates[i].needs[j])
      {
        if gates[i].needs[k] !in ids {
          assert gates[i] in gates && gates[i].needs[k] in gates[i].needs;
          assert !KnownNeeds(gates);
          return Some(UnknownNeed(gates[i].id, gates[i].needs[k]));
        }
      }
    }
    var cycle := FindDependencyCycle(gates);
    return if cycle.Some? then Some(DependencyCycle(cycle.value)) else None;
  }
}
