/** Why each gate has the state it has, at every point of every run, and what its skip report lists. */
module GateVerdicts {
  import opened Outcomes
  import opened GateGraph
  import opened GateScheduler
  import opened Selections
  import Text

  /** A skip report names at least one need, and only needs that did not pass. */
  ghost predicate IsSkipReport(gate: Gate, states: map<string, GateState>, result: GateResult) {
    && result.(error := None) == GateResult(gate, Skipped, None, None, None)
    && exists failed: seq<string> :: NamesUnsuccessful(gate, states, failed)
         && result.error == Some("dependency failed or skipped: " + Text.Join(failed, ", "))
  }

  ghost predicate NamesUnsuccessful(gate: Gate, states: map<string, GateState>, failed: seq<string>) {
    failed != [] && forall i :: 0 <= i < |failed| ==> failed[i] in gate.needs && Unsuccessful(states, failed[i])
  }

  /** The gate ran because all its needs passed, and its result is its own outcome. */
  ghost predicate Ran(execute: Gate -> GateResult, s: Sched, gate: Gate)
    requires gate.id in s.results
  {
    DependenciesPassed(gate, s.states) && s.results[gate.id] == execute(gate)
  }

  ghost predicate WasSkipped(s: Sched, gate: Gate)
    requires gate.id in s.results
  {
    Blocked(gate, s.states) && IsSkipReport(gate, s.states, s.results[gate.id])
  }

  /** How one gate's state, its result and its needs hang together. */
  ghost predicate Justified(execute: Gate -> GateResult, s: Sched, gate: Gate)
    requires gate.id in s.states
  {
    match s.states[gate.id]
    case Pending => gate.id !in s.results
    case Running => gate.id !in s.results && DependenciesPassed(gate, s.states)
    case Settled(status) =>
      && gate.id in s.results
      && s.results[gate.id].status == status
      && (Ran(execute, s, gate) || WasSkipped(s, gate))
  }

  ghost predicate AllJustified(gates: seq<Gate>, execute: Gate -> GateResult, s: Sched) {
    && s.results.Keys <= s.states.Keys == Ids(gates)
    && forall i :: 0 <= i < |gates| ==> gates[i].id in s.states && Justified(execute, s, gates[i])
  }

  /** Settled states and their results never change again. */
  ghost predicate Later(s: Sched, t: Sched) {
    && s.states.Keys == t.states.Keys
    && (forall id :: id in s.states && s.states[id].Settled? ==> t.states[id] == s.states[id])
    && (forall id :: id in s.states && s.states[id] == Running ==> t.states[id] != Pending)
    && (forall id :: id in s.results ==> id in t.results && t.results[id] == s.results[id])
  }

  lemma LaterKeepsNeeds(s: Sched, t: Sched, gate: Gate)
    requires Later(s, t)
    ensures DependenciesPassed(gate, s.states) ==> DependenciesPassed(gate, t.states)
    ensures Blocked(gate, s.states) ==> Blocked(gate, t.states)
  {
    if Blocked(gate, s.states) {
      var i :| 0 <= i < |gate.needs| && Unsuccessful(s.states, gate.needs[i]);
      assert Unsuccessful(t.states, gate.needs[i]);
    }
    if DependenciesPassed(gate, s.states) {
      forall i | 0 <= i < |gate.needs|
        ensures InState(t.states, gate.needs[i], Settled(Passed))
      {
        assert InState(s.states, gate.needs[i], Settled(Passed));
      }
    }
  }

  lemma LaterKeepsReport(s: Sched, t: Sched, gate: Gate, result: GateResult)
    requires Later(s, t) && IsSkipReport(gate, s.states, result)
    ensures IsSkipReport(gate, t.states, result)
  {
    var failed: seq<string> :| NamesUnsuccessful(gate, s.states, failed)
      && result.error == Some("dependency failed or skipped: " + Text.Join(failed, ", "));
    forall i | 0 <= i < |failed|
      ensures Unsuccessful(t.states, failed[i])
    {
      assert Unsuccessful(s.states, failed[i]);
    }
    assert NamesUnsuccessful(gate, t.states, failed);
  }

  lemma LaterKeepsJustified(execute: Gate -> GateResult, s: Sched, t: Sched, gate: Gate)
    requires Later(s, t) && gate.id in s.states && Justified(execute, s, gate)
    requires t.states[gate.id] == s.states[gate.id]
    requires gate.id in t.results ==> gate.id in s.results
    ensures Justified(execute, t, gate)
  {
    LaterKeepsNeeds(s, t, gate);
    if s.states[gate.id].Settled? && WasSkipped(s, gate) {
      LaterKeepsReport(s, t, gate, s.results[gate.id]);
    }
  }

  /** The skip report built when a gate is skipped is a skip report. */
  lemma SkipReportIsOne(gate: Gate, states: map<string, GateState>)
    requires Blocked(gate, states)
    ensures IsSkipReport(gate, states, SkipResult(gate, states))
  {
    var i :| 0 <= i < |gate.needs| && Unsuccessful(states, gate.needs[i]);
    SomeNeedNamed(gate.needs, states, i);
    assert NamesUnsuccessful(gate, states, UnsuccessfulNeeds(gate.needs, states));
  }

  lemma {:induction false} SomeNeedNamed(needs: seq<string>, states: map<string, GateState>, i: nat)
    requires i < |needs| && Unsuccessful(states, needs[i])
    ensures UnsuccessfulNeeds(needs, states) != []
  {
    if i > 0 {
      SomeNeedNamed(needs[1..], states, i - 1);
    }
  }

  /** The gate an event concerns. */
  function Subject(s: Sched, e: Event): Gate
    requires e.Settle? ==> e.slot < |s.running|
  {
    match e
    case Start(gate) => gate
    case Settle(slot) => s.running[slot]
    case Skip(gate) => gate
  }

  /** An event concerns a gate of the list that has no result yet. */
  lemma SubjectUnsettled(gates: seq<Gate>, maxActive: int, execute: Gate -> GateResult, s: Sched, e: Event)
    requires UniqueIds(gates) && Bookkept(gates, maxActive, s) && Allowed(gates, maxActive, s, e)
    requires AllJustified(gates, execute, s)
    ensures var gate := Subject(s, e);
            && gate in gates && gate.id in s.states && gate.id !in s.results && !s.states[gate.id].Settled?
            && (s.states[gate.id] == Running <==> e.Settle?)
            && Justified(execute, s, gate)
  {
    var gate := Subject(s, e);
    assert gate in gates;
    var i :| 0 <= i < |gates| && gates[i] == gate;
    assert Justified(execute, s, gates[i]);
  }

  lemma {:induction false} StepIsLater(gates: seq<Gate>, maxActive: int, execute: Gate -> GateResult, s: Sched,
                                       e: Event)
    requires UniqueIds(gates) && Bookkept(gates, maxActive, s) && Allowed(gates, maxActive, s, e)
    requires AllJustified(gates, execute, s)
    ensures Later(s, Apply(execute, s, e))
  {
    SubjectUnsettled(gates, maxActive, execute, s, e);
    hide *;
    var gate := Subject(s, e);
    match e
    case Start(_) => StartIsLater(execute, s, gate);
    case Settle(slot) => SettleIsLater(execute, s, slot);
    case Skip(_) => SkipIsLater(execute, s, gate);
  }

  lemma {:induction false} StartIsLater(execute: Gate -> GateResult, s: Sched, gate: Gate)
    requires gate.id in s.states && s.states[gate.id] == Pending
    ensures Later(s, Apply(execute, s, Start(gate)))
  {
  }

  lemma {:induction false} SettleIsLater(execute: Gate -> GateResult, s: Sched, slot: nat)
    requires slot < |s.running| && s.running[slot].id in s.states && !s.states[s.running[slot].id].Settled?
    requires s.running[slot].id !in s.results
    ensures Later(s, Apply(execute, s, Settle(slot)))
  {
  }

  lemma {:induction false} SkipIsLater(execute: Gate -> GateResult, s: Sched, gate: Gate)
    requires gate.id in s.states && !s.states[gate.id].Settled? && gate.id !in s.results
    ensures Later(s, Apply(execute, s, Skip(gate)))
  {
    hide SkipResult;
  }

  lemma {:induction false} SubjectJustified(gates: seq<Gate>, maxActive: int, execute: Gate -> GateResult, s: Sched,
                                            e: Event)
    requires UniqueIds(gates) && Bookkept(gates, maxActive, s) && Allowed(gates, maxActive, s, e)
    requires AllJustified(gates, execute, s)
    ensures Subject(s, e).id in Ids(gates) && Justified(execute, Apply(execute, s, e), Subject(s, e))
  {
    var t := Apply(execute, s, e);
    var gate := Subject(s, e);
    StepIsLater(gates, maxActive, execute, s, e);
    SubjectUnsettled(gates, maxActive, execute, s, e);
    LaterKeepsNeeds(s, t, gate);
    if e.Skip? {
      SkipReportIsOne(gate, s.states);
      LaterKeepsReport(s, t, gate, SkipResult(gate, s.states));
    }
  }

  lemma {:induction false} JustifiedStep(gates: seq<Gate>, maxActive: int, execute: Gate -> GateResult, s: Sched,
                                         e: Event)
    requires UniqueIds(gates) && Bookkept(gates, maxActive, s) && Allowed(gates, maxActive, s, e)
    requires AllJustified(gates, execute, s)
    ensures AllJustified(gates, execute, Apply(execute, s, e))
  {
    hide Bookkept, Later, Justified, UniqueIds;
    var t := Apply(execute, s, e);
    StepIsLater(gates, maxActive, execute, s, e);
    SubjectUnsettled(gates, maxActive, execute, s, e);
    SubjectJustified(gates, maxActive, execute, s, e);
    forall i | 0 <= i < |gates|
      ensures gates[i].id in t.states && Justified(execute, t, gates[i])
    {
      if gates[i].id == Subject(s, e).id {
        SameIdSameGate(gates, gates[i], Subject(s, e));
      } else {
        LaterKeepsJustified(execute, s, t, gates[i]);
      }
    }
  }

  /** At every point of every run each gate's state is justified by its needs and its own outcome. */
  lemma {:induction false} AlwaysJustified(gates: seq<Gate>, maxActive: int, execute: Gate -> GateResult,
                                           trace: seq<Event>)
    requires UniqueIds(gates) && maxActive >= 0 && SafeRun(gates, maxActive, execute, trace)
    ensures AllJustified(gates, execute, After(gates, execute, trace))
  {
    if trace != [] {
      var before := trace[..|trace| - 1];
      AlwaysJustified(gates, maxActive, execute, before);
      AlwaysBookkept(gates, maxActive, execute, before);
      JustifiedStep(gates, maxActive, execute, After(gates, execute, before), trace[|trace| - 1]);
    }
  }

  // ---- What a skip report names ----

  function DidNotSucceed(states: map<string, GateState>): string -> bool {
    id => Unsuccessful(states, id)
  }

  /** The result is a skip whose text names exactly the needs unsuccessful in these states, in their order. */
  ghost predicate ReportsNeeds(needs: seq<string>, states: map<string, GateState>, result: GateResult) {
    result.status == Skipped &&
    exists names: seq<string> ::
      && IsSelection(needs, DidNotSucceed(states), names)
      && result.error == Some("dependency failed or skipped: " + Text.Join(names, ", "))
  }

  lemma {:induction false} UnsuccessfulSelected(needs: seq<string>, states: map<string, GateState>)
    ensures IsSelection(needs, DidNotSucceed(states), UnsuccessfulNeeds(needs, states))
  {
    hide IsSelection, Unsuccessful;
    if needs == [] {
      NothingSelected(DidNotSucceed(states));
    } else {
      UnsuccessfulSelected(needs[1..], states);
      SelectionStep(needs, DidNotSucceed(states), UnsuccessfulNeeds(needs[1..], states));
      assert [] + UnsuccessfulNeeds(needs[1..], states) == UnsuccessfulNeeds(needs[1..], states);
    }
  }

  lemma {:induction false} SkipReports(gate: Gate, states: map<string, GateState>)
    ensures ReportsNeeds(gate.needs, states, SkipResult(gate, states))
  {
    UnsuccessfulSelected(gate.needs, states);
    hide IsSelection, UnsuccessfulNeeds;
  }

  /** The gate was skipped by the `k`th event, and its report lists, in order, its needs unsuccessful then. */
  ghost predicate SkippedAt(gates: seq<Gate>, execute: Gate -> GateResult, trace: seq<Event>, gate: Gate, k: nat) {
    && k < |trace| && trace[k] == Skip(gate)
    && gate.id in After(gates, execute, trace).results
    && After(gates, execute, trace).results[gate.id] == SkipResult(gate, After(gates, execute, trace[..k]).states)
    && ReportsNeeds(gate.needs, After(gates, execute, trace[..k]).states, After(gates, execute, trace).results[gate.id])
  }

  /** A gate with a result although not all its needs passed was skipped, with exactly that report. */
  lemma {:induction false} SkipReportIsExact(gates: seq<Gate>, maxActive: int, execute: Gate -> GateResult,
                                             trace: seq<Event>, gate: Gate) returns (k: nat)
    requires UniqueIds(gates) && maxActive >= 0 && SafeRun(gates, maxActive, execute, trace) && gate in gates
    requires var s := After(gates, execute, trace); gate.id in s.results && !DependenciesPassed(gate, s.states)
    ensures SkippedAt(gates, execute, trace, gate, k)
  {
    hide UniqueIds, Bookkept, AllJustified, Justified, Allowed, DependenciesPassed;
    if trace == [] {
      assert false;
    }
    var before, e := trace[..|trace| - 1], trace[|trace| - 1];
    var s := After(gates, execute, before);
    AlwaysBookkept(gates, maxActive, execute, before);
    AlwaysJustified(gates, maxActive, execute, before);
    StepIsLater(gates, maxActive, execute, s, e);
    LaterKeepsNeeds(s, After(gates, execute, trace), gate);
    if gate.id in s.results {
      k := SkipReportIsExact(gates, maxActive, execute, before, gate);
      assert before[..k] == trace[..k];
    } else {
      SubjectOf(gates, maxActive, execute, s, e, gate);
      SkipReports(gate, s.states);
      k := |before|;
      assert trace[..k] == before;
    }
  }

  /** The event that gives a gate its result concerns that gate, and settles it only when its needs passed. */
  lemma {:induction false} SubjectOf(gates: seq<Gate>, maxActive: int, execute: Gate -> GateResult, s: Sched, e: Event,
                                     gate: Gate)
    requires UniqueIds(gates) && Bookkept(gates, maxActive, s) && Allowed(gates, maxActive, s, e)
             && AllJustified(gates, execute, s)
    requires gate in gates && gate.id !in s.results && gate.id in Apply(execute, s, e).results
    ensures e == Skip(gate) || DependenciesPassed(gate, s.states)
  {
    SubjectUnsettled(gates, maxActive, execute, s, e);
    hide Bookkept, AllJustified, DependenciesPassed;
    SameIdSameGate(gates, Subject(s, e), gate);
  }

  /** The listed needs are those unsuccessful at that point, all of them, and each of them a need. */
  lemma {:induction false} ListedNeeds(needs: seq<string>, states: map<string, GateState>, id: string)
    ensures id in UnsuccessfulNeeds(needs, states) <==> id in needs && Unsuccessful(states, id)
  {
    hide Unsuccessful;
    if needs != [] {
      ListedNeeds(needs[1..], states, id);
      assert needs == [needs[0]] + needs[1..];
    }
  }
}
