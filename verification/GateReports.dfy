/**
 * When a skip report is complete: it lists the needs that were unsuccessful when the gate was skipped,
 * and the run may still skip others.
 */
module GateReports {
  import opened Outcomes
  import opened GateGraph
  import opened GateScheduler
  import opened GateVerdicts
  import opened GateIndependence

  // ---- The skip phase ----

  /** Nothing happened but that pending gates were skipped. */
  ghost predicate OnlySkipped(a: map<string, GateState>, b: map<string, GateState>) {
    && a.Keys == b.Keys
    && forall id :: id in a ==> b[id] == a[id] || (a[id] == Pending && b[id] == Settled(Skipped))
  }

  lemma {:induction false} PrefixRun(gates: seq<Gate>, maxActive: int, execute: Gate -> GateResult, trace: seq<Event>,
                                     k: nat)
    requires SafeRun(gates, maxActive, execute, trace) && k < |trace|
    ensures SafeRun(gates, maxActive, execute, trace[..k])
    ensures Allowed(gates, maxActive, After(gates, execute, trace[..k]), trace[k])
  {
    var before := trace[..|trace| - 1];
    if k < |before| {
      PrefixRun(gates, maxActive, execute, before, k);
      assert before[..k] == trace[..k];
    }
  }

  /** From a state with nothing running and nothing to start, a run only skips. */
  lemma {:induction false} SkipPhase(gates: seq<Gate>, maxActive: int, execute: Gate -> GateResult, trace: seq<Event>,
                                     k: nat)
    requires SafeRun(gates, maxActive, execute, trace) && k <= |trace|
    requires Quiet(gates, After(gates, execute, trace[..k]))
    ensures Quiet(gates, After(gates, execute, trace))
    ensures OnlySkipped(After(gates, execute, trace[..k]).states, After(gates, execute, trace).states)
  {
    if k == |trace| {
      assert trace[..k] == trace;
    } else {
      var before, e := trace[..|trace| - 1], trace[|trace| - 1];
      assert before[..k] == trace[..k];
      SkipPhase(gates, maxActive, execute, before, k);
      SkipStep(gates, maxActive, execute, After(gates, execute, before), e);
    }
  }

  lemma {:induction false} SkipStep(gates: seq<Gate>, maxActive: int, execute: Gate -> GateResult, s: Sched, e: Event)
    requires Quiet(gates, s) && Allowed(gates, maxActive, s, e)
    ensures e.Skip? && InState(s.states, e.gate.id, Pending)
    ensures Quiet(gates, Apply(execute, s, e)) && OnlySkipped(s.states, Apply(execute, s, e).states)
  {
    SkipKeepsQuiet(gates, execute, s, e.gate);
  }

  /** The state in which a gate was skipped. */
  ghost function Before(gates: seq<Gate>, execute: Gate -> GateResult, trace: seq<Event>, k: nat)
    : map<string, GateState>
    requires k <= |trace|
  {
    After(gates, execute, trace[..k]).states
  }

  /** What happened between two skips, or between a skip and the end. */
  lemma {:induction false} BetweenSkips(gates: seq<Gate>, maxActive: int, execute: Gate -> GateResult,
                                        trace: seq<Event>, k: nat, later: nat)
    requires SafeRun(gates, maxActive, execute, trace) && k < |trace| && trace[k].Skip? && k <= later <= |trace|
    ensures FirstBlocked(gates, Before(gates, execute, trace, k)) == Some(trace[k].gate)
    ensures OnlySkipped(Before(gates, execute, trace, k), Before(gates, execute, trace, later))
  {
    PrefixRun(gates, maxActive, execute, trace, k);
    if later < |trace| {
      PrefixRun(gates, maxActive, execute, trace, later);
    }
    assert trace[..|trace|] == trace;
    assert trace[..later][..k] == trace[..k];
    SkipPhase(gates, maxActive, execute, trace[..later], k);
  }

  // ---- Complete reports ----

  predicate NonePending(needs: seq<string>, states: map<string, GateState>) {
    forall n :: 0 <= n < |needs| ==> !InState(states, needs[n], Pending)
  }

  lemma {:induction false} SameListed(needs: seq<string>, a: map<string, GateState>, b: map<string, GateState>)
    requires forall n :: 0 <= n < |needs| ==> (Unsuccessful(a, needs[n]) <==> Unsuccessful(b, needs[n]))
    ensures UnsuccessfulNeeds(needs, a) == UnsuccessfulNeeds(needs, b)
  {
    if needs != [] {
      assert forall n :: 0 <= n < |needs| - 1 ==> needs[1..][n] == needs[n + 1];
      SameListed(needs[1..], a, b);
    }
  }

  /** The same needs are unsuccessful in both. */
  predicate SameUnsuccessful(needs: seq<string>, a: map<string, GateState>, b: map<string, GateState>) {
    forall n :: 0 <= n < |needs| ==> (Unsuccessful(a, needs[n]) <==> Unsuccessful(b, needs[n]))
  }

  lemma {:induction false} ListsAgree(needs: seq<string>, a: map<string, GateState>, b: map<string, GateState>)
    requires OnlySkipped(a, b) && forall id :: id in b ==> b[id].Settled?
    ensures UnsuccessfulNeeds(needs, a) == UnsuccessfulNeeds(needs, b) <==> NonePending(needs, a)
    ensures SameUnsuccessful(needs, a, b) <==> NonePending(needs, a)
  {
    if NonePending(needs, a) {
      SameListed(needs, a, b);
    } else {
      var n :| 0 <= n < |needs| && InState(a, needs[n], Pending);
      ListedNeeds(needs, a, needs[n]);
      ListedNeeds(needs, b, needs[n]);
    }
  }

  /**
   * In a finished run a skipped gate's report lists all its needs that ended unsuccessful exactly when
   * none of its needs was still pending when the gate was skipped.
   */
  lemma {:induction false} ReportIsComplete(gates: seq<Gate>, maxActive: int, execute: Gate -> GateResult,
                                            trace: seq<Event>, gate: Gate, k: nat)
    requires UniqueIds(gates) && maxActive >= 0 && SafeRun(gates, maxActive, execute, trace)
    requires Complete(gates, After(gates, execute, trace)) && SkippedAt(gates, execute, trace, gate, k)
    ensures var was, end := Before(gates, execute, trace, k), After(gates, execute, trace).states;
            && (UnsuccessfulNeeds(gate.needs, was) == UnsuccessfulNeeds(gate.needs, end) <==>
                  NonePending(gate.needs, was))
            && (SameUnsuccessful(gate.needs, was, end) <==> NonePending(gate.needs, was))
            && (NonePending(gate.needs, was) ==>
                  ReportsNeeds(gate.needs, end, After(gates, execute, trace).results[gate.id]))
  {
    BetweenSkips(gates, maxActive, execute, trace, k, |trace|);
    assert trace[..|trace|] == trace;
    AlwaysBookkept(gates, maxActive, execute, trace);
    var end := After(gates, execute, trace).states;
    forall id | id in end
      ensures end[id].Settled?
    {
      assert id in Ids(gates);
    }
    ListsAgree(gate.needs, Before(gates, execute, trace, k), end);
    SkipReports(gate, end);
  }

  // ---- A list in which needs come first ----

  predicate StandsBefore(gates: seq<Gate>, id: string, i: nat)
    requires i <= |gates|
  {
    exists j :: 0 <= j < i && gates[j].id == id
  }

  /** Every need stands in the list before the gates that need it. */
  predicate NeedsFirst(gates: seq<Gate>) {
    forall i, n :: 0 <= i < |gates| && 0 <= n < |gates[i].needs| ==> StandsBefore(gates, gates[i].needs[n], i)
  }

  lemma {:induction false} FirstBlockedIndex(gates: seq<Gate>, states: map<string, GateState>, j: nat)
    requires j < |gates| && ReadyToSkip(gates[j], states)
    ensures FirstBlocked(gates, states).Some?
    ensures exists i :: 0 <= i <= j && gates[i] == FirstBlocked(gates, states).value
  {
    if !ReadyToSkip(gates[0], states) {
      FirstBlockedIndex(gates[1..], states, j - 1);
      var i :| 0 <= i <= j - 1 && gates[1..][i] == FirstBlocked(gates[1..], states).value;
      assert gates[i + 1] == FirstBlocked(gates, states).value;
    } else {
      assert gates[0] == FirstBlocked(gates, states).value;
    }
  }

  /** Up to every pending gate of a quiet state there is one that is blocked. */
  lemma {:induction false} SomeBlockedUpTo(gates: seq<Gate>, s: Sched, j: nat) returns (h: nat)
    requires NeedsFirst(gates) && Quiet(gates, s) && NothingRuns(gates, s) && s.states.Keys == Ids(gates)
    requires j < |gates| && InState(s.states, gates[j].id, Pending)
    ensures h <= j && ReadyToSkip(gates[h], s.states)
  {
    h := j;
    if !Blocked(gates[j], s.states) {
      assert !Ready(gates[j], s.states);
      var n :| 0 <= n < |gates[j].needs| && !InState(s.states, gates[j].needs[n], Settled(Passed));
      assert StandsBefore(gates, gates[j].needs[n], j);
      var i :| 0 <= i < j && gates[i].id == gates[j].needs[n];
      assert gates[i].id in Ids(gates) && !InState(s.states, gates[i].id, Running);
      assert !Unsuccessful(s.states, gates[j].needs[n]);
      OnlyPendingLeft(s.states, gates[i].id);
      h := SomeBlockedUpTo(gates, s, i);
    }
  }

  /** The first blocked gate of such a list has no pending need. */
  lemma {:induction false} FirstBlockedIsSettled(gates: seq<Gate>, s: Sched, gate: Gate)
    requires UniqueIds(gates) && NeedsFirst(gates) && Quiet(gates, s) && NothingRuns(gates, s)
    requires s.states.Keys == Ids(gates) && FirstBlocked(gates, s.states) == Some(gate)
    ensures NonePending(gate.needs, s.states)
  {
    var i :| 0 <= i < |gates| && gates[i] == gate;
    forall n | 0 <= n < |gate.needs|
      ensures !InState(s.states, gate.needs[n], Pending)
    {
      assert StandsBefore(gates, gates[i].needs[n], i);
      var j :| 0 <= j < i && gates[j].id == gate.needs[n];
      if InState(s.states, gates[j].id, Pending) {
        var h := SomeBlockedUpTo(gates, s, j);
        FirstBlockedIndex(gates, s.states, h);
        assert false;
      }
    }
  }

  /** In such a list every skip report is complete. */
  lemma {:induction false} NeedsFirstReportsAll(gates: seq<Gate>, maxActive: int, execute: Gate -> GateResult,
                                                trace: seq<Event>, gate: Gate)
    requires UniqueIds(gates) && NeedsFirst(gates) && maxActive >= 0 && gate in gates
    requires SafeRun(gates, maxActive, execute, trace) && Complete(gates, After(gates, execute, trace))
    ensures var s := After(gates, execute, trace);
            && gate.id in s.results
            && (!DependenciesPassed(gate, s.states) ==>
                  s.results[gate.id] == SkipResult(gate, s.states)
                  && ReportsNeeds(gate.needs, s.states, s.results[gate.id]))
  {
    var s := After(gates, execute, trace);
    FinalVerdict(gates, maxActive, execute, trace, gate);
    if !DependenciesPassed(gate, s.states) {
      var k := SkipReportIsExact(gates, maxActive, execute, trace, gate);
      PrefixRun(gates, maxActive, execute, trace, k);
      var before := After(gates, execute, trace[..k]);
      AlwaysBookkept(gates, maxActive, execute, trace[..k]);
      QuietRunsNothing(gates, maxActive, before);
      FirstBlockedIsSettled(gates, before, gate);
      ReportIsComplete(gates, maxActive, execute, trace, gate, k);
    }
  }

  // ---- A need that is always left out ----

  ghost predicate Shares(gate: Gate, need: Gate) {
    forall n :: 0 <= n < |need.needs| ==> need.needs[n] in gate.needs
  }

  /**
   * A gate that stands before one of its needs, and has all the needs of that one too, never reports it
   * as skipped.
   */
  lemma {:induction false} SharedNeedIsOmitted(gates: seq<Gate>, maxActive: int, execute: Gate -> GateResult,
                                               trace: seq<Event>, i: nat, j: nat) returns (k: nat)
    requires UniqueIds(gates) && maxActive >= 0 && SafeRun(gates, maxActive, execute, trace)
    requires Complete(gates, After(gates, execute, trace))
    requires i < j < |gates| && gates[j].id in gates[i].needs && Shares(gates[i], gates[j])
    requires !DependenciesPassed(gates[j], After(gates, execute, trace).states)
    ensures SkippedAt(gates, execute, trace, gates[i], k)
    ensures gates[j].id !in UnsuccessfulNeeds(gates[i].needs, Before(gates, execute, trace, k))
  {
    hide SafeRun, After, Complete, Shares, UniqueIds, SkippedAt;
    var own := FinallySkipped(gates, maxActive, execute, trace, gates[j]);
    var n :| 0 <= n < |gates[i].needs| && gates[i].needs[n] == gates[j].id;
    assert !InState(After(gates, execute, trace).states, gates[i].needs[n], Settled(Passed));
    k := FinallySkipped(gates, maxActive, execute, trace, gates[i]);
    SkippedFirst(gates, maxActive, execute, trace, i, j, k, own);
    ListedNeeds(gates[i].needs, Before(gates, execute, trace, k), gates[j].id);
  }

  /** A gate of a finished run not all of whose needs passed was skipped. */
  lemma {:induction false} FinallySkipped(gates: seq<Gate>, maxActive: int, execute: Gate -> GateResult,
                                          trace: seq<Event>, gate: Gate) returns (k: nat)
    requires UniqueIds(gates) && maxActive >= 0 && SafeRun(gates, maxActive, execute, trace)
    requires Complete(gates, After(gates, execute, trace)) && gate in gates
    requires !DependenciesPassed(gate, After(gates, execute, trace).states)
    ensures SkippedAt(gates, execute, trace, gate, k) && k < |trace| && trace[k] == Skip(gate)
    ensures InState(After(gates, execute, trace).states, gate.id, Settled(Skipped))
  {
    FinalVerdict(gates, maxActive, execute, trace, gate);
    k := SkipReportIsExact(gates, maxActive, execute, trace, gate);
  }

  /** Whenever the need is blocked so is the gate, which comes first. */
  lemma {:induction false} SkippedFirst(gates: seq<Gate>, maxActive: int, execute: Gate -> GateResult,
                                        trace: seq<Event>, i: nat, j: nat, k: nat, own: nat)
    requires UniqueIds(gates) && maxActive >= 0 && SafeRun(gates, maxActive, execute, trace)
    requires i < j < |gates| && Shares(gates[i], gates[j])
    requires k < |trace| && trace[k] == Skip(gates[i]) && own < |trace| && trace[own] == Skip(gates[j])
    ensures InState(Before(gates, execute, trace, k), gates[j].id, Pending)
  {
    BetweenSkips(gates, maxActive, execute, trace, k, if own < k then k else own);
    BetweenSkips(gates, maxActive, execute, trace, own, if own < k then k else own);
    var states := Before(gates, execute, trace, own);
    BlockedTogether(gates[i], gates[j], states);
    if own < k {
      assert InState(Before(gates, execute, trace, k), gates[i].id, Pending);
      assert InState(states, gates[i].id, Pending);
      FirstBlockedIndex(gates, states, i);
      assert false;
    }
  }

  lemma {:induction false} BlockedTogether(gate: Gate, need: Gate, states: map<string, GateState>)
    requires Shares(gate, need) && Blocked(need, states)
    ensures Blocked(gate, states)
  {
    var n :| 0 <= n < |need.needs| && Unsuccessful(states, need.needs[n]);
    var m :| 0 <= m < |gate.needs| && gate.needs[m] == need.needs[n];
  }
}
