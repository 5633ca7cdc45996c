/**
 * Schedule independence, progress and the exit decision: what a caller of the gate scheduler gets
 * whichever running gate the environment lets finish first and however many slots it allows.
 */
module GateIndependence {
  import opened Outcomes
  import opened Graphs
  import opened GateGraph
  import opened GateScheduler
  import opened GateVerdicts

  /** No gate has been skipped yet: every settled gate ran. */
  ghost predicate Executing(gates: seq<Gate>, execute: Gate -> GateResult, s: Sched)
    requires AllJustified(gates, execute, s)
  {
    forall i :: 0 <= i < |gates| && s.states[gates[i].id].Settled? ==> Ran(execute, s, gates[i])
  }

  /** A state with nothing running, nothing to start and nothing skipped yet. */
  ghost predicate Quiescent(gates: seq<Gate>, execute: Gate -> GateResult, s: Sched) {
    AllJustified(gates, execute, s) && Executing(gates, execute, s) && Quiet(gates, s)
  }

  // ---- A quiescent state is unique ----

  ghost predicate Differs(s: Sched, t: Sched, id: string) {
    id in s.states && id in t.states && s.states[id] != t.states[id]
  }

  predicate NothingRuns(gates: seq<Gate>, s: Sched) {
    forall i :: 0 <= i < |gates| ==> !InState(s.states, gates[i].id, Running)
  }

  /** A gate that one quiescent state executed and the other did not has such a need itself. */
  lemma DifferenceHasCause(gates: seq<Gate>, execute: Gate -> GateResult, s: Sched, t: Sched, gate: Gate)
    returns (need: string)
    requires UniqueIds(gates) && KnownNeeds(gates) && gate in gates
    requires Quiescent(gates, execute, s) && Quiescent(gates, execute, t)
    requires NothingRuns(gates, s) && NothingRuns(gates, t)
    requires gate.id in s.states && s.states[gate.id] == Pending
    requires gate.id in t.states && t.states[gate.id] != Pending
    ensures need in gate.needs && Differs(s, t, need)
  {
    var i :| 0 <= i < |gates| && gates[i] == gate;
    assert !Ready(gates[i], s.states);
    assert Ran(execute, t, gates[i]);
    var k :| 0 <= k < |gate.needs| && !InState(s.states, gate.needs[k], Settled(Passed));
    need := gate.needs[k];
    assert InState(t.states, need, Settled(Passed));
  }

  lemma BothRanAgree(gates: seq<Gate>, execute: Gate -> GateResult, s: Sched, t: Sched, i: nat)
    requires Quiescent(gates, execute, s) && Quiescent(gates, execute, t)
    requires i < |gates|
    requires s.states[gates[i].id].Settled? && t.states[gates[i].id].Settled?
    ensures s.states[gates[i].id] == t.states[gates[i].id]
    ensures gates[i].id in s.results && gates[i].id in t.results && s.results[gates[i].id] == t.results[gates[i].id]
  {
    assert Ran(execute, s, gates[i]) && Ran(execute, t, gates[i]);
  }

  /** A difference between two quiescent states leads along a need to another difference. */
  lemma DifferenceLeadsOn(gates: seq<Gate>, execute: Gate -> GateResult, s: Sched, t: Sched, id: string)
    returns (need: string)
    requires UniqueIds(gates) && KnownNeeds(gates)
    requires Quiescent(gates, execute, s) && Quiescent(gates, execute, t)
    requires NothingRuns(gates, s) && NothingRuns(gates, t)
    requires id in Ids(gates) && Differs(s, t, id)
    ensures Edge(NeedsGraph(gates), id, need) && Differs(s, t, need)
  {
    var i :| 0 <= i < |gates| && gates[i].id == id;
    ByIdOfMember(gates, gates[i]);
    assert !InState(s.states, gates[i].id, Running) && !InState(t.states, gates[i].id, Running);
    if s.states[id] == Pending {
      need := DifferenceHasCause(gates, execute, s, t, gates[i]);
    } else if t.states[id] == Pending {
      need := DifferenceHasCause(gates, execute, t, s, gates[i]);
    } else {
      assert false;
    }
  }

  lemma QuiescentStatesAgree(gates: seq<Gate>, execute: Gate -> GateResult, s: Sched, t: Sched)
    requires Valid(gates)
    requires Quiescent(gates, execute, s) && Quiescent(gates, execute, t)
    requires NothingRuns(gates, s) && NothingRuns(gates, t)
    ensures s.states == t.states
  {
    var different := set id | id in Ids(gates) && Differs(s, t, id);
    if different != {} {
      forall id | id in different
        ensures LeadsInto(NeedsGraph(gates), id, different)
      {
        var need := DifferenceLeadsOn(gates, execute, s, t, id);
        assert need in different;
      }
      var cycle := StuckSetHasCycle(NeedsGraph(gates), different);
      assert false;
    }
    forall id | id in Ids(gates)
      ensures s.states[id] == t.states[id]
    {
      assert id !in different;
    }
  }

  lemma QuiescentResultsAgree(gates: seq<Gate>, execute: Gate -> GateResult, s: Sched, t: Sched)
    requires Quiescent(gates, execute, s) && Quiescent(gates, execute, t)
    requires s.states == t.states
    ensures s.results.Keys <= t.results.Keys
    ensures forall id :: id in s.results ==> s.results[id] == t.results[id]
  {
    forall id | id in s.results
      ensures id in t.results && s.results[id] == t.results[id]
    {
      assert id in Ids(gates);
      var i :| 0 <= i < |gates| && gates[i].id == id;
      assert Justified(execute, s, gates[i]) && Justified(execute, t, gates[i]);
      BothRanAgree(gates, execute, s, t, i);
    }
  }

  /** All schedules reach the same state by the time nothing runs and nothing can be started. */
  lemma QuiescentIsUnique(gates: seq<Gate>, execute: Gate -> GateResult, s: Sched, t: Sched)
    requires Valid(gates)
    requires Quiescent(gates, execute, s) && Quiescent(gates, execute, t)
    requires NothingRuns(gates, s) && NothingRuns(gates, t)
    ensures s == t
  {
    QuiescentStatesAgree(gates, execute, s, t);
    QuiescentResultsAgree(gates, execute, s, t);
    QuiescentResultsAgree(gates, execute, t, s);
    assert s.results.Keys == t.results.Keys;
  }

  // ---- The skip phase is a function of the quiescent state ----

  /** Skip blocked gates in aggregate order until none is left. */
  ghost function Drain(gates: seq<Gate>, s: Sched): Sched
    requires UniqueIds(gates)
    decreases PendingCount(gates, s.states)
  {
    match FirstBlocked(gates, s.states)
    case None => s
    case Some(gate) =>
      PendingDrops(gates, s.states, gate, Settled(Skipped));
      Drain(gates, Record(s, gate, SkipResult(gate, s.states)))
  }

  lemma SkipKeepsQuiet(gates: seq<Gate>, execute: Gate -> GateResult, s: Sched, gate: Gate)
    requires Quiet(gates, s) && FirstBlocked(gates, s.states) == Some(gate)
    ensures Quiet(gates, Apply(execute, s, Skip(gate)))
  {
    var t := Apply(execute, s, Skip(gate));
    forall i | 0 <= i < |gates|
      ensures !Ready(gates[i], t.states)
    {
      assert !Ready(gates[i], s.states);
    }
  }

  lemma RunningStepKeepsExecuting(gates: seq<Gate>, maxActive: int, execute: Gate -> GateResult, s: Sched, e: Event)
    requires UniqueIds(gates) && Bookkept(gates, maxActive, s) && Allowed(gates, maxActive, s, e)
    requires AllJustified(gates, execute, s) && AllJustified(gates, execute, Apply(execute, s, e))
    requires Executing(gates, execute, s) && !e.Skip?
    ensures Executing(gates, execute, Apply(execute, s, e))
  {
    var t := Apply(execute, s, e);
    StepIsLater(gates, maxActive, execute, s, e);
    SubjectUnsettled(gates, maxActive, execute, s, e);
    forall i | 0 <= i < |gates| && t.states[gates[i].id].Settled?
      ensures Ran(execute, t, gates[i])
    {
      LaterKeepsNeeds(s, t, gates[i]);
      if gates[i].id == Subject(s, e).id {
        SameIdSameGate(gates, gates[i], Subject(s, e));
      } else {
        assert Ran(execute, s, gates[i]);
      }
    }
  }

  /** The state from which the skip phase of a run started, or the run's state when it has not started. */
  lemma {:induction false} DrainOrigin(gates: seq<Gate>, maxActive: int, execute: Gate -> GateResult, trace: seq<Event>)
    returns (origin: Sched)
    requires UniqueIds(gates) && maxActive >= 0 && SafeRun(gates, maxActive, execute, trace)
    ensures AllJustified(gates, execute, After(gates, execute, trace))
    ensures
      || (origin == After(gates, execute, trace) && Executing(gates, execute, origin))
      || (&& Quiescent(gates, execute, origin) && NothingRuns(gates, origin)
          && Quiet(gates, After(gates, execute, trace))
          && Drain(gates, origin) == Drain(gates, After(gates, execute, trace)))
  {
    AlwaysJustified(gates, maxActive, execute, trace);
    if trace == [] {
      origin := After(gates, execute, trace);
    } else {
      var before, e := trace[..|trace| - 1], trace[|trace| - 1];
      var s := After(gates, execute, before);
      AlwaysBookkept(gates, maxActive, execute, before);
      origin := DrainOrigin(gates, maxActive, execute, before);
      if e.Skip? {
        SkipKeepsQuiet(gates, execute, s, e.gate);
        QuietRunsNothing(gates, maxActive, s);
      } else if origin == s && Executing(gates, execute, s) {
        RunningStepKeepsExecuting(gates, maxActive, execute, s, e);
        origin := After(gates, execute, trace);
      } else {
        assert false;
      }
    }
  }

  lemma QuietRunsNothing(gates: seq<Gate>, maxActive: int, s: Sched)
    requires Bookkept(gates, maxActive, s) && s.running == []
    ensures NothingRuns(gates, s)
  {
  }

  lemma CompleteIsQuiet(gates: seq<Gate>, maxActive: int, s: Sched)
    requires Bookkept(gates, maxActive, s) && Complete(gates, s)
    ensures Quiet(gates, s) && NothingRuns(gates, s) && FirstBlocked(gates, s.states).None?
  {
    assert s.running != [] ==> InState(s.states, s.running[0].id, Running);
  }

  /** A finished run ends where skipping from some quiescent state ends. */
  lemma FinishedRunIsDrained(gates: seq<Gate>, maxActive: int, execute: Gate -> GateResult, trace: seq<Event>)
    returns (origin: Sched)
    requires UniqueIds(gates) && maxActive >= 0 && SafeRun(gates, maxActive, execute, trace)
    requires Complete(gates, After(gates, execute, trace))
    ensures Quiescent(gates, execute, origin) && NothingRuns(gates, origin)
    ensures After(gates, execute, trace) == Drain(gates, origin)
  {
    origin := DrainOrigin(gates, maxActive, execute, trace);
    AlwaysBookkept(gates, maxActive, execute, trace);
    CompleteIsQuiet(gates, maxActive, After(gates, execute, trace));
  }

  /**
   * Schedule independence: two finished runs of one validated graph with the same outcome per gate
   * end with the same states and the same results, error texts included, whatever their slot limits
   * and whichever gates the environment let finish first.
   */
  lemma ScheduleIndependence(gates: seq<Gate>, execute: Gate -> GateResult,
                             maxActive: int, trace: seq<Event>, maxActive': int, trace': seq<Event>)
    requires Valid(gates) && maxActive >= 1 && maxActive' >= 1
    requires SafeRun(gates, maxActive, execute, trace) && Complete(gates, After(gates, execute, trace))
    requires SafeRun(gates, maxActive', execute, trace') && Complete(gates, After(gates, execute, trace'))
    ensures After(gates, execute, trace) == After(gates, execute, trace')
  {
    var origin := FinishedRunIsDrained(gates, maxActive, execute, trace);
    var origin' := FinishedRunIsDrained(gates, maxActive', execute, trace');
    QuiescentIsUnique(gates, execute, origin, origin');
  }

  /**
   * What a finished run reports for a gate: its own outcome when all its needs passed, and otherwise
   * the skip report that lists the needs unsuccessful when it was skipped.
   */
  lemma {:induction false} FinalVerdict(gates: seq<Gate>, maxActive: int, execute: Gate -> GateResult,
                                        trace: seq<Event>, gate: Gate)
    requires UniqueIds(gates) && maxActive >= 0 && gate in gates
    requires SafeRun(gates, maxActive, execute, trace) && Complete(gates, After(gates, execute, trace))
    ensures var s := After(gates, execute, trace);
            && gate.id in s.results && gate.id in s.states
            && s.states[gate.id] == Settled(s.results[gate.id].status)
            && (DependenciesPassed(gate, s.states) ==> s.results[gate.id] == execute(gate))
            && (!DependenciesPassed(gate, s.states) ==>
                  && Blocked(gate, s.states) && IsSkipReport(gate, s.states, s.results[gate.id])
                  && exists k :: SkippedAt(gates, execute, trace, gate, k))
  {
    var s := After(gates, execute, trace);
    FinalState(gates, maxActive, execute, trace, gate);
    if !DependenciesPassed(gate, s.states) {
      var k := SkipReportIsExact(gates, maxActive, execute, trace, gate);
    }
  }

  lemma {:induction false} FinalState(gates: seq<Gate>, maxActive: int, execute: Gate -> GateResult, trace: seq<Event>,
                                      gate: Gate)
    requires UniqueIds(gates) && maxActive >= 0 && gate in gates
    requires SafeRun(gates, maxActive, execute, trace) && Complete(gates, After(gates, execute, trace))
    ensures var s := After(gates, execute, trace);
            && gate.id in s.results && gate.id in s.states
            && s.states[gate.id] == Settled(s.results[gate.id].status)
            && (DependenciesPassed(gate, s.states) ==> s.results[gate.id] == execute(gate))
            && (!DependenciesPassed(gate, s.states) ==>
                  Blocked(gate, s.states) && IsSkipReport(gate, s.states, s.results[gate.id]))
  {
    var s := After(gates, execute, trace);
    AlwaysJustified(gates, maxActive, execute, trace);
    var i :| 0 <= i < |gates| && gates[i] == gate;
    assert gates[i].id in s.states && Justified(execute, s, gates[i]) && s.states[gates[i].id].Settled?;
    hide AllJustified, Complete, SafeRun, UniqueIds;
  }

  // ---- Progress ----

  lemma OnlyPendingLeft(states: map<string, GateState>, id: string)
    requires id in states && !InState(states, id, Running)
    requires !InState(states, id, Settled(Passed)) && !Unsuccessful(states, id)
    ensures InState(states, id, Pending)
  {
    match states[id]
    case Pending =>
    case Running =>
    case Settled(status) =>
      match status
      case Passed =>
      case Failed =>
      case Skipped =>
  }

  /** In a quiet state of a validated graph every pending gate has a pending need or is blocked. */
  lemma PendingHasPendingNeed(gates: seq<Gate>, maxActive: int, s: Sched, id: string) returns (need: string)
    requires UniqueIds(gates) && KnownNeeds(gates) && Bookkept(gates, maxActive, s) && Quiet(gates, s)
    requires FirstBlocked(gates, s.states).None?
    requires id in Ids(gates) && InState(s.states, id, Pending)
    ensures Edge(NeedsGraph(gates), id, need) && need in Ids(gates) && InState(s.states, need, Pending)
  {
    var i :| 0 <= i < |gates| && gates[i].id == id;
    ByIdOfMember(gates, gates[i]);
    assert !Ready(gates[i], s.states) && !ReadyToSkip(gates[i], s.states);
    var k :| 0 <= k < |gates[i].needs| && !InState(s.states, gates[i].needs[k], Settled(Passed));
    need := gates[i].needs[k];
    assert gates[i] in gates && need in gates[i].needs;
    assert HasId(gates, need);
    var j :| 0 <= j < |gates| && gates[j].id == need;
    assert !Blocked(gates[i], s.states);
    assert !Unsuccessful(s.states, gates[i].needs[k]);
    QuietRunsNothing(gates, maxActive, s);
    assert !InState(s.states, gates[j].id, Running);
    OnlyPendingLeft(s.states, need);
  }

  /** The stall the scheduler guards against cannot happen on a validated graph. */
  lemma NeverStalls(gates: seq<Gate>, maxActive: int, s: Sched)
    requires Valid(gates) && Bookkept(gates, maxActive, s) && Quiet(gates, s)
    requires exists i :: 0 <= i < |gates| && InState(s.states, gates[i].id, Pending)
    ensures FirstBlocked(gates, s.states).Some?
  {
    if FirstBlocked(gates, s.states).None? {
      var pending := set id | id in Ids(gates) && InState(s.states, id, Pending);
      var i :| 0 <= i < |gates| && InState(s.states, gates[i].id, Pending);
      assert gates[i].id in pending;
      forall id | id in pending
        ensures LeadsInto(NeedsGraph(gates), id, pending)
      {
        var need := PendingHasPendingNeed(gates, maxActive, s, id);
        assert need in pending;
      }
      var cycle := StuckSetHasCycle(NeedsGraph(gates), pending);
      assert false;
    }
  }

  /** As long as some gate is unsettled, some event can happen. */
  lemma Progress(gates: seq<Gate>, maxActive: int, s: Sched) returns (e: Event)
    requires Valid(gates) && maxActive >= 1 && Bookkept(gates, maxActive, s)
    requires !Complete(gates, s)
    ensures Allowed(gates, maxActive, s, e)
  {
    if |s.running| < maxActive && FirstReady(gates, s.states).Some? {
      e := Start(FirstReady(gates, s.states).value);
    } else if s.running != [] {
      e := Settle(0);
    } else {
      var i :| 0 <= i < |gates| && !(gates[i].id in s.states && s.states[gates[i].id].Settled?);
      QuietRunsNothing(gates, maxActive, s);
      assert InState(s.states, gates[i].id, Pending);
      NeverStalls(gates, maxActive, s);
      e := Skip(FirstBlocked(gates, s.states).value);
    }
  }

  /** No run is longer than one start and one settlement per gate. */
  lemma {:induction false} RunsAreShort(gates: seq<Gate>, maxActive: int, execute: Gate -> GateResult,
                                        trace: seq<Event>)
    requires UniqueIds(gates) && maxActive >= 0 && SafeRun(gates, maxActive, execute, trace)
    ensures |trace| + Work(gates, After(gates, execute, trace)) <= 2 * |gates|
  {
    if trace == [] {
      PendingAtMostAll(gates, Initial(gates).states);
    } else {
      var before, e := trace[..|trace| - 1], trace[|trace| - 1];
      RunsAreShort(gates, maxActive, execute, before);
      AlwaysBookkept(gates, maxActive, execute, before);
      AlwaysJustified(gates, maxActive, execute, before);
      WorkDrops(gates, maxActive, execute, After(gates, execute, before), e);
    }
  }

  /** A gate that has started never starts again. */
  lemma {:induction false} StartsOnce(gates: seq<Gate>, maxActive: int, execute: Gate -> GateResult, trace: seq<Event>,
                                      i: nat, j: nat)
    requires UniqueIds(gates) && maxActive >= 0 && SafeRun(gates, maxActive, execute, trace)
    requires i < j < |trace| && trace[i].Start? && trace[j].Start?
    ensures trace[i].gate != trace[j].gate
  {
    var before := trace[..|trace| - 1];
    if j < |trace| - 1 {
      StartsOnce(gates, maxActive, execute, before, i, j);
    } else {
      StartedIsNotPending(gates, maxActive, execute, before, i);
    }
  }

  lemma {:induction false} StartedIsNotPending(gates: seq<Gate>, maxActive: int, execute: Gate -> GateResult,
                                               trace: seq<Event>, i: nat)
    requires UniqueIds(gates) && maxActive >= 0 && SafeRun(gates, maxActive, execute, trace)
    requires i < |trace| && trace[i].Start?
    ensures var s := After(gates, execute, trace); trace[i].gate.id in s.states && s.states[trace[i].gate.id] != Pending
  {
    var before := trace[..|trace| - 1];
    if i < |trace| - 1 {
      StartedIsNotPending(gates, maxActive, execute, before, i);
      AlwaysBookkept(gates, maxActive, execute, before);
      AlwaysJustified(gates, maxActive, execute, before);
      StepIsLater(gates, maxActive, execute, After(gates, execute, before), trace[|trace| - 1]);
    }
  }

  // ---- The exit decision ----

  /** Exit status of an aggregate: failure as soon as one blocking gate did not pass. */
  function ExitCode(results: seq<GateResult>): int {
    if exists i :: 0 <= i < |results| && !results[i].gate.allowFailure && results[i].status != Passed then 1 else 0
  }

  /** What the scheduler returns for a finished run: one result per gate, in aggregate order. */
  ghost predicate Reports(gates: seq<Gate>, s: Sched, results: seq<GateResult>) {
    && |results| == |gates|
    && forall i :: 0 <= i < |gates| ==> gates[i].id in s.results && results[i] == s.results[gates[i].id]
  }

  /** `id` is `gate` itself or something it needs, directly or through other gates. */
  ghost predicate Reaches(gates: seq<Gate>, gate: Gate, id: string) {
    exists p: seq<string> :: |p| > 0 && p[0] == gate.id && p[|p| - 1] == id && IsWalk(NeedsGraph(gates), p)
  }

  ghost predicate WouldPass(gates: seq<Gate>, execute: Gate -> GateResult, id: string) {
    id in ById(gates) && execute(ById(gates)[id]).status == Passed
  }

  ghost predicate HasPassed(s: Sched, id: string) {
    InState(s.states, id, Settled(Passed))
  }

  /** In a finished run a gate passed exactly when its needs all passed and so did its own command. */
  lemma PassedMeans(gates: seq<Gate>, maxActive: int, execute: Gate -> GateResult, trace: seq<Event>, id: string)
    requires UniqueIds(gates) && maxActive >= 0 && id in ById(gates)
    requires SafeRun(gates, maxActive, execute, trace) && Complete(gates, After(gates, execute, trace))
    ensures var s := After(gates, execute, trace);
            HasPassed(s, id) <==> DependenciesPassed(ById(gates)[id], s.states) && WouldPass(gates, execute, id)
  {
    ByIdEntry(gates, id);
    FinalVerdict(gates, maxActive, execute, trace, ById(gates)[id]);
  }

  lemma {:induction false} PassedAlong(gates: seq<Gate>, maxActive: int, execute: Gate -> GateResult, trace: seq<Event>,
                                       p: seq<string>)
    requires UniqueIds(gates) && maxActive >= 0
    requires SafeRun(gates, maxActive, execute, trace) && Complete(gates, After(gates, execute, trace))
    requires |p| > 0 && IsWalk(NeedsGraph(gates), p) && p[0] in ById(gates)
    requires HasPassed(After(gates, execute, trace), p[0])
    requires KnownNeeds(gates)
    ensures WouldPass(gates, execute, p[|p| - 1])
  {
    PassedMeans(gates, maxActive, execute, trace, p[0]);
    if |p| > 1 {
      assert Hop(NeedsGraph(gates), p, 0);
      WalkSuffix(NeedsGraph(gates), p, 1);
      NeedIsKnown(gates, p[0], p[1]);
      PassedAlong(gates, maxActive, execute, trace, p[1..]);
    }
  }

  lemma NeedIsKnown(gates: seq<Gate>, id: string, need: string)
    requires KnownNeeds(gates) && Edge(NeedsGraph(gates), id, need)
    ensures need in ById(gates)
  {
    ByIdEntry(gates, id);
    assert HasId(gates, need);
    var g :| g in gates && g.id == need;
  }

  /** Everything a gate reaches would pass, so the gate passed: otherwise failures would form a cycle. */
  lemma AllReachedPass(gates: seq<Gate>, maxActive: int, execute: Gate -> GateResult, trace: seq<Event>, gate: Gate)
    requires Valid(gates) && maxActive >= 0 && gate in gates
    requires SafeRun(gates, maxActive, execute, trace) && Complete(gates, After(gates, execute, trace))
    requires forall id :: Reaches(gates, gate, id) ==> WouldPass(gates, execute, id)
    ensures HasPassed(After(gates, execute, trace), gate.id)
  {
    var s := After(gates, execute, trace);
    var failing := set id | id in ById(gates) && Reaches(gates, gate, id) && !HasPassed(s, id);
    assert Reaches(gates, gate, gate.id) by {
      assert IsWalk(NeedsGraph(gates), [gate.id]);
    }
    if failing != {} {
      forall id | id in failing
        ensures LeadsInto(NeedsGraph(gates), id, failing)
      {
        var need := FailingHasFailingNeed(gates, maxActive, execute, trace, gate, id);
        assert need in failing;
      }
      var cycle := StuckSetHasCycle(NeedsGraph(gates), failing);
      assert false;
    }
    assert gate.id !in failing;
  }

  lemma {:induction false} FailingHasFailingNeed(gates: seq<Gate>, maxActive: int, execute: Gate -> GateResult,
                                                 trace: seq<Event>, gate: Gate, id: string) returns (need: string)
    requires Valid(gates) && maxActive >= 0 && gate in gates
    requires SafeRun(gates, maxActive, execute, trace) && Complete(gates, After(gates, execute, trace))
    requires id in ById(gates) && Reaches(gates, gate, id) && !HasPassed(After(gates, execute, trace), id)
    requires WouldPass(gates, execute, id)
    ensures Edge(NeedsGraph(gates), id, need) && need in ById(gates)
    ensures Reaches(gates, gate, need) && !HasPassed(After(gates, execute, trace), need)
  {
    assert KnownNeeds(gates) && UniqueIds(gates);
    hide Valid, KnownNeeds, UniqueIds, SafeRun, Complete, WouldPass, NeedsGraph, HasPassed;
    var s := After(gates, execute, trace);
    PassedMeans(gates, maxActive, execute, trace, id);
    var needs := ById(gates)[id].needs;
    var k :| 0 <= k < |needs| && !InState(s.states, needs[k], Settled(Passed));
    need := needs[k];
    NeedIsKnown(gates, id, need);
    ReachesNeed(gates, gate, id, need);
  }

  lemma {:induction false} ReachesNeed(gates: seq<Gate>, gate: Gate, id: string, need: string)
    requires Reaches(gates, gate, id) && Edge(NeedsGraph(gates), id, need)
    ensures Reaches(gates, gate, need)
  {
    hide NeedsGraph;
    var p: seq<string> :| |p| > 0 && p[0] == gate.id && p[|p| - 1] == id && IsWalk(NeedsGraph(gates), p);
    WalkAppend(NeedsGraph(gates), p, need);
    assert (p + [need])[0] == gate.id;
  }

  /**
   * The exit decision in terms of the commands alone: an aggregate exits 0 exactly when every
   * command that a blocking gate runs or needs, through any chain of gates, passes.
   */
  lemma ExitZeroMeans(gates: seq<Gate>, maxActive: int, execute: Gate -> GateResult, trace: seq<Event>,
                      results: seq<GateResult>)
    requires Valid(gates) && maxActive >= 1
    requires SafeRun(gates, maxActive, execute, trace) && Complete(gates, After(gates, execute, trace))
    requires Reports(gates, After(gates, execute, trace), results)
    requires forall i :: 0 <= i < |gates| ==> execute(gates[i]).gate == gates[i]
    ensures ExitCode(results) == 0 <==>
      forall i, id :: 0 <= i < |gates| && !gates[i].allowFailure && Reaches(gates, gates[i], id) ==>
        WouldPass(gates, execute, id)
  {
    var s := After(gates, execute, trace);
    forall i | 0 <= i < |gates|
      ensures results[i].gate == gates[i] && (results[i].status == Passed <==> HasPassed(s, gates[i].id))
    {
      FinalVerdict(gates, maxActive, execute, trace, gates[i]);
    }
    if ExitCode(results) == 0 {
      forall i, id | 0 <= i < |gates| && !gates[i].allowFailure && Reaches(gates, gates[i], id)
        ensures WouldPass(gates, execute, id)
      {
        assert HasPassed(s, gates[i].id);
        var p: seq<string> :| |p| > 0 && p[0] == gates[i].id && p[|p| - 1] == id && IsWalk(NeedsGraph(gates), p);
        PassedAlong(gates, maxActive, execute, trace, p);
      }
    } else {
      var i :| 0 <= i < |results| && !results[i].gate.allowFailure && results[i].status != Passed;
      if forall id :: Reaches(gates, gates[i], id) ==> WouldPass(gates, execute, id) {
        AllReachedPass(gates, maxActive, execute, trace, gates[i]);
      }
    }
  }
}
