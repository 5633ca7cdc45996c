/**
 * The bounded-concurrency gate scheduler as a step system: the scheduler decides what to start and
 * what to skip, and the environment decides which running gate settles next.
 */
module GateScheduler {
  import opened Outcomes
  import opened GateGraph
  import Text

  datatype Status = Passed | Failed | Skipped

  datatype GateState = Pending | Running | Settled(status: Status)

  /** The observed outcome of one gate; output and duration carry no scheduling decision. */
  datatype GateResult = GateResult(gate: Gate, status: Status, exitCode: Option<int>,
                                   signalCode: Option<string>, error: Option<string>)

  /** The scheduler's three mutable collections. */
  datatype Sched = Sched(states: map<string, GateState>, results: map<string, GateResult>, running: seq<Gate>)

  datatype Event =
    | Start(gate: Gate)
    | Settle(slot: nat)
    | Skip(gate: Gate)

  predicate InState(states: map<string, GateState>, id: string, state: GateState) {
    id in states && states[id] == state
  }

  predicate DependenciesPassed(gate: Gate, states: map<string, GateState>) {
    forall i :: 0 <= i < |gate.needs| ==> InState(states, gate.needs[i], Settled(Passed))
  }

  predicate Unsuccessful(states: map<string, GateState>, id: string) {
    InState(states, id, Settled(Failed)) || InState(states, id, Settled(Skipped))
  }

  predicate Blocked(gate: Gate, states: map<string, GateState>) {
    exists i :: 0 <= i < |gate.needs| && Unsuccessful(states, gate.needs[i])
  }

  predicate Ready(gate: Gate, states: map<string, GateState>) {
    InState(states, gate.id, Pending) && DependenciesPassed(gate, states)
  }

  predicate ReadyToSkip(gate: Gate, states: map<string, GateState>) {
    InState(states, gate.id, Pending) && Blocked(gate, states)
  }

  /** The first ready gate in aggregate order. */
  function FirstReady(gates: seq<Gate>, states: map<string, GateState>): (found: Option<Gate>)
    ensures found.Some? ==> found.value in gates && Ready(found.value, states)
    ensures found.None? ==> forall i :: 0 <= i < |gates| ==> !Ready(gates[i], states)
  {
    if gates == [] then None
    else if Ready(gates[0], states) then Some(gates[0])
    else FirstReady(gates[1..], states)
  }

  /** The first pending gate in aggregate order with an unsuccessful need. */
  function FirstBlocked(gates: seq<Gate>, states: map<string, GateState>): (found: Option<Gate>)
    ensures found.Some? ==> found.value in gates && ReadyToSkip(found.value, states)
    ensures found.None? ==> forall i :: 0 <= i < |gates| ==> !ReadyToSkip(gates[i], states)
  {
    if gates == [] then None
    else if ReadyToSkip(gates[0], states) then Some(gates[0])
    else FirstBlocked(gates[1..], states)
  }

  function UnsuccessfulNeeds(needs: seq<string>, states: map<string, GateState>): (failed: seq<string>)
    ensures forall i :: 0 <= i < |failed| ==> failed[i] in needs && Unsuccessful(states, failed[i])
  {
    if needs == [] then []
    else (if Unsuccessful(states, needs[0]) then [needs[0]] else []) + UnsuccessfulNeeds(needs[1..], states)
  }

  function SkipResult(gate: Gate, states: map<string, GateState>): GateResult {
    GateResult(gate, Skipped, None, None,
               Some("dependency failed or skipped: " + Text.Join(UnsuccessfulNeeds(gate.needs, states), ", ")))
  }

  function Ids(gates: seq<Gate>): (ids: set<string>) {
    set i | 0 <= i < |gates| :: gates[i].id
  }

  function Initial(gates: seq<Gate>): Sched {
    Sched(map id | id in Ids(gates) :: Pending, map[], [])
  }

  function Record(s: Sched, gate: Gate, result: GateResult): Sched {
    s.(states := s.states[gate.id := Settled(result.status)], results := s.results[gate.id := result])
  }

  /** What one event does to the scheduler's collections. */
  function Apply(execute: Gate -> GateResult, s: Sched, e: Event): Sched {
    match e
    case Start(gate) => s.(states := s.states[gate.id := Running], running := s.running + [gate])
    case Settle(slot) =>
      if slot < |s.running| then
        Record(s, s.running[slot], execute(s.running[slot])).(running := s.running[..slot] + s.running[slot + 1..])
      else s
    case Skip(gate) => Record(s, gate, SkipResult(gate, s.states))
  }

  /**
   * What may happen next: the first ready gate starts while a slot is free; any running gate may
   * settle, but only once nothing more can be started; blocked gates are skipped, in aggregate
   * order, only when nothing runs and nothing can be started.
   */
  predicate Allowed(gates: seq<Gate>, maxActive: int, s: Sched, e: Event) {
    match e
    case Start(gate) => |s.running| < maxActive && FirstReady(gates, s.states) == Some(gate)
    case Settle(slot) => slot < |s.running| && (|s.running| >= maxActive || FirstReady(gates, s.states).None?)
    case Skip(gate) => Quiet(gates, s) && FirstBlocked(gates, s.states) == Some(gate)
  }

  predicate Quiet(gates: seq<Gate>, s: Sched) {
    s.running == [] && FirstReady(gates, s.states).None?
  }

  function After(gates: seq<Gate>, execute: Gate -> GateResult, trace: seq<Event>): Sched {
    if trace == [] then Initial(gates)
    else Apply(execute, After(gates, execute, trace[..|trace| - 1]), trace[|trace| - 1])
  }

  /** A run: every event was allowed where it happened, whatever the environment chose. */
  ghost predicate SafeRun(gates: seq<Gate>, maxActive: int, execute: Gate -> GateResult, trace: seq<Event>) {
    trace != [] ==>
      var before := trace[..|trace| - 1];
      && SafeRun(gates, maxActive, execute, before)
      && Allowed(gates, maxActive, After(gates, execute, before), trace[|trace| - 1])
  }

  ghost predicate Complete(gates: seq<Gate>, s: Sched) {
    forall i :: 0 <= i < |gates| ==> gates[i].id in s.states && s.states[gates[i].id].Settled?
  }

  /** All needs passed, spelled out. */
  predicate MayStart(gate: Gate, states: map<string, GateState>) {
    && gate.id in states && states[gate.id] == Pending
    && forall n :: 0 <= n < |gate.needs| ==> gate.needs[n] in states && states[gate.needs[n]] == Settled(Passed)
  }

  /** Some need failed or was skipped, spelled out. */
  predicate MustSkip(gate: Gate, states: map<string, GateState>) {
    && gate.id in states && states[gate.id] == Pending
    && exists n :: 0 <= n < |gate.needs| && gate.needs[n] in states
                   && states[gate.needs[n]] in {Settled(Failed), Settled(Skipped)}
  }

  /** The gate is the first of the list that is chosen. */
  ghost predicate IsFirst(gates: seq<Gate>, chosen: Gate -> bool, gate: Gate) {
    exists i :: FirstAt(gates, chosen, gate, i)
  }

  predicate FirstAt(gates: seq<Gate>, chosen: Gate -> bool, gate: Gate, i: int) {
    0 <= i < |gates| && gates[i] == gate && chosen(gate) && forall j :: 0 <= j < i ==> !chosen(gates[j])
  }

  lemma {:induction false} FirstStep(gates: seq<Gate>, chosen: Gate -> bool, gate: Gate)
    requires gates != []
    ensures IsFirst(gates, chosen, gate) <==>
      if chosen(gates[0]) then gate == gates[0] else IsFirst(gates[1..], chosen, gate)
  {
    var rest := gates[1..];
    assert forall k :: 0 < k < |gates| ==> gates[k] == rest[k - 1];
    if chosen(gates[0]) {
      assert FirstAt(gates, chosen, gates[0], 0);
    } else {
      if i :| FirstAt(rest, chosen, gate, i) {
        assert FirstAt(gates, chosen, gate, i + 1);
      }
      if i :| FirstAt(gates, chosen, gate, i) {
        assert FirstAt(rest, chosen, gate, i - 1);
      }
    }
  }

  function Starting(states: map<string, GateState>): Gate -> bool { gate => MayStart(gate, states) }

  function Skipping(states: map<string, GateState>): Gate -> bool { gate => MustSkip(gate, states) }

  lemma {:induction false} FirstReadyIsExact(gates: seq<Gate>, states: map<string, GateState>, gate: Gate)
    ensures FirstReady(gates, states) == Some(gate) <==> IsFirst(gates, Starting(states), gate)
  {
    hide IsFirst, MayStart, Ready;
    if gates == [] {
      NoneIsFirst(Starting(states), gate);
    } else {
      FirstReadyIsExact(gates[1..], states, gate);
      FirstStep(gates, Starting(states), gate);
      ReadyIsExact(gates[0], states);
    }
  }

  lemma {:induction false} FirstBlockedIsExact(gates: seq<Gate>, states: map<string, GateState>, gate: Gate)
    ensures FirstBlocked(gates, states) == Some(gate) <==> IsFirst(gates, Skipping(states), gate)
  {
    hide IsFirst, MustSkip, ReadyToSkip;
    if gates == [] {
      NoneIsFirst(Skipping(states), gate);
    } else {
      FirstBlockedIsExact(gates[1..], states, gate);
      FirstStep(gates, Skipping(states), gate);
      ReadyIsExact(gates[0], states);
    }
  }

  lemma {:induction false} NoneIsFirst(chosen: Gate -> bool, gate: Gate)
    ensures !IsFirst([], chosen, gate)
  {
  }

  lemma {:induction false} ReadyIsExact(gate: Gate, states: map<string, GateState>)
    ensures Ready(gate, states) <==> MayStart(gate, states)
    ensures ReadyToSkip(gate, states) <==> MustSkip(gate, states)
  {
    if n :| 0 <= n < |gate.needs| && Unsuccessful(states, gate.needs[n]) {
      assert gate.needs[n] in states;
    }
    if n :| 0 <= n < |gate.needs| && gate.needs[n] in states
            && states[gate.needs[n]] in {Settled(Failed), Settled(Skipped)} {
      assert Unsuccessful(states, gate.needs[n]);
    }
  }

  predicate NoneMayStart(gates: seq<Gate>, states: map<string, GateState>) {
    forall i :: 0 <= i < |gates| ==> !MayStart(gates[i], states)
  }

  lemma {:induction false} NoneReadyIsExact(gates: seq<Gate>, states: map<string, GateState>)
    ensures FirstReady(gates, states).None? <==> NoneMayStart(gates, states)
  {
    hide MayStart, Ready;
    forall i | 0 <= i < |gates|
      ensures Ready(gates[i], states) <==> MayStart(gates[i], states)
    {
      ReadyIsExact(gates[i], states);
    }
    if FirstReady(gates, states).Some? {
      var i :| 0 <= i < |gates| && gates[i] == FirstReady(gates, states).value;
    }
  }

  /**
   * The first gate in aggregate order whose needs all passed starts while a slot is free; a running gate
   * settles only when all slots are taken or no gate may start; and the first gate with a need that did not
   * succeed is skipped only when nothing runs and none may start.
   */
  lemma {:induction false} AllowedIsExact(gates: seq<Gate>, maxActive: int, s: Sched, e: Event)
    ensures Allowed(gates, maxActive, s, e) <==>
      match e
      case Start(gate) => |s.running| < maxActive && IsFirst(gates, Starting(s.states), gate)
      case Settle(slot) => slot < |s.running| && (|s.running| >= maxActive || NoneMayStart(gates, s.states))
      case Skip(gate) =>
        s.running == [] && NoneMayStart(gates, s.states) && IsFirst(gates, Skipping(s.states), gate)
  {
    hide IsFirst, NoneMayStart, FirstReady, FirstBlocked;
    NoneReadyIsExact(gates, s.states);
    match e
    case Start(gate) => FirstReadyIsExact(gates, s.states, gate);
    case Settle(_) =>
    case Skip(gate) => FirstBlockedIsExact(gates, s.states, gate);
  }

  lemma ExtendRun(gates: seq<Gate>, maxActive: int, execute: Gate -> GateResult, trace: seq<Event>, e: Event)
    requires SafeRun(gates, maxActive, execute, trace)
    requires Allowed(gates, maxActive, After(gates, execute, trace), e)
    ensures SafeRun(gates, maxActive, execute, trace + [e])
    ensures After(gates, execute, trace + [e]) == Apply(execute, After(gates, execute, trace), e)
  {
    assert (trace + [e])[..|trace|] == trace;
  }

  // ---- Bookkeeping: the collections agree with each other at every point of every run ----

  /** The running list holds exactly the gates in state running, once each. */
  ghost predicate Bookkept(gates: seq<Gate>, maxActive: int, s: Sched) {
    && s.states.Keys == Ids(gates)
    && |s.running| <= maxActive
    && UniqueIds(s.running)
    && (forall k :: 0 <= k < |s.running| ==> s.running[k] in gates && InState(s.states, s.running[k].id, Running))
    && (forall i :: 0 <= i < |gates| && InState(s.states, gates[i].id, Running) ==> gates[i] in s.running)
  }

  lemma BookkeptStep(gates: seq<Gate>, maxActive: int, execute: Gate -> GateResult, s: Sched, e: Event)
    requires UniqueIds(gates) && Bookkept(gates, maxActive, s) && Allowed(gates, maxActive, s, e)
    ensures Bookkept(gates, maxActive, Apply(execute, s, e))
  {
    match e
    case Start(gate) => BookkeptStart(gates, maxActive, execute, s, gate);
    case Settle(slot) => BookkeptSettle(gates, maxActive, execute, s, slot);
    case Skip(gate) =>
      assert gate.id in Ids(gates);
  }

  lemma BookkeptStart(gates: seq<Gate>, maxActive: int, execute: Gate -> GateResult, s: Sched, gate: Gate)
    requires UniqueIds(gates) && Bookkept(gates, maxActive, s) && Allowed(gates, maxActive, s, Start(gate))
    ensures Bookkept(gates, maxActive, Apply(execute, s, Start(gate)))
  {
    var t := Apply(execute, s, Start(gate));
    assert gate.id in Ids(gates);
    forall k | 0 <= k < |t.running|
      ensures t.running[k] in gates && InState(t.states, t.running[k].id, Running)
    {
      if k < |s.running| {
        assert t.running[k] == s.running[k];
      }
    }
    forall i | 0 <= i < |gates| && InState(t.states, gates[i].id, Running)
      ensures gates[i] in t.running
    {
      if gates[i].id == gate.id {
        SameIdSameGate(gates, gates[i], gate);
      } else {
        assert gates[i] in s.running;
      }
    }
  }

  lemma SameIdSameGate(gates: seq<Gate>, a: Gate, b: Gate)
    requires UniqueIds(gates) && a in gates && b in gates && a.id == b.id
    ensures a == b
  {
  }

  /** The running list without one of its slots. */
  function Without(running: seq<Gate>, slot: nat): (rest: seq<Gate>)
    requires slot < |running|
    ensures |rest| == |running| - 1
    ensures forall k :: 0 <= k < |rest| ==> rest[k] == running[if k < slot then k else k + 1]
  {
    running[..slot] + running[slot + 1..]
  }

  lemma {:induction false} StillUniqueIds(gates: seq<Gate>, slot: nat)
    requires UniqueIds(gates) && slot < |gates|
    ensures UniqueIds(Without(gates, slot))
    ensures forall k :: 0 <= k < |Without(gates, slot)| ==> Without(gates, slot)[k].id != gates[slot].id
  {
  }

  lemma {:induction false} StillListed(running: seq<Gate>, slot: nat, gate: Gate)
    requires slot < |running| && gate in running && gate != running[slot]
    ensures gate in Without(running, slot)
  {
    var k :| 0 <= k < |running| && running[k] == gate;
    assert Without(running, slot)[if k < slot then k else k - 1] == gate;
  }

  lemma {:induction false} BookkeptSettle(gates: seq<Gate>, maxActive: int, execute: Gate -> GateResult, s: Sched,
                                          slot: nat)
    requires UniqueIds(gates) && Bookkept(gates, maxActive, s) && slot < |s.running|
    ensures Bookkept(gates, maxActive, Apply(execute, s, Settle(slot)))
  {
    var t := Apply(execute, s, Settle(slot));
    var gate := s.running[slot];
    assert t.running == Without(s.running, slot);
    SettledStates(gates, execute, s, slot);
    StillUniqueIds(s.running, slot);
    hide UniqueIds, Apply, Without;
    forall k | 0 <= k < |t.running|
      ensures t.running[k] in gates && InState(t.states, t.running[k].id, Running)
    {
      assert t.running[k] == s.running[if k < slot then k else k + 1];
    }
    forall i | 0 <= i < |gates| && InState(t.states, gates[i].id, Running)
      ensures gates[i] in t.running
    {
      StillListed(s.running, slot, gates[i]);
    }
  }

  lemma {:induction false} SettledStates(gates: seq<Gate>, execute: Gate -> GateResult, s: Sched, slot: nat)
    requires slot < |s.running| && s.running[slot].id in s.states
    ensures var gate, t := s.running[slot], Apply(execute, s, Settle(slot));
            && t.states.Keys == s.states.Keys
            && (forall id :: id != gate.id ==> InState(t.states, id, Running) == InState(s.states, id, Running))
            && !InState(t.states, gate.id, Running)
  {
  }

  /** At every point of every run the bookkeeping agrees; in particular at most `maxActive` gates run. */
  lemma {:induction false} AlwaysBookkept(gates: seq<Gate>, maxActive: int, execute: Gate -> GateResult,
                                          trace: seq<Event>)
    requires UniqueIds(gates) && maxActive >= 0 && SafeRun(gates, maxActive, execute, trace)
    ensures Bookkept(gates, maxActive, After(gates, execute, trace))
  {
    if trace != [] {
      var before := trace[..|trace| - 1];
      AlwaysBookkept(gates, maxActive, execute, before);
      BookkeptStep(gates, maxActive, execute, After(gates, execute, before), trace[|trace| - 1]);
    }
  }

  // ---- The termination measure ----

  function PendingCount(gates: seq<Gate>, states: map<string, GateState>): nat {
    if gates == [] then 0
    else PendingCount(gates[..|gates| - 1], states) + if InState(states, gates[|gates| - 1].id, Pending) then 1 else 0
  }

  /** Pending gates still have a start and a settlement ahead, running gates only a settlement. */
  function Work(gates: seq<Gate>, s: Sched): nat {
    2 * PendingCount(gates, s.states) + |s.running|
  }

  lemma {:induction false} PendingAtMostAll(gates: seq<Gate>, states: map<string, GateState>)
    ensures PendingCount(gates, states) <= |gates|
  {
    if gates != [] {
      PendingAtMostAll(gates[..|gates| - 1], states);
    }
  }

  lemma {:induction false} PendingUnaffected(gates: seq<Gate>, states: map<string, GateState>, id: string,
                                             state: GateState)
    requires (forall i :: 0 <= i < |gates| ==> gates[i].id != id) || !(InState(states, id, Pending) || state == Pending)
    ensures PendingCount(gates, states[id := state]) == PendingCount(gates, states)
  {
    if gates != [] {
      PendingUnaffected(gates[..|gates| - 1], states, id, state);
    }
  }

  lemma {:induction false} PendingDrops(gates: seq<Gate>, states: map<string, GateState>, gate: Gate, state: GateState)
    requires UniqueIds(gates) && gate in gates && InState(states, gate.id, Pending) && state != Pending
    ensures PendingCount(gates, states[gate.id := state]) == PendingCount(gates, states) - 1
  {
    var last := |gates| - 1;
    if gates[last] == gate {
      PendingUnaffected(gates[..last], states, gate.id, state);
    } else {
      assert gate in gates[..last];
      PendingDrops(gates[..last], states, gate, state);
    }
  }

  /** Every event uses up some of the remaining work. */
  lemma WorkDrops(gates: seq<Gate>, maxActive: int, execute: Gate -> GateResult, s: Sched, e: Event)
    requires UniqueIds(gates) && Bookkept(gates, maxActive, s) && Allowed(gates, maxActive, s, e)
    ensures Work(gates, Apply(execute, s, e)) < Work(gates, s)
  {
    match e
    case Start(gate) => PendingDrops(gates, s.states, gate, Running);
    case Settle(slot) =>
      PendingUnaffected(gates, s.states, s.running[slot].id, Settled(execute(s.running[slot]).status));
    case Skip(gate) => PendingDrops(gates, s.states, gate, Settled(Skipped));
  }
}
