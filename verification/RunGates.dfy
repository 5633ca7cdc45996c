/** The scheduler's loop itself, checked against the step system. */
module RunGates {
  import opened Outcomes
  import opened GateGraph
  import opened GateScheduler
  import opened GateIndependence

  const MAX_SAFE_INTEGER: int := 9007199254740991

  datatype RunError = InvalidGraph(error: GraphError) | BadConcurrency(maxActive: int)

  /**
   * Run one aggregate. `execute` is each gate's own outcome; `race(n)` picks, among the gates running
   * at the scheduler's `n`th wait, the one that settles first. The trace lists every event in order.
   */
  method RunGates(gates: seq<Gate>, maxActive: int, execute: Gate -> GateResult, race: nat -> nat)
    returns (outcome: Result<seq<GateResult>, RunError>, trace: seq<Event>)
    ensures outcome.Ok? <==> Valid(gates) && 1 <= maxActive <= MAX_SAFE_INTEGER
    ensures outcome.Err? && outcome.error.BadConcurrency? <==> Valid(gates) && !(1 <= maxActive <= MAX_SAFE_INTEGER)
    ensures outcome.Err? ==> trace == []
    ensures outcome.Ok? ==>
      && SafeRun(gates, maxActive, execute, trace)
      && Complete(gates, After(gates, execute, trace))
      && Reports(gates, After(gates, execute, trace), outcome.value)
  {
    trace := [];
    var invalid := ValidateGateGraph(gates);
    if invalid.Some? {
      return Err(InvalidGraph(invalid.value)), trace;
    }
    if !(1 <= maxActive <= MAX_SAFE_INTEGER) {
      return Err(BadConcurrency(maxActive)), trace;
    }
    var s := Initial(gates);
    var waits := 0;
    while true
      invariant s == After(gates, execute, trace) && SafeRun(gates, maxActive, execute, trace)
      decreases Work(gates, s)
    {
      ghost var workBefore := Work(gates, s);
      var madeProgress := false;
      while |s.running| < maxActive
        invariant s == After(gates, execute, trace) && SafeRun(gates, maxActive, execute, trace)
        invariant if madeProgress then Work(gates, s) < workBefore else Work(gates, s) == workBefore
        invariant madeProgress ==> s.running != []
        decreases Work(gates, s)
      {
        var ready := FirstReady(gates, s.states);
        if ready.None? {
          break;
        }
        s, trace := Step(gates, maxActive, execute, s, trace, Start(ready.value));
        madeProgress := true;
      }
      if s.running == [] {
        s, trace := SkipBlocked(gates, maxActive, execute, s, trace);
        break;
      }
      if !madeProgress {
        var slot := race(waits) % |s.running|;
        waits := waits + 1;
        s, trace := Step(gates, maxActive, execute, s, trace, Settle(slot));
      }
    }
    var results := CollectResults(gates, maxActive, execute, s, trace);
    return Ok(results), trace;
  }

  /** Perform one allowed event. */
  method Step(gates: seq<Gate>, maxActive: int, execute: Gate -> GateResult, s: Sched, trace: seq<Event>, e: Event)
    returns (s': Sched, trace': seq<Event>)
    requires UniqueIds(gates) && maxActive >= 1
    requires s == After(gates, execute, trace) && SafeRun(gates, maxActive, execute, trace)
    requires Allowed(gates, maxActive, s, e)
    ensures s' == Apply(execute, s, e) && trace' == trace + [e]
    ensures s' == After(gates, execute, trace') && SafeRun(gates, maxActive, execute, trace')
    ensures Work(gates, s') < Work(gates, s)
  {
    ExtendRun(gates, maxActive, execute, trace, e);
    AlwaysBookkept(gates, maxActive, execute, trace);
    WorkDrops(gates, maxActive, execute, s, e);
    s', trace' := Apply(execute, s, e), trace + [e];
  }

  /** The skip phase: the guarded stall never happens. */
  method SkipBlocked(gates: seq<Gate>, maxActive: int, execute: Gate -> GateResult, s: Sched, trace: seq<Event>)
    returns (s': Sched, trace': seq<Event>)
    requires Valid(gates) && maxActive >= 1 && Quiet(gates, s)
    requires s == After(gates, execute, trace) && SafeRun(gates, maxActive, execute, trace)
    ensures s' == After(gates, execute, trace') && SafeRun(gates, maxActive, execute, trace')
    ensures Complete(gates, s')
  {
    s', trace' := s, trace;
    while PendingCount(gates, s'.states) > 0
      invariant s' == After(gates, execute, trace') && SafeRun(gates, maxActive, execute, trace')
      invariant Quiet(gates, s')
      decreases Work(gates, s')
    {
      var gate := FirstBlocked(gates, s'.states);
      AlwaysBookkept(gates, maxActive, execute, trace');
      SomePending(gates, s'.states);
      NeverStalls(gates, maxActive, s');
      SkipKeepsQuiet(gates, execute, s', gate.value);
      s', trace' := Step(gates, maxActive, execute, s', trace', Skip(gate.value));
    }
    AlwaysBookkept(gates, maxActive, execute, trace');
    NonePendingIsComplete(gates, maxActive, s');
  }

  lemma {:induction false} SomePending(gates: seq<Gate>, states: map<string, GateState>)
    ensures PendingCount(gates, states) > 0 <==> exists i :: 0 <= i < |gates| && InState(states, gates[i].id, Pending)
  {
    if gates != [] {
      var before := gates[..|gates| - 1];
      SomePending(before, states);
      if exists i :: 0 <= i < |gates| && InState(states, gates[i].id, Pending) {
        var i :| 0 <= i < |gates| && InState(states, gates[i].id, Pending);
        assert i < |before| ==> before[i] == gates[i];
      }
    }
  }

  lemma NonePendingIsComplete(gates: seq<Gate>, maxActive: int, s: Sched)
    requires Bookkept(gates, maxActive, s) && s.running == [] && PendingCount(gates, s.states) == 0
    ensures Complete(gates, s)
  {
    SomePending(gates, s.states);
    forall i | 0 <= i < |gates|
      ensures gates[i].id in s.states && s.states[gates[i].id].Settled?
    {
      assert gates[i].id in Ids(gates);
      assert !InState(s.states, gates[i].id, Pending);
      assert !InState(s.states, gates[i].id, Running);
    }
  }

  /** One result per gate in aggregate order: none is missing after a finished run. */
  method CollectResults(gates: seq<Gate>, maxActive: int, execute: Gate -> GateResult, s: Sched,
                        ghost trace: seq<Event>)
    returns (results: seq<GateResult>)
    requires UniqueIds(gates) && maxActive >= 0 && s == After(gates, execute, trace)
    requires SafeRun(gates, maxActive, execute, trace) && Complete(gates, s)
    ensures Reports(gates, s, results)
  {
    results := [];
    for i := 0 to |gates|
      invariant |results| == i
      invariant forall j :: 0 <= j < i ==> gates[j].id in s.results && results[j] == s.results[gates[j].id]
    {
      FinalVerdict(gates, maxActive, execute, trace, gates[i]);
      results := results + [s.results[gates[i].id]];
    }
  }

  /** Two calls on one gate list return the same results, however the races and the slot limits differ. */
  method RunTwice(gates: seq<Gate>, execute: Gate -> GateResult, maxActive: int, race: nat -> nat, maxActive': int,
                  race': nat -> nat)
    returns (outcome: Result<seq<GateResult>, RunError>, outcome': Result<seq<GateResult>, RunError>)
    ensures outcome.Ok? && outcome'.Ok? ==> outcome == outcome'
  {
    var trace, trace';
    outcome, trace := RunGates(gates, maxActive, execute, race);
    outcome', trace' := RunGates(gates, maxActive', execute, race');
    if outcome.Ok? && outcome'.Ok? {
      ScheduleIndependence(gates, execute, maxActive, trace, maxActive', trace');
      assert outcome.value == outcome'.value;
    }
  }
}
