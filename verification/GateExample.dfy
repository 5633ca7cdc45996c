/** One list of three gates whose first report never names a need that is skipped as well. */
module GateExample {
  import opened Outcomes
  import opened GateGraph
  import opened GateScheduler
  import opened GateVerdicts
  import opened GateIndependence
  import opened GateReports
  import RunGates
  import opened Graphs
  import Text

  const LAST := Gate("g", "g", ["a", "b"], false)
  const MIDDLE := Gate("b", "b", ["a"], false)
  const FIRST := Gate("a", "a", [], false)
  const GATES := [LAST, MIDDLE, FIRST]

  function Fails(gate: Gate): GateResult {
    GateResult(gate, Failed, Some(1), None, None)
  }

  lemma {:induction false} Distinct()
    ensures UniqueIds(GATES)
  {
    assert "g"[0] != "b"[0] && "g"[0] != "a"[0] && "b"[0] != "a"[0];
  }

  const RANK: map<string, nat> := map["a" := 0, "b" := 1, "g" := 2]

  lemma {:induction false} ExampleIsValid()
    ensures Valid(GATES)
  {
    Distinct();
    assert LAST in GATES && MIDDLE in GATES && FIRST in GATES;
    assert HasId(GATES, "a") && HasId(GATES, "b");
    assert KnownNeeds(GATES);
    var g := NeedsGraph(GATES);
    forall id | id in g
      ensures id in RANK && forall need :: need in g[id] ==> need in RANK && RANK[need] < RANK[id]
    {
      ByIdEntry(GATES, id);
      assert ById(GATES)[id] == LAST || ById(GATES)[id] == MIDDLE || ById(GATES)[id] == FIRST;
    }
    RankedIsAcyclic(g, RANK);
  }

  lemma {:induction false} OnlyFirst(states: map<string, GateState>)
    requires "b" !in UnsuccessfulNeeds(LAST.needs, states) && UnsuccessfulNeeds(LAST.needs, states) != []
    ensures UnsuccessfulNeeds(LAST.needs, states) == ["a"]
  {
    var needs: seq<string> := LAST.needs;
    var later := needs[1..];
    assert needs[0] == "a" && later[0] == "b" && later[1..] == [];
    assert UnsuccessfulNeeds(later[1..], states) == [];
    assert UnsuccessfulNeeds(later, states) == if Unsuccessful(states, "b") then ["b"] else [];
  }

  lemma {:induction false} SkipReportIsNonempty(gate: Gate, states: map<string, GateState>)
    requires Blocked(gate, states)
    ensures UnsuccessfulNeeds(gate.needs, states) != []
  {
    var n :| 0 <= n < |gate.needs| && Unsuccessful(states, gate.needs[n]);
    SomeNeedNamed(gate.needs, states, n);
  }

  /** In every finished run `b` and `g` are skipped, and the report of `g` names `a` alone. */
  lemma {:induction false} ReportOmitsLaterSkip(maxActive: int, trace: seq<Event>)
    requires maxActive >= 0 && SafeRun(GATES, maxActive, Fails, trace)
    requires Complete(GATES, After(GATES, Fails, trace))
    ensures var s := After(GATES, Fails, trace);
            && "b" in LAST.needs && Unsuccessful(s.states, "b") && "b" in s.results && s.results["b"].status == Skipped
            && "g" in s.results
            && s.results["g"].error == Some("dependency failed or skipped: " + Text.Join(["a"], ", "))
  {
    Distinct();
    hide SafeRun, After, UnsuccessfulNeeds, UniqueIds;
    assert GATES[0] == LAST && GATES[1] == MIDDLE && GATES[2] == FIRST;
    assert LAST.needs[0] == "a" && LAST.needs[1] == "b" && MIDDLE.needs[0] == "a";
    FinalVerdict(GATES, maxActive, Fails, trace, FIRST);
    FinalVerdict(GATES, maxActive, Fails, trace, MIDDLE);
    var k := SharedNeedIsOmitted(GATES, maxActive, Fails, trace, 0, 1);
    BetweenSkips(GATES, maxActive, Fails, trace, k, |trace|);
    SkipReportIsNonempty(LAST, Before(GATES, Fails, trace, k));
    OnlyFirst(Before(GATES, Fails, trace, k));
  }

  /** The scheduler runs this list, whatever the race and the number of slots. */
  method RunExample(maxActive: int, race: nat -> nat) returns (results: seq<GateResult>)
    requires 1 <= maxActive <= RunGates.MAX_SAFE_INTEGER
    ensures |results| == 3 && results[1].status == Skipped
    ensures results[0].error == Some("dependency failed or skipped: " + Text.Join(["a"], ", "))
  {
    ExampleIsValid();
    var outcome, trace := RunGates.RunGates(GATES, maxActive, Fails, race);
    results := outcome.value;
    ReportOmitsLaterSkip(maxActive, trace);
    assert GATES[0].id == "g" && GATES[1].id == "b";
  }
}
