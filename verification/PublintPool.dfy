/** A pool of workers sharing one index into a list of targets. */
module PublintPool {
  import opened Outcomes

  /** Between targets, checking one, or finished. */
  datatype Worker = Ready | Busy(index: nat) | Done

  /** The shared index, the workers, and the results written so far. */
  datatype Pool = Pool(next: nat, workers: seq<Worker>, results: map<nat, string>)

  /** What checking each target gives. */
  type Outcome = nat -> string

  function Start(concurrency: nat): Pool {
    Pool(0, seq(concurrency, _ => Ready), map[])
  }

  predicate MayStep(s: Pool, w: nat) {
    w < |s.workers| && !s.workers[w].Done?
  }

  /** Worker `w` claims the next index, or writes the result of the target it holds. */
  function Step(targets: nat, outcome: Outcome, s: Pool, w: nat): Pool
    requires MayStep(s, w)
  {
    match s.workers[w]
    case Ready =>
      Pool(s.next + 1, s.workers[w := if s.next < targets then Busy(s.next) else Done], s.results)
    case Busy(index) =>
      Pool(s.next, s.workers[w := Ready], s.results[index := outcome(index)])
  }

  // ---- What every step keeps ----

  predicate Holds(s: Pool, index: nat) {
    exists w :: 0 <= w < |s.workers| && s.workers[w] == Busy(index)
  }

  /** Every claimed target is held by exactly one worker or has its result, and never both. */
  predicate Sound(targets: nat, outcome: Outcome, s: Pool) {
    && (forall w :: 0 <= w < |s.workers| && s.workers[w].Busy? ==>
          s.workers[w].index < s.next && s.workers[w].index < targets && s.workers[w].index !in s.results)
    && (forall v, w :: 0 <= v < w < |s.workers| && s.workers[v].Busy? && s.workers[w].Busy? ==>
          s.workers[v].index != s.workers[w].index)
    && (forall i :: i in s.results ==> i < s.next && i < targets && s.results[i] == outcome(i))
    && (forall i: nat :: i < s.next && i < targets && i !in s.results ==> Holds(s, i))
    && ((exists w :: 0 <= w < |s.workers| && s.workers[w].Done?) ==> targets <= s.next)
  }

  lemma {:induction false} StartIsSound(targets: nat, outcome: Outcome, concurrency: nat)
    ensures Sound(targets, outcome, Start(concurrency))
  {
  }

  lemma {:induction false} StepKeepsSound(targets: nat, outcome: Outcome, s: Pool, w: nat)
    requires Sound(targets, outcome, s) && MayStep(s, w)
    ensures Sound(targets, outcome, Step(targets, outcome, s, w))
  {
    var t := Step(targets, outcome, s, w);
    forall i: nat | i < t.next && i < targets && i !in t.results
      ensures Holds(t, i)
    {
      if s.workers[w] == Ready && i == s.next {
        assert t.workers[w] == Busy(i);
      } else {
        var v :| 0 <= v < |s.workers| && s.workers[v] == Busy(i);
        assert t.workers[v] == Busy(i);
      }
    }
    if v :| 0 <= v < |t.workers| && t.workers[v].Done? {
      assert v == w || s.workers[v].Done?;
    }
  }

  // ---- Runs ----

  predicate IsRun(targets: nat, outcome: Outcome, s: Pool, schedule: seq<nat>)
    decreases |schedule|
  {
    schedule == [] || (MayStep(s, schedule[0])
                       && IsRun(targets, outcome, Step(targets, outcome, s, schedule[0]), schedule[1..]))
  }

  function After(targets: nat, outcome: Outcome, s: Pool, schedule: seq<nat>): Pool
    requires IsRun(targets, outcome, s, schedule)
    decreases |schedule|
  {
    if schedule == [] then s else After(targets, outcome, Step(targets, outcome, s, schedule[0]), schedule[1..])
  }

  /** The targets claimed during a run, in order. */
  function Claims(targets: nat, outcome: Outcome, s: Pool, schedule: seq<nat>): seq<nat>
    requires IsRun(targets, outcome, s, schedule)
    decreases |schedule|
  {
    if schedule == [] then []
    else
      (if s.workers[schedule[0]] == Ready && s.next < targets then [s.next] else [])
      + Claims(targets, outcome, Step(targets, outcome, s, schedule[0]), schedule[1..])
  }

  function Clip(next: nat, targets: nat): nat {
    if next < targets then next else targets
  }

  /** In every interleaving the targets are claimed in order, each exactly once. */
  lemma {:induction false} ClaimedOnceInOrder(targets: nat, outcome: Outcome, s: Pool, schedule: seq<nat>)
    requires IsRun(targets, outcome, s, schedule)
    ensures var from, to := Clip(s.next, targets), Clip(After(targets, outcome, s, schedule).next, targets);
            from <= to && Claims(targets, outcome, s, schedule) ==
            seq(to - from, k requires 0 <= k < to - from => from + k)
    decreases |schedule|
  {
    if schedule != [] {
      ClaimedOnceInOrder(targets, outcome, Step(targets, outcome, s, schedule[0]), schedule[1..]);
    }
  }

  lemma {:induction false} RunKeepsSound(targets: nat, outcome: Outcome, s: Pool, schedule: seq<nat>)
    requires IsRun(targets, outcome, s, schedule) && Sound(targets, outcome, s)
    ensures Sound(targets, outcome, After(targets, outcome, s, schedule))
    ensures |After(targets, outcome, s, schedule).workers| == |s.workers|
    decreases |schedule|
  {
    hide Sound;
    if schedule != [] {
      StepKeepsSound(targets, outcome, s, schedule[0]);
      RunKeepsSound(targets, outcome, Step(targets, outcome, s, schedule[0]), schedule[1..]);
    }
  }

  // ---- Every run ends ----

  function Pending(workers: seq<Worker>): nat {
    if workers == [] then 0
    else (if workers[0].Done? then 0 else if workers[0].Busy? then 2 else 1) + Pending(workers[1..])
  }

  lemma {:induction false} PendingUpdate(workers: seq<Worker>, w: nat, worker: Worker)
    requires w < |workers|
    ensures Pending(workers[w := worker]) + Pending([workers[w]]) == Pending(workers) + Pending([worker])
  {
    if w == 0 {
      assert workers[0 := worker][1..] == workers[1..];
    } else {
      assert workers[w := worker][1..] == workers[1..][w - 1 := worker];
      PendingUpdate(workers[1..], w - 1, worker);
    }
  }

  /** The steps still to come, at most. */
  function Work(targets: nat, s: Pool): nat {
    2 * (targets - Clip(s.next, targets)) + Pending(s.workers)
  }

  lemma {:induction false} StepWorks(targets: nat, outcome: Outcome, s: Pool, w: nat)
    requires MayStep(s, w)
    ensures Work(targets, Step(targets, outcome, s, w)) < Work(targets, s)
  {
    PendingUpdate(s.workers, w, Step(targets, outcome, s, w).workers[w]);
  }

  /** A run uses up work. */
  lemma {:induction false} RunsAreShort(targets: nat, outcome: Outcome, s: Pool, schedule: seq<nat>)
    requires IsRun(targets, outcome, s, schedule)
    ensures |schedule| + Work(targets, After(targets, outcome, s, schedule)) <= Work(targets, s)
    decreases |schedule|
  {
    if schedule != [] {
      StepWorks(targets, outcome, s, schedule[0]);
      RunsAreShort(targets, outcome, Step(targets, outcome, s, schedule[0]), schedule[1..]);
    }
  }

  /** From the start, a run is at most two steps a target and one a worker long. */
  lemma {:induction false} EveryRunEnds(targets: nat, outcome: Outcome, concurrency: nat, schedule: seq<nat>)
    requires IsRun(targets, outcome, Start(concurrency), schedule)
    ensures |schedule| <= 2 * targets + concurrency
  {
    ReadyPending(Start(concurrency).workers);
    RunsAreShort(targets, outcome, Start(concurrency), schedule);
  }

  lemma {:induction false} ReadyPending(workers: seq<Worker>)
    requires forall w :: 0 <= w < |workers| ==> workers[w] == Ready
    ensures Pending(workers) == |workers|
  {
    if workers != [] {
      ReadyPending(workers[1..]);
    }
  }

  /** Nobody can step once, and only once, all workers are done. */
  predicate Finished(s: Pool) {
    forall w :: 0 <= w < |s.workers| ==> s.workers[w].Done?
  }

  /** The results in target order, or the first target without one. */
  function Collect(targets: nat, results: map<nat, string>, i: nat): Result<seq<string>, nat>
    decreases targets - i
  {
    if i >= targets then Ok([])
    else if i !in results then Err(i)
    else
      match Collect(targets, results, i + 1)
      case Err(e) => Err(e)
      case Ok(rest) => Ok([results[i]] + rest)
  }

  /** The outcomes of the targets from `i` on, in order. */
  function InTargetOrder(targets: nat, outcome: Outcome, i: nat): seq<string>
    requires i <= targets
  {
    seq(targets - i, k requires 0 <= k < targets - i => outcome(i + k))
  }

  /** What the pool returns. */
  function Expected(targets: nat, outcome: Outcome, concurrency: nat): Result<seq<string>, nat> {
    if concurrency > 0 || targets == 0 then Ok(InTargetOrder(targets, outcome, 0)) else Err(0)
  }

  /** One outcome a target, in order, if there is a worker; otherwise the first target is missing, if there is one. */
  lemma {:induction false} ExpectedIsExact(targets: nat, outcome: Outcome, concurrency: nat)
    ensures Returned(targets, outcome, concurrency, Expected(targets, outcome, concurrency))
  {
  }

  /** The outcome of every target at its place; or, without workers, an error for the first target if there is one. */
  predicate Returned(targets: nat, outcome: Outcome, concurrency: nat, results: Result<seq<string>, nat>) {
    match results
    case Err(missing) => concurrency == 0 && targets > 0 && missing == 0
    case Ok(values) =>
      && (concurrency > 0 || targets == 0) && |values| == targets
      && forall k :: 0 <= k < targets ==> values[k] == outcome(k)
  }

  lemma {:induction false} CollectAll(targets: nat, outcome: Outcome, results: map<nat, string>, i: nat)
    requires i <= targets && forall k: nat :: k < targets ==> k in results && results[k] == outcome(k)
    ensures Collect(targets, results, i) == Ok(InTargetOrder(targets, outcome, i))
    decreases targets - i
  {
    if i < targets {
      CollectAll(targets, outcome, results, i + 1);
      assert InTargetOrder(targets, outcome, i) == [outcome(i)] + InTargetOrder(targets, outcome, i + 1);
    }
  }

  lemma {:induction false} FinishedHasAll(targets: nat, outcome: Outcome, s: Pool)
    requires Sound(targets, outcome, s) && Finished(s) && s.workers != []
    ensures forall k: nat :: k < targets ==> k in s.results && s.results[k] == outcome(k)
  {
    assert s.workers[0].Done?;
    assert forall i: nat :: !Holds(s, i);
  }

  /**
   * Whatever the interleaving, a finished pool returns every target's result in target order, provided
   * there is a worker or nothing to do; without workers it reports the first target.
   */
  lemma {:induction false} InterleavingDoesNotMatter(targets: nat, outcome: Outcome, concurrency: nat,
                                                     schedule: seq<nat>)
    requires IsRun(targets, outcome, Start(concurrency), schedule)
    requires Finished(After(targets, outcome, Start(concurrency), schedule))
    ensures Collect(targets, After(targets, outcome, Start(concurrency), schedule).results, 0) ==
            Expected(targets, outcome, concurrency)
    ensures Returned(targets, outcome, concurrency,
                     Collect(targets, After(targets, outcome, Start(concurrency), schedule).results, 0))
  {
    hide Sound, Returned;
    ExpectedIsExact(targets, outcome, concurrency);
    StartIsSound(targets, outcome, concurrency);
    RunKeepsSound(targets, outcome, Start(concurrency), schedule);
    var s := After(targets, outcome, Start(concurrency), schedule);
    if concurrency > 0 {
      FinishedHasAll(targets, outcome, s);
      CollectAll(targets, outcome, s.results, 0);
    } else {
      assert targets == 0 ==> InTargetOrder(targets, outcome, 0) == [];
      NobodyStarts(targets, outcome, schedule);
    }
  }

  lemma {:induction false} NobodyStarts(targets: nat, outcome: Outcome, schedule: seq<nat>)
    requires IsRun(targets, outcome, Start(0), schedule)
    ensures schedule == []
  {
  }

  /** The pool as it runs: until all workers are done, any of the others takes its step. */
  method RunAll(targets: nat, outcome: Outcome, concurrency: nat) returns (results: Result<seq<string>, nat>)
    ensures results == Expected(targets, outcome, concurrency) && Returned(targets, outcome, concurrency, results)
  {
    hide Sound, Work, Returned;
    ExpectedIsExact(targets, outcome, concurrency);
    var s := Start(concurrency);
    StartIsSound(targets, outcome, concurrency);
    while exists w :: 0 <= w < |s.workers| && !s.workers[w].Done?
      invariant Sound(targets, outcome, s) && |s.workers| == concurrency
      invariant concurrency == 0 ==> s == Start(0)
      decreases Work(targets, s)
    {
      var w :| 0 <= w < |s.workers| && !s.workers[w].Done?;
      StepKeepsSound(targets, outcome, s, w);
      StepWorks(targets, outcome, s, w);
      s := Step(targets, outcome, s, w);
    }
    if concurrency > 0 {
      FinishedHasAll(targets, outcome, s);
      CollectAll(targets, outcome, s.results, 0);
    }
    results := Collect(targets, s.results, 0);
    assert targets == 0 ==> InTargetOrder(targets, outcome, 0) == [];
  }
}
