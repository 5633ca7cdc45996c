/** Recording pairs over whole histories of edits, confirmations and generator runs. */
module PairHistory {
  import opened Outcomes
  import opened Text
  import opened GeneratedRegions
  import opened RegionSplice
  import opened PairRecord

  /** The two documents of a pair. */
  datatype Docs = Docs(source: string, zh: string)

  /** A pair on disk: its documents and its record's text, if any. */
  datatype State = State(docs: Docs, meta: Option<string>)

  datatype Event =
    | Edit(docs: Docs)
    | Confirm
    | Discard
    | Regenerate(docs: Docs)

  type Hash = string -> string

  /** What blocks or allows one side: the record names the previous text, and only regions changed. */
  predicate SideUnchanged(h: Hash, recorded: string, before: string, after: string) {
    && recorded == h(before)
    && PartitionOf(before).Ok? && PartitionOf(after).Ok?
    && PartitionOf(before).value.stripped == PartitionOf(after).value.stripped
  }

  /** Whether a generator run refreshes the record. */
  predicate Refreshes(h: Hash, p: Paths, meta: Option<string>, before: Docs, after: Docs) {
    && meta.Some? && Parse(meta.value).Some?
    && HasExactly(Parse(meta.value).value, Basename(p.source), Basename(p.zh))
    && SideUnchanged(h, Parse(meta.value).value[Basename(p.source)], before.source, after.source)
    && SideUnchanged(h, Parse(meta.value).value[Basename(p.zh)], before.zh, after.zh)
  }

  function Named(h: Hash, p: Paths, docs: Docs): string {
    Render(p.source, h(docs.source), p.zh, h(docs.zh))
  }

  function Step(h: Hash, p: Paths, s: State, e: Event): State {
    match e
    case Edit(docs) => State(docs, s.meta)
    case Confirm => State(s.docs, Some(Named(h, p, s.docs)))
    case Discard => State(s.docs, None)
    case Regenerate(docs) =>
      if docs != s.docs && Refreshes(h, p, s.meta, s.docs, docs) then State(docs, Some(Named(h, p, docs)))
      else State(docs, s.meta)
  }

  /** The pair on disk, as the scripts change it. */
  class Pair {
    var docs: Docs
    var meta: Option<string>

    function Now(): State
      reads this
    {
      State(docs, meta)
    }

    method WriteDocs(next: Docs)
      modifies this
      ensures Now() == State(next, old(meta))
    {
      docs := next;
    }

    /** Refresh the record after a write when both sides changed only inside generated regions. */
    method MaybeRecordPair(h: Hash, p: Paths, before: Docs) returns (recorded: bool)
      requires PairPaths(p.source) == Ok(p)
      modifies this`meta
      ensures recorded == Refreshes(h, p, old(meta), before, docs)
      ensures meta == if recorded then Some(Named(h, p, docs)) else old(meta)
    {
      if meta.None? {
        return false;
      }
      var found := ParsePairMeta(meta.value);
      var source, zh := Basename(p.source), Basename(p.zh);
      PairNames(p.source);
      if found.None? {
        return false;
      }
      TwoKeys(found.value, source, zh);
      if |found.value| != 2 || source !in found.value || zh !in found.value {
        return false;
      }
      var sourceConfined := Confined(h, found.value[source], before.source, docs.source);
      if !sourceConfined {
        return false;
      }
      var zhConfined := Confined(h, found.value[zh], before.zh, docs.zh);
      if !zhConfined {
        return false;
      }
      meta := Some(Render(p.source, h(docs.source), p.zh, h(docs.zh)));
      return true;
    }

    /** The generator's write of both sides, and the record when either changed. */
    method RegeneratePair(h: Hash, p: Paths, next: Docs)
      requires PairPaths(p.source) == Ok(p)
      modifies this
      ensures Now() == Step(h, p, old(Now()), Regenerate(next))
    {
      hide Refreshes, Named, Basename;
      var before := docs;
      WriteDocs(next);
      if before != next {
        var recorded := MaybeRecordPair(h, p, before);
      }
    }
  }

  /** One side's check; a document that does not partition stops the run before the record is written. */
  method Confined(h: Hash, recorded: string, before: string, after: string) returns (confined: bool)
    ensures confined == SideUnchanged(h, recorded, before, after)
  {
    if recorded != h(before) {
      return false;
    }
    var strippedBefore := PartitionGeneratedRegions(before);
    var strippedAfter := PartitionGeneratedRegions(after);
    return strippedBefore.Ok? && strippedAfter.Ok? && strippedBefore.value.stripped == strippedAfter.value.stripped;
  }

  // ---- Histories ----

  /** A pair with what its record names and what was last confirmed by a human. */
  datatype Ledger = Ledger(state: State, named: Docs, confirmed: Docs)

  function Track(h: Hash, p: Paths, l: Ledger, e: Event): Ledger {
    var next := Step(h, p, l.state, e);
    match e
    case Edit(_) => Ledger(next, l.named, l.confirmed)
    case Confirm => Ledger(next, l.state.docs, l.state.docs)
    case Discard => Ledger(next, l.named, l.confirmed)
    case Regenerate(docs) =>
      var refreshed := docs != l.state.docs && Refreshes(h, p, l.state.meta, l.state.docs, docs);
      Ledger(next, if refreshed then docs else l.named, l.confirmed)
  }

  function Run(h: Hash, p: Paths, l: Ledger, events: seq<Event>): Ledger
    decreases |events|
  {
    if events == [] then l else Run(h, p, Track(h, p, l, events[0]), events[1..])
  }

  /** The same human content: the same text, or the same text outside generated regions. */
  predicate SameHuman(a: string, b: string) {
    a == b || (PartitionOf(a).Ok? && PartitionOf(b).Ok?
               && PartitionOf(a).value.stripped == PartitionOf(b).value.stripped)
  }

  /** The record, when there is one, names documents with the human content last confirmed. */
  predicate Honest(h: Hash, p: Paths, l: Ledger) {
    l.state.meta.Some? ==>
      && l.state.meta.value == Named(h, p, l.named)
      && SameHuman(l.named.source, l.confirmed.source) && SameHuman(l.named.zh, l.confirmed.zh)
  }

  /** The hash is a blob hash without collisions on these texts. */
  predicate Hashes(h: Hash, texts: set<string>) {
    && (forall a :: a in texts ==> IsHash(h(a)))
    && (forall a, b :: a in texts && b in texts && h(a) == h(b) ==> a == b)
  }

  predicate In(docs: Docs, texts: set<string>) {
    docs.source in texts && docs.zh in texts
  }

  predicate EventIn(e: Event, texts: set<string>) {
    match e
    case Edit(docs) => In(docs, texts)
    case Confirm => true
    case Discard => true
    case Regenerate(docs) => In(docs, texts)
  }

  predicate LedgerIn(l: Ledger, texts: set<string>) {
    In(l.state.docs, texts) && In(l.named, texts)
  }

  /** A pair whose record can be written and read back. */
  predicate IsPair(p: Paths) {
    PairPaths(p.source) == Ok(p) && '\n' !in p.source && IsKey(Basename(p.source))
  }

  lemma {:induction false} NamedReadsBack(h: Hash, p: Paths, docs: Docs)
    requires IsPair(p) && IsHash(h(docs.source)) && IsHash(h(docs.zh))
    ensures Basename(p.source) != Basename(p.zh)
    ensures Parse(Named(h, p, docs)) == Some(map[Basename(p.source) := h(docs.source), Basename(p.zh) := h(docs.zh)])
  {
    hide Basename, IsKey, IsHash, Render, Parse;
    PairNames(p.source);
    RecordRoundTrip(p.source, h(docs.source), h(docs.zh));
  }

  /** A refresh happens only over a record that names the documents before the run. */
  lemma {:induction false} RefreshMeans(h: Hash, p: Paths, texts: set<string>, named: Docs, before: Docs, after: Docs)
    requires IsPair(p) && Hashes(h, texts) && In(named, texts) && In(before, texts)
    ensures Refreshes(h, p, Some(Named(h, p, named)), before, after) <==>
      && before == named
      && SideUnchanged(h, h(before.source), before.source, after.source)
      && SideUnchanged(h, h(before.zh), before.zh, after.zh)
  {
    hide IsPair, IsHash, Basename, Named, Parse;
    NamedReadsBack(h, p, named);
  }

  /** Every event keeps the record honest. */
  lemma {:induction false} EventKeepsHonest(h: Hash, p: Paths, texts: set<string>, l: Ledger, e: Event)
    requires IsPair(p) && Hashes(h, texts) && LedgerIn(l, texts) && EventIn(e, texts) && Honest(h, p, l)
    ensures Honest(h, p, Track(h, p, l, e)) && LedgerIn(Track(h, p, l, e), texts)
  {
    hide IsPair, Hashes, Named, Refreshes;
    if e.Regenerate? && l.state.meta.Some? {
      RefreshMeans(h, p, texts, l.named, l.state.docs, e.docs);
    } else if e.Regenerate? {
      NoRecordNoRefresh(h, p, l.state.docs, e.docs);
    }
  }

  lemma {:induction false} NoRecordNoRefresh(h: Hash, p: Paths, before: Docs, after: Docs)
    ensures !Refreshes(h, p, None, before, after)
  {
  }

  lemma {:induction false} RunKeepsHonest(h: Hash, p: Paths, texts: set<string>, l: Ledger, events: seq<Event>)
    requires IsPair(p) && Hashes(h, texts) && LedgerIn(l, texts) && Honest(h, p, l)
    requires forall k :: 0 <= k < |events| ==> EventIn(events[k], texts)
    ensures Honest(h, p, Run(h, p, l, events)) && LedgerIn(Run(h, p, l, events), texts)
    decreases |events|
  {
    hide IsPair, Hashes, Honest, LedgerIn, Track, EventIn;
    if events != [] {
      EventKeepsHonest(h, p, texts, l, events[0]);
      RunKeepsHonest(h, p, texts, Track(h, p, l, events[0]), events[1..]);
    }
  }

  /** What the pairing gate accepts: a record that names both documents as they are. */
  predicate Consistent(h: Hash, p: Paths, s: State) {
    && s.meta.Some? && Parse(s.meta.value).Some?
    && HasExactly(Parse(s.meta.value).value, Basename(p.source), Basename(p.zh))
    && Parse(s.meta.value).value[Basename(p.source)] == h(s.docs.source)
    && Parse(s.meta.value).value[Basename(p.zh)] == h(s.docs.zh)
  }

  lemma {:induction false} ConsistentMeans(h: Hash, p: Paths, texts: set<string>, named: Docs, docs: Docs)
    requires IsPair(p) && Hashes(h, texts) && In(named, texts) && In(docs, texts)
    ensures Consistent(h, p, State(docs, Some(Named(h, p, named)))) <==> docs == named
  {
    hide IsPair, IsHash, Basename, Named, Parse;
    NamedReadsBack(h, p, named);
  }

  /**
   * No human edit is ever blessed by regeneration: after any run of edits, confirmations, discards and
   * generator runs with arbitrary outputs, a pair the gate accepts has, on both sides, the human content
   * of the last confirmation.
   */
  lemma {:induction false} RegenerationNeverBlesses(h: Hash, p: Paths, texts: set<string>, start: Docs,
                                                    events: seq<Event>)
    requires IsPair(p) && Hashes(h, texts) && In(start, texts)
    requires forall k :: 0 <= k < |events| ==> EventIn(events[k], texts)
    ensures var l := Run(h, p, Ledger(State(start, None), start, start), events);
            Consistent(h, p, l.state) ==>
              SameHuman(l.state.docs.source, l.confirmed.source) && SameHuman(l.state.docs.zh, l.confirmed.zh)
  {
    hide IsPair, Hashes, Named, Run, SameHuman, Parse, Basename;
    var l0 := Ledger(State(start, None), start, start);
    RunKeepsHonest(h, p, texts, l0, events);
    var l := Run(h, p, l0, events);
    if l.state.meta.Some? {
      ConsistentMeans(h, p, texts, l.named, l.state.docs);
    }
  }

  /** The last confirmation in a run is what the run's ledger says was confirmed. */
  function LastConfirmed(h: Hash, p: Paths, s: State, events: seq<Event>, none: Docs): Docs
    decreases |events|
  {
    if events == [] then none
    else LastConfirmed(h, p, Step(h, p, s, events[0]), events[1..], if events[0].Confirm? then s.docs else none)
  }

  lemma {:induction false} LedgerIsLastConfirmed(h: Hash, p: Paths, l: Ledger, events: seq<Event>)
    ensures Run(h, p, l, events).confirmed == LastConfirmed(h, p, l.state, events, l.confirmed)
    decreases |events|
  {
    hide Step, Refreshes;
    if events != [] {
      LedgerIsLastConfirmed(h, p, Track(h, p, l, events[0]), events[1..]);
    }
  }

  // ---- The other direction: confined runs stay recorded ----

  /** A run that changes only regions of a consistent pair leaves it consistent. */
  lemma {:induction false} ConfinedRunStaysConsistent(h: Hash, p: Paths, s: State, docs: Docs)
    requires IsPair(p) && Consistent(h, p, s) && IsHash(h(docs.source)) && IsHash(h(docs.zh))
    requires docs != s.docs ==> SideUnchanged(h, h(s.docs.source), s.docs.source, docs.source)
    requires docs != s.docs ==> SideUnchanged(h, h(s.docs.zh), s.docs.zh, docs.zh)
    ensures Consistent(h, p, Step(h, p, s, Regenerate(docs)))
  {
    hide IsPair, IsHash, Basename, Named, Parse, PartitionOf;
    if docs != s.docs {
      NamedReadsBack(h, p, docs);
    }
  }

  /** The generator itself, splicing its region into both sides of a consistent pair, leaves it consistent. */
  lemma {:induction false} GeneratorStaysConsistent(h: Hash, p: Paths, s: State, region: string)
    requires IsPair(p) && Consistent(h, p, s) && OwnRegion(Split(region, '\n'))
    requires PartitionOf(s.docs.source).Ok? && PartitionOf(s.docs.zh).Ok?
    requires SpliceRegion(s.docs.source, region).Ok? && SpliceRegion(s.docs.zh, region).Ok?
    requires IsHash(h(SpliceRegion(s.docs.source, region).value)) && IsHash(h(SpliceRegion(s.docs.zh, region).value))
    ensures Consistent(h, p,
                       Step(h, p, s, Regenerate(Docs(SpliceRegion(s.docs.source, region).value,
                                                     SpliceRegion(s.docs.zh, region).value))))
  {
    hide IsPair, IsHash, Consistent, Split, SpliceRegion, OwnRegion, PartitionOf, Step;
    var k := SpliceKeepsStripped(s.docs.source, region);
    k := SpliceKeepsStripped(s.docs.zh, region);
    ConfinedRunStaysConsistent(h, p, s,
                               Docs(SpliceRegion(s.docs.source, region).value, SpliceRegion(s.docs.zh, region).value));
  }
}
