/** The lookup as the source runs it: one recursion that adds to a guard set shared by every branch. */
module SchemaWalker {
  import opened Outcomes
  import opened SchemaPaths
  import opened SchemaLookup
  import opened SchemaSoundness
  import opened SchemaTermination

  /** A finished walk's verdict and guard are those of the specification. */
  predicate Matches(verdict: Option<Verdict>, seen: Guard, walked: Walked) {
    if walked.Overflow? then verdict.None? else verdict == Some(walked.verdict) && seen == walked.seen
  }

  predicate MatchesAll(verdicts: Option<seq<Verdict>>, seen: Guard, b: Branches) {
    if b.BranchOverflow? then verdicts.None? else verdicts == Some(b.verdicts) && seen == b.seen
  }

  /** One lookup's shared state. `None` is the host's stack overflow. */
  class Walker {
    const world: World
    var seen: Guard

    constructor (world: World)
      ensures this.world == world && seen == {}
    {
      this.world := world;
      seen := {};
    }

    method LookupType(file: nat, t: TypeNode, steps: seq<Step>, stack: nat) returns (verdict: Option<Verdict>)
      modifies this
      ensures Matches(verdict, seen, WalkType(world, file, t, steps, old(seen), stack))
      decreases stack, 0
    {
      if stack == 0 {
        return None;
      }
      if |steps| == 0 {
        return Some(Found);
      }
      match t
      case Literal(members) =>
        if steps[0].Element? {
          return Some(Unknown);
        }
        var own := FindProperty(members, steps[0].name);
        if own.None? {
          return Some(Missing);
        }
        verdict := LookupProperty(file, own.value, steps, stack - 1);
      case Parenthesized(inner) =>
        verdict := LookupType(file, inner, steps, stack - 1);
      case Operator(inner) =>
        verdict := LookupType(file, inner, steps, stack - 1);
      case Intersection(parts) =>
        var verdicts := LookupParts(file, parts, steps, stack - 1);
        return if verdicts.None? then None else Some(Combine(verdicts.value));
      case Union(parts) =>
        var verdicts := LookupParts(file, parts, steps, stack - 1);
        return if verdicts.None? then None else Some(Agree(verdicts.value));
      case ArrayOf(element) =>
        if steps[0].Member? {
          return Some(Unknown);
        }
        verdict := LookupType(file, element, steps[1..], stack - 1);
      case Indexed(indexed, index) =>
        if index.None? {
          return Some(Unknown);
        }
        verdict := LookupType(file, indexed, [Member(index.value)] + steps, stack - 1);
      case Reference(name, args) =>
        if PassThrough(name) && |args| > 0 {
          verdict := LookupType(file, args[0], steps, stack - 1);
        } else if ArrayName(name) && |args| > 0 {
          if steps[0].Member? {
            return Some(Unknown);
          }
          verdict := LookupType(file, args[0], steps[1..], stack - 1);
        } else {
          var id := Resolve(world, file, name);
          if id.None? {
            return Some(Unknown);
          }
          verdict := LookupDecl(id.value, steps, stack - 1);
        }
      case Opaque =>
        return Some(Unknown);
    }

    method LookupProperty(file: nat, own: MemberDecl, steps: seq<Step>, stack: nat) returns (verdict: Option<Verdict>)
      requires own.Property? && |steps| > 0
      modifies this
      ensures Matches(verdict, seen, WalkProperty(world, file, own, steps, old(seen), stack))
      decreases stack, 1
    {
      if |steps| == 1 {
        return Some(Found);
      }
      if own.declared.None? {
        return Some(Unknown);
      }
      verdict := LookupType(file, own.declared.value, steps[1..], stack);
    }

    method LookupDecl(id: nat, steps: seq<Step>, stack: nat) returns (verdict: Option<Verdict>)
      requires id < |world.decls|
      modifies this
      ensures Matches(verdict, seen, WalkDecl(world, id, steps, old(seen), stack))
      decreases stack, 0
    {
      if stack == 0 {
        return None;
      }
      if |steps| == 0 {
        return Some(Found);
      }
      if (id, |steps|) in seen {
        return Some(Unknown);
      }
      seen := seen + {(id, |steps|)};
      var file := world.decls[id].file;
      match world.decls[id].decl
      case Interface(members, bases) =>
        if steps[0].Element? {
          return Some(Unknown);
        }
        var own := FindProperty(members, steps[0].name);
        if own.Some? {
          verdict := LookupProperty(file, own.value, steps, stack - 1);
          return;
        }
        var verdicts := LookupBases(file, bases, steps, stack - 1);
        return if verdicts.None? then None
               else if |bases| == 0 then Some(Missing)
               else Some(Combine(verdicts.value));
      case Alias(target) =>
        verdict := LookupType(file, target, steps, stack - 1);
    }

    method LookupParts(file: nat, parts: seq<TypeNode>, steps: seq<Step>, stack: nat)
      returns (verdicts: Option<seq<Verdict>>)
      modifies this
      ensures MatchesAll(verdicts, seen, WalkParts(world, file, parts, steps, old(seen), stack))
      decreases stack, |parts| + 1
    {
      var results: seq<Verdict> := [];
      ghost var bailed := false;
      for i := 0 to |parts|
        invariant WalkParts(world, file, parts, steps, old(seen), stack)
               == Prepend(results, bailed, WalkParts(world, file, parts[i..], steps, seen, stack))
      {
        ghost var walked := WalkType(world, file, parts[i], steps, seen, stack);
        ghost var rest := if walked.Overflow? then BranchOverflow
                          else WalkParts(world, file, parts[i + 1..], steps, walked.seen, stack);
        PrependTwice(results, bailed, walked, rest);
        assert parts[i..][0] == parts[i] && parts[i..][1..] == parts[i + 1..];
        var verdict := LookupType(file, parts[i], steps, stack);
        if verdict.None? {
          return None;
        }
        results := results + [verdict.value];
        bailed := bailed || walked.bailed;
      }
      assert parts[|parts|..] == [] && results + [] == results;
      return Some(results);
    }

    method LookupBases(file: nat, bases: seq<Base>, steps: seq<Step>, stack: nat)
      returns (verdicts: Option<seq<Verdict>>)
      modifies this
      ensures MatchesAll(verdicts, seen, WalkBases(world, file, bases, steps, old(seen), stack))
      decreases stack, |bases| + 1
    {
      var results: seq<Verdict> := [];
      ghost var bailed := false;
      for i := 0 to |bases|
        invariant WalkBases(world, file, bases, steps, old(seen), stack)
               == Prepend(results, bailed, WalkBases(world, file, bases[i..], steps, seen, stack))
      {
        ghost var walked := WalkBase(world, file, bases[i], steps, seen, stack);
        ghost var rest := if walked.Overflow? then BranchOverflow
                          else WalkBases(world, file, bases[i + 1..], steps, walked.seen, stack);
        PrependTwice(results, bailed, walked, rest);
        assert bases[i..][0] == bases[i] && bases[i..][1..] == bases[i + 1..];
        var verdict: Option<Verdict> := Some(Unknown);
        if bases[i].Named? {
          var id := Resolve(world, file, bases[i].name);
          if id.Some? {
            verdict := LookupDecl(id.value, steps, stack);
          }
        }
        if verdict.None? {
          return None;
        }
        results := results + [verdict.value];
        bailed := bailed || walked.bailed;
      }
      assert bases[|bases|..] == [] && results + [] == results;
      return Some(results);
    }
  }

  lemma PrependTwice(results: seq<Verdict>, bailed: bool, walked: Walked, rest: Branches)
    ensures walked.Walked? ==>
      Prepend(results, bailed, Prepend([walked.verdict], walked.bailed, rest))
      == Prepend(results + [walked.verdict], bailed || walked.bailed, rest)
  {
    if walked.Walked? && rest.Branches? {
      assert results + ([walked.verdict] + rest.verdicts) == (results + [walked.verdict]) + rest.verdicts;
    }
  }

  /** What a fresh lookup tells, and when it ends. */
  lemma {:induction false} VerdictMeans(w: World, id: nat, steps: seq<Step>, stack: nat)
    requires id < |w.decls|
    ensures var walked := WalkDecl(w, id, steps, {}, stack);
            && (walked.Walked? && walked.verdict == Missing && Readable(w, id, steps, true) ==>
                  forall n: nat :: !MayDecl(w, id, steps, n))
            && (walked.Walked? && walked.verdict != Missing && Readable(w, id, steps, false) ==>
                  walked.bailed || exists n: nat :: MayDecl(w, id, steps, n))
            && (EnoughStack(w, id, steps, stack) ==> walked.Walked?)
            && (IndexFreeWorld(w) && stack >= DeclNeed(w, |steps|, {}) ==> walked.Walked?)
  {
    hide WalkDecl, MayDecl, DeclNeed, IndexFreeWorld, LegibleRegion, Within;
    var walked := WalkDecl(w, id, steps, {}, stack);
    if EnoughStack(w, id, steps, stack) {
      var level :| Levelled(w, level) && stack >= DeclNeed(w, |steps| + level[id], {});
      LevelledDeclFinishes(w, level, id, steps, {}, stack);
    }
    if IndexFreeWorld(w) && stack >= DeclNeed(w, |steps|, {}) {
      DeclFinishes(w, id, steps, {}, stack);
    }
    if walked.Walked? && walked.verdict == Missing && Readable(w, id, steps, true) {
      var r: Region :| LegibleRegion(w, r) && id in r.ids && Within(steps, r) && r.closed;
      LookupIsSound(w, r, id, steps, {}, stack);
    }
    if walked.Walked? && walked.verdict != Missing && Readable(w, id, steps, false) && !walked.bailed {
      var r: Region :| LegibleRegion(w, r) && id in r.ids && Within(steps, r);
      UnguardedLookupIsExact(w, r, id, steps, {}, stack);
    }
  }

  /**
   * The catalog's use of the lookup: a schema key path is reported against a config declaration
   * exactly when a fresh lookup says `Missing`. Wherever the names of the path are spelled, a report is
   * never wrong; on a world with levels, such as one without indexed access, a sufficient call depth
   * always gives an answer.
   */
  method ReportsMissingKey(world: World, id: nat, keyPath: string, stack: nat) returns (reported: Option<bool>)
    requires id < |world.decls|
    ensures reported == Some(true) && Readable(world, id, PathSteps(keyPath), true) ==>
      forall n: nat :: !MayDecl(world, id, PathSteps(keyPath), n)
    ensures reported == Some(false) && Readable(world, id, PathSteps(keyPath), false) ==>
      var walked := WalkDecl(world, id, PathSteps(keyPath), {}, stack);
      walked.Walked? && (walked.bailed || exists n: nat :: MayDecl(world, id, PathSteps(keyPath), n))
    ensures EnoughStack(world, id, PathSteps(keyPath), stack) ==> reported.Some?
    ensures IndexFreeWorld(world) && stack >= DeclNeed(world, |PathSteps(keyPath)|, {}) ==> reported.Some?
  {
    var steps := ParsePath(keyPath);
    var walker := new Walker(world);
    var verdict := walker.LookupDecl(id, steps, stack);
    VerdictMeans(world, id, steps, stack);
    hide Readable, MayDecl, EnoughStack, IndexFreeWorld, DeclNeed, WalkDecl;
    return if verdict.None? then None else Some(verdict.value == Missing);
  }

  /** `A extends B, C`, where both `B` and `C` extend an empty `D`. */
  const DIAMOND: World :=
    World([DeclIn(0, Interface([], [Named("B"), Named("C")])),
           DeclIn(0, Interface([], [Named("D")])),
           DeclIn(0, Interface([], [Named("D")])),
           DeclIn(0, Interface([], []))],
          map[(0, "B") := 1, (0, "C") := 2, (0, "D") := 3])

  lemma {:induction false} DiamondIsReadable()
    ensures Readable(DIAMOND, 0, [Member("x")], true)
  {
    var r := Region(iset{0, 1, 2, 3}, iset{"x"}, true);
    forall id: nat | id in r.ids
      ensures id < |DIAMOND.decls| && LegibleDecl(DIAMOND, DIAMOND.decls[id], r)
    {
      assert DIAMOND.decls[id].decl.members == [];
    }
    assert LegibleRegion(DIAMOND, r) && 0 in r.ids && Within([Member("x")], r);
  }

  /**
   * Sharing the guard between siblings costs precision, never soundness: a key absent from the whole
   * diamond is `Unknown`, because the second way into `D` meets the first way's guard entry.
   */
  lemma DiamondIsUnknown()
    ensures Readable(DIAMOND, 0, [Member("x")], true)
    ensures WalkDecl(DIAMOND, 0, [Member("x")], {}, 10).Walked?
    ensures WalkDecl(DIAMOND, 0, [Member("x")], {}, 10).verdict == Unknown
    ensures forall n: nat :: !MayDecl(DIAMOND, 0, [Member("x")], n)
  {
    var steps := [Member("x")];
    DiamondIsReadable();
    var a, b, d := {(0, 1)}, {(0, 1), (1, 1)}, {(0, 1), (1, 1), (3, 1)};
    assert WalkDecl(DIAMOND, 3, steps, b, 8) == Walked(Missing, b + {(3, 1)}, false);
    assert WalkBases(DIAMOND, 0, [Named("D")], steps, b, 8) == Branches([Missing], d, false);
    assert WalkDecl(DIAMOND, 1, steps, a, 9) == Walked(Missing, d, false);
    assert WalkBases(DIAMOND, 0, [Named("D")], steps, d + {(2, 1)}, 8).verdicts == [Unknown];
    assert WalkDecl(DIAMOND, 2, steps, d, 9).verdict == Unknown;
    assert WalkBases(DIAMOND, 0, [Named("C")], steps, d, 9).verdicts == [Unknown];
    assert [Named("B"), Named("C")][1..] == [Named("C")];
    assert WalkBases(DIAMOND, 0, [Named("B"), Named("C")], steps, a, 9).verdicts == [Missing, Unknown];
    forall n: nat
      ensures !MayDecl(DIAMOND, 0, steps, n)
    {
      assert !MayDecl(DIAMOND, 3, steps, if n >= 2 then n - 2 else 0);
      assert !MayDecl(DIAMOND, 1, steps, if n >= 1 then n - 1 else 0);
      assert !MayDecl(DIAMOND, 2, steps, if n >= 1 then n - 1 else 0);
    }
  }
}
