/**
 * What the verdicts of the schema-path lookup mean. Definite verdicts are right whatever the shared
 * guard holds, and a walk on which the guard never fired is exact: the guard can only turn a
 * definite answer into `Unknown`.
 */
module SchemaSoundness {
  import opened Outcomes
  import opened SchemaPaths
  import opened SchemaLookup

  /** What a verdict claims about presence within `n` unfoldings: `Found` is the lower bound. */
  ghost predicate Claims(walked: Walked, has: bool, may: bool) {
    walked.Walked? ==>
      && (walked.verdict == Found ==> has)
      && (!walked.bailed && walked.verdict != Missing ==> may)
  }

  /** What a verdict rules out within `n` unfoldings: `Missing` is the upper bound, in a closed region. */
  ghost predicate Excludes(walked: Walked, has: bool, may: bool, closed: bool) {
    walked.Walked? ==>
      && (closed && walked.verdict == Missing ==> !may)
      && (!walked.bailed && walked.verdict != Found ==> !has)
  }

  ghost predicate AllLegible(w: World, file: nat, parts: seq<TypeNode>, r: Region) {
    forall k :: 0 <= k < |parts| ==> Legible(w, file, parts[k], r)
  }

  /** One branch of a list, walked with the guard the earlier branches left behind. */
  ghost function Branch(b: Branches, i: nat): Walked
    requires b.Branches? ==> i < |b.verdicts|
  {
    if b.BranchOverflow? then Overflow else Walked(b.verdicts[i], b.seen, b.bailed)
  }

  lemma CombineWitness(verdicts: seq<Verdict>) returns (i: nat)
    requires Combine(verdicts) != Missing
    ensures i < |verdicts| && verdicts[i] == Combine(verdicts)
  {
    i :| 0 <= i < |verdicts| && verdicts[i] == Combine(verdicts);
  }

  lemma AgreeWitness(verdicts: seq<Verdict>, v: Verdict) returns (i: nat)
    requires v != Unknown && Agree(verdicts) != v && verdicts != []
    ensures i < |verdicts| && verdicts[i] != v
  {
    i :| 0 <= i < |verdicts| && verdicts[i] != v;
  }

  // ---- Lower bounds: what a walk claims has a derivation no deeper than its own stack ----

  lemma {:induction false} TypeClaims(w: World, r: Region, file: nat, t: TypeNode, steps: seq<Step>, seen: Guard,
                                      stack: nat)
    requires LegibleRegion(w, r) && Legible(w, file, t, r) && Within(steps, r)
    ensures Claims(WalkType(w, file, t, steps, seen, stack), Has(w, file, t, steps, stack),
                   May(w, file, t, steps, stack))
    decreases stack, 0
  {
    if stack > 0 && steps != [] {
      match t
      case Literal(members) =>
        if steps[0].Member? {
          if FindProperty(members, steps[0].name).Some? {
            PropertyClaims(w, r, file, members, FindProperty(members, steps[0].name).value, steps, seen, stack - 1);
          }
        }
      case Parenthesized(inner) => TypeClaims(w, r, file, inner, steps, seen, stack - 1);
      case Operator(inner) => TypeClaims(w, r, file, inner, steps, seen, stack - 1);
      case Intersection(parts) =>
        var b := WalkParts(w, file, parts, steps, seen, stack - 1);
        EveryPartClaims(w, r, file, parts, steps, seen, stack - 1);
        if b.Branches? && Combine(b.verdicts) != Missing {
          var i := CombineWitness(b.verdicts);
          assert Claims(Branch(b, i), Has(w, file, parts[i], steps, stack - 1),
                        May(w, file, parts[i], steps, stack - 1));
        }
      case Union(parts) =>
        var b := WalkParts(w, file, parts, steps, seen, stack - 1);
        EveryPartClaims(w, r, file, parts, steps, seen, stack - 1);
        if b.Branches? && parts != [] && Agree(b.verdicts) != Missing {
          var i := AgreeWitness(b.verdicts, Missing);
          assert Claims(Branch(b, i), Has(w, file, parts[i], steps, stack - 1),
                        May(w, file, parts[i], steps, stack - 1));
        }
      case ArrayOf(element) =>
        if steps[0].Element? {
          TypeClaims(w, r, file, element, steps[1..], seen, stack - 1);
        }
      case Indexed(indexed, index) =>
        if index.Some? {
          TypeClaims(w, r, file, indexed, [Member(index.value)] + steps, seen, stack - 1);
        }
      case Reference(name, args) =>
        if PassThrough(name) && args != [] {
          TypeClaims(w, r, file, args[0], steps, seen, stack - 1);
        } else if ArrayName(name) && args != [] {
          if steps[0].Element? {
            TypeClaims(w, r, file, args[0], steps[1..], seen, stack - 1);
          }
        } else if Resolve(w, file, name).Some? {
          DeclClaims(w, r, Resolve(w, file, name).value, steps, seen, stack - 1);
        }
      case Opaque =>
    }
  }

  lemma {:induction false} PropertyClaims(w: World, r: Region, file: nat, members: seq<MemberDecl>, own: MemberDecl,
                                          steps: seq<Step>, seen: Guard, stack: nat)
    requires LegibleRegion(w, r) && Legible(w, file, Literal(members), r) && Within(steps, r)
    requires own in members && own.Property? && own.text in r.names && steps != []
    ensures Claims(WalkProperty(w, file, own, steps, seen, stack), HasBelow(w, file, own, steps, stack),
                   MayBelow(w, file, own, steps, stack))
    decreases stack, 1
  {
    if |steps| > 1 && own.declared.Some? {
      var i :| 0 <= i < |members| && members[i] == own;
      TypeClaims(w, r, file, own.declared.value, steps[1..], seen, stack);
    }
  }

  lemma {:induction false} EveryPartClaims(w: World, r: Region, file: nat, parts: seq<TypeNode>, steps: seq<Step>,
                                           seen: Guard, stack: nat)
    requires LegibleRegion(w, r) && AllLegible(w, file, parts, r) && Within(steps, r)
    ensures forall i :: 0 <= i < |parts| ==>
      Claims(Branch(WalkParts(w, file, parts, steps, seen, stack), i), Has(w, file, parts[i], steps, stack),
             May(w, file, parts[i], steps, stack))
    decreases stack, |parts| + 1
  {
    if parts != [] {
      var first := WalkType(w, file, parts[0], steps, seen, stack);
      TypeClaims(w, r, file, parts[0], steps, seen, stack);
      if first.Walked? {
        EveryPartClaims(w, r, file, parts[1..], steps, first.seen, stack);
      }
      forall i | 0 <= i < |parts|
        ensures Claims(Branch(WalkParts(w, file, parts, steps, seen, stack), i),
                       Has(w, file, parts[i], steps, stack), May(w, file, parts[i], steps, stack))
      {
        if i > 0 {
          assert parts[1..][i - 1] == parts[i];
        }
      }
    }
  }

  lemma {:induction false} EveryBaseClaims(w: World, r: Region, file: nat, bases: seq<Base>, steps: seq<Step>,
                                           seen: Guard, stack: nat)
    requires LegibleRegion(w, r) && LegibleBases(w, file, bases, r) && Within(steps, r)
    ensures forall i :: 0 <= i < |bases| ==>
      Claims(Branch(WalkBases(w, file, bases, steps, seen, stack), i), HasBase(w, file, bases[i], steps, stack),
             MayBase(w, file, bases[i], steps, stack))
    decreases stack, |bases| + 1
  {
    if bases != [] {
      var first := WalkBase(w, file, bases[0], steps, seen, stack);
      if bases[0].Named? && Resolve(w, file, bases[0].name).Some? {
        DeclClaims(w, r, Resolve(w, file, bases[0].name).value, steps, seen, stack);
      }
      if first.Walked? {
        EveryBaseClaims(w, r, file, bases[1..], steps, first.seen, stack);
      }
      forall i | 0 <= i < |bases|
        ensures Claims(Branch(WalkBases(w, file, bases, steps, seen, stack), i),
                       HasBase(w, file, bases[i], steps, stack), MayBase(w, file, bases[i], steps, stack))
      {
        if i > 0 {
          assert bases[1..][i - 1] == bases[i];
        }
      }
    }
  }

  lemma {:induction false} DeclClaims(w: World, r: Region, id: nat, steps: seq<Step>, seen: Guard, stack: nat)
    requires LegibleRegion(w, r) && id in r.ids && Within(steps, r)
    ensures Claims(WalkDecl(w, id, steps, seen, stack), HasDecl(w, id, steps, stack), MayDecl(w, id, steps, stack))
    decreases stack, 0
  {
    if stack > 0 && steps != [] && (id, |steps|) !in seen {
      var entered, file := seen + {(id, |steps|)}, w.decls[id].file;
      match w.decls[id].decl
      case Interface(members, bases) =>
        if steps[0].Member? {
          var own := FindProperty(members, steps[0].name);
          if own.Some? {
            PropertyClaims(w, r, file, members, own.value, steps, entered, stack - 1);
          } else {
            var b := WalkBases(w, file, bases, steps, entered, stack - 1);
            EveryBaseClaims(w, r, file, bases, steps, entered, stack - 1);
            if b.Branches? && Combine(b.verdicts) != Missing {
              var i := CombineWitness(b.verdicts);
              assert Claims(Branch(b, i), HasBase(w, file, bases[i], steps, stack - 1),
                            MayBase(w, file, bases[i], steps, stack - 1));
            }
          }
        }
      case Alias(target) => TypeClaims(w, r, file, target, steps, entered, stack - 1);
    }
  }

  // ---- Upper bounds: what a walk excludes is excluded at every depth ----

  lemma {:induction false} TypeExcludes(w: World, r: Region, file: nat, t: TypeNode, steps: seq<Step>, seen: Guard,
                                        stack: nat, n: nat)
    requires LegibleRegion(w, r) && Legible(w, file, t, r) && Within(steps, r)
    ensures Excludes(WalkType(w, file, t, steps, seen, stack), Has(w, file, t, steps, n), May(w, file, t, steps, n),
                     r.closed)
    decreases stack, 0
  {
    if stack > 0 && n > 0 && steps != [] {
      match t
      case Literal(members) =>
        if steps[0].Member? {
          if FindProperty(members, steps[0].name).Some? {
            PropertyExcludes(w, r, file, members, FindProperty(members, steps[0].name).value, steps, seen, stack - 1,
                             n - 1);
          }
        }
      case Parenthesized(inner) => TypeExcludes(w, r, file, inner, steps, seen, stack - 1, n - 1);
      case Operator(inner) => TypeExcludes(w, r, file, inner, steps, seen, stack - 1, n - 1);
      case Intersection(parts) => EveryPartExcludes(w, r, file, parts, steps, seen, stack - 1, n - 1);
      case Union(parts) =>
        var b := WalkParts(w, file, parts, steps, seen, stack - 1);
        EveryPartExcludes(w, r, file, parts, steps, seen, stack - 1, n - 1);
        if b.Branches? && parts != [] && Agree(b.verdicts) != Found {
          var i := AgreeWitness(b.verdicts, Found);
          assert Excludes(Branch(b, i), Has(w, file, parts[i], steps, n - 1), May(w, file, parts[i], steps, n - 1),
                          r.closed);
        }
      case ArrayOf(element) =>
        if steps[0].Element? {
          TypeExcludes(w, r, file, element, steps[1..], seen, stack - 1, n - 1);
        }
      case Indexed(indexed, index) =>
        if index.Some? {
          TypeExcludes(w, r, file, indexed, [Member(index.value)] + steps, seen, stack - 1, n - 1);
        }
      case Reference(name, args) =>
        if PassThrough(name) && args != [] {
          TypeExcludes(w, r, file, args[0], steps, seen, stack - 1, n - 1);
        } else if ArrayName(name) && args != [] {
          if steps[0].Element? {
            TypeExcludes(w, r, file, args[0], steps[1..], seen, stack - 1, n - 1);
          }
        } else if Resolve(w, file, name).Some? {
          DeclExcludes(w, r, Resolve(w, file, name).value, steps, seen, stack - 1, n - 1);
        }
      case Opaque =>
    }
  }

  lemma {:induction false} PropertyExcludes(w: World, r: Region, file: nat, members: seq<MemberDecl>, own: MemberDecl,
                                            steps: seq<Step>, seen: Guard, stack: nat, n: nat)
    requires LegibleRegion(w, r) && Legible(w, file, Literal(members), r) && Within(steps, r)
    requires own in members && own.Property? && own.text in r.names && steps != []
    ensures Excludes(WalkProperty(w, file, own, steps, seen, stack), HasBelow(w, file, own, steps, n),
                     MayBelow(w, file, own, steps, n), r.closed)
    decreases stack, 1
  {
    if |steps| > 1 && own.declared.Some? {
      var i :| 0 <= i < |members| && members[i] == own;
      TypeExcludes(w, r, file, own.declared.value, steps[1..], seen, stack, n);
    }
  }

  lemma {:induction false} EveryPartExcludes(w: World, r: Region, file: nat, parts: seq<TypeNode>, steps: seq<Step>,
                                             seen: Guard, stack: nat, n: nat)
    requires LegibleRegion(w, r) && AllLegible(w, file, parts, r) && Within(steps, r)
    ensures forall i :: 0 <= i < |parts| ==>
      Excludes(Branch(WalkParts(w, file, parts, steps, seen, stack), i), Has(w, file, parts[i], steps, n),
               May(w, file, parts[i], steps, n), r.closed)
    decreases stack, |parts| + 1
  {
    if parts != [] {
      var first := WalkType(w, file, parts[0], steps, seen, stack);
      TypeExcludes(w, r, file, parts[0], steps, seen, stack, n);
      if first.Walked? {
        EveryPartExcludes(w, r, file, parts[1..], steps, first.seen, stack, n);
      }
      forall i | 0 <= i < |parts|
        ensures Excludes(Branch(WalkParts(w, file, parts, steps, seen, stack), i),
                         Has(w, file, parts[i], steps, n), May(w, file, parts[i], steps, n), r.closed)
      {
        if i > 0 {
          assert parts[1..][i - 1] == parts[i];
        }
      }
    }
  }

  lemma {:induction false} EveryBaseExcludes(w: World, r: Region, file: nat, bases: seq<Base>, steps: seq<Step>,
                                             seen: Guard, stack: nat, n: nat)
    requires LegibleRegion(w, r) && LegibleBases(w, file, bases, r) && Within(steps, r)
    ensures forall i :: 0 <= i < |bases| ==>
      Excludes(Branch(WalkBases(w, file, bases, steps, seen, stack), i), HasBase(w, file, bases[i], steps, n),
               MayBase(w, file, bases[i], steps, n), r.closed)
    decreases stack, |bases| + 1
  {
    if bases != [] {
      var first := WalkBase(w, file, bases[0], steps, seen, stack);
      if bases[0].Named? && Resolve(w, file, bases[0].name).Some? {
        DeclExcludes(w, r, Resolve(w, file, bases[0].name).value, steps, seen, stack, n);
      }
      if first.Walked? {
        EveryBaseExcludes(w, r, file, bases[1..], steps, first.seen, stack, n);
      }
      forall i | 0 <= i < |bases|
        ensures Excludes(Branch(WalkBases(w, file, bases, steps, seen, stack), i),
                         HasBase(w, file, bases[i], steps, n), MayBase(w, file, bases[i], steps, n), r.closed)
      {
        if i > 0 {
          assert bases[1..][i - 1] == bases[i];
        }
      }
    }
  }

  lemma {:induction false} DeclExcludes(w: World, r: Region, id: nat, steps: seq<Step>, seen: Guard, stack: nat, n: nat)
    requires LegibleRegion(w, r) && id in r.ids && Within(steps, r)
    ensures Excludes(WalkDecl(w, id, steps, seen, stack), HasDecl(w, id, steps, n), MayDecl(w, id, steps, n), r.closed)
    decreases stack, 0
  {
    if stack > 0 && n > 0 && steps != [] && (id, |steps|) !in seen {
      var entered, file := seen + {(id, |steps|)}, w.decls[id].file;
      match w.decls[id].decl
      case Interface(members, bases) =>
        if steps[0].Member? {
          var own := FindProperty(members, steps[0].name);
          if own.Some? {
            PropertyExcludes(w, r, file, members, own.value, steps, entered, stack - 1, n - 1);
          } else {
            EveryBaseExcludes(w, r, file, bases, steps, entered, stack - 1, n - 1);
          }
        }
      case Alias(target) => TypeExcludes(w, r, file, target, steps, entered, stack - 1, n - 1);
    }
  }

  // ---- The documented contract ----

  /** Some legible region holds the declaration and the path, and is closed if need be. */
  ghost predicate Readable(w: World, id: nat, steps: seq<Step>, closed: bool) {
    exists r: Region :: LegibleRegion(w, r) && id in r.ids && Within(steps, r) && (closed ==> r.closed)
  }

  /**
   * Soundness for every guard, wherever the path's own names are spelled: `Found` means the path is
   * present in every branch; `Missing` means, where the region is closed, that it is present in none
   * at any unfolding.
   */
  lemma {:induction false} LookupIsSound(w: World, r: Region, id: nat, steps: seq<Step>, seen: Guard, stack: nat)
    requires LegibleRegion(w, r) && id in r.ids && Within(steps, r)
    ensures var walked := WalkDecl(w, id, steps, seen, stack);
            && (walked.Walked? && walked.verdict == Found ==> HasDecl(w, id, steps, stack))
            && (walked.Walked? && walked.verdict == Missing && r.closed ==> forall n: nat :: !MayDecl(w, id, steps, n))
  {
    DeclClaims(w, r, id, steps, seen, stack);
    forall n: nat
      ensures Excludes(WalkDecl(w, id, steps, seen, stack), HasDecl(w, id, steps, n), MayDecl(w, id, steps, n),
                       r.closed)
    {
      DeclExcludes(w, r, id, steps, seen, stack, n);
    }
  }

  /** When the guard never fired the verdict is exactly the three-valued truth. */
  lemma {:induction false} UnguardedLookupIsExact(w: World, r: Region, id: nat, steps: seq<Step>, seen: Guard,
                                                  stack: nat)
    requires LegibleRegion(w, r) && id in r.ids && Within(steps, r)
    requires WalkDecl(w, id, steps, seen, stack).Walked? && !WalkDecl(w, id, steps, seen, stack).bailed
    ensures WalkDecl(w, id, steps, seen, stack).verdict == Found <==> exists n: nat :: HasDecl(w, id, steps, n)
    ensures WalkDecl(w, id, steps, seen, stack).verdict != Missing ==> exists n: nat :: MayDecl(w, id, steps, n)
    ensures r.closed && WalkDecl(w, id, steps, seen, stack).verdict == Missing ==>
              forall n: nat :: !MayDecl(w, id, steps, n)
  {
    DeclClaims(w, r, id, steps, seen, stack);
    var v := WalkDecl(w, id, steps, seen, stack).verdict;
    assert v == Found ==> HasDecl(w, id, steps, stack);
    assert v != Missing ==> MayDecl(w, id, steps, stack);
    forall n: nat
      ensures v != Found ==> !HasDecl(w, id, steps, n)
      ensures r.closed && v == Missing ==> !MayDecl(w, id, steps, n)
    {
      DeclExcludes(w, r, id, steps, seen, stack, n);
    }
  }

  /** What is surely there cannot be called absent, whatever another guard holds. */
  lemma {:induction false} RegionVerdictsAgree(w: World, r: Region, id: nat, steps: seq<Step>,
                                               seen: Guard, stack: nat, seen': Guard, stack': nat)
    requires LegibleRegion(w, r) && r.closed && id in r.ids && Within(steps, r)
    requires WalkDecl(w, id, steps, seen, stack).Walked? && WalkDecl(w, id, steps, seen', stack').Walked?
    ensures Agreeing(WalkDecl(w, id, steps, seen, stack).verdict, WalkDecl(w, id, steps, seen', stack').verdict)
  {
    LookupIsSound(w, r, id, steps, seen, stack);
    LookupIsSound(w, r, id, steps, seen', stack');
    if HasDecl(w, id, steps, stack) {
      PresentInDecl(w, id, steps, stack);
    }
    if HasDecl(w, id, steps, stack') {
      PresentInDecl(w, id, steps, stack');
    }
  }

  /** Not one `Found` and the other `Missing`. */
  predicate Agreeing(v: Verdict, v': Verdict) {
    v == v' || v == Unknown || v' == Unknown
  }

  // ---- Present and absent exclude each other ----

  lemma {:induction false} PresentIsPossible(w: World, file: nat, t: TypeNode, steps: seq<Step>, n: nat)
    requires Has(w, file, t, steps, n)
    ensures May(w, file, t, steps, n)
    decreases n, 0
  {
    if steps != [] {
      match t
      case Literal(members) =>
        PresentBelow(w, file, FindMember(members, steps[0].name).value, steps, n - 1);
      case Parenthesized(inner) => PresentIsPossible(w, file, inner, steps, n - 1);
      case Operator(inner) => PresentIsPossible(w, file, inner, steps, n - 1);
      case Intersection(parts) =>
        var i :| 0 <= i < |parts| && Has(w, file, parts[i], steps, n - 1);
        PresentIsPossible(w, file, parts[i], steps, n - 1);
      case Union(parts) =>
        if parts != [] {
          PresentIsPossible(w, file, parts[0], steps, n - 1);
        }
      case ArrayOf(element) => PresentIsPossible(w, file, element, steps[1..], n - 1);
      case Indexed(indexed, index) => PresentIsPossible(w, file, indexed, [Member(index.value)] + steps, n - 1);
      case Reference(name, args) =>
        if PassThrough(name) && args != [] {
          PresentIsPossible(w, file, args[0], steps, n - 1);
        } else if ArrayName(name) && args != [] {
          PresentIsPossible(w, file, args[0], steps[1..], n - 1);
        } else {
          PresentInDecl(w, Resolve(w, file, name).value, steps, n - 1);
        }
    }
  }

  lemma {:induction false} PresentBelow(w: World, file: nat, own: MemberDecl, steps: seq<Step>, n: nat)
    requires steps != [] && HasBelow(w, file, own, steps, n)
    ensures MayBelow(w, file, own, steps, n)
    decreases n, 1
  {
    if |steps| > 1 {
      PresentIsPossible(w, file, own.declared.value, steps[1..], n);
    }
  }

  lemma {:induction false} PresentInDecl(w: World, id: nat, steps: seq<Step>, n: nat)
    requires id < |w.decls| && HasDecl(w, id, steps, n)
    ensures MayDecl(w, id, steps, n)
    decreases n, 0
  {
    if steps != [] {
      var file := w.decls[id].file;
      match w.decls[id].decl
      case Interface(members, bases) =>
        if FindMember(members, steps[0].name).Some? {
          PresentBelow(w, file, FindMember(members, steps[0].name).value, steps, n - 1);
        } else {
          var i :| 0 <= i < |bases| && HasBase(w, file, bases[i], steps, n - 1);
          PresentInDecl(w, Resolve(w, file, bases[i].name).value, steps, n - 1);
          assert MayBase(w, file, bases[i], steps, n - 1);
        }
      case Alias(target) => PresentIsPossible(w, file, target, steps, n - 1);
    }
  }
}
