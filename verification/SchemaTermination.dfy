/**
 * The guard makes the schema-path lookup terminate on every world in which no declaration leads back to
 * itself through the object of an indexed access, with a bound on its call depth; an indexed access that
 * does can lengthen the path for ever.
 */
module SchemaTermination {
  import opened Measures
  import opened Outcomes
  import opened SchemaPaths
  import opened SchemaLookup

  function Height(t: TypeNode): nat
    decreases t
  {
    1 + match t
      case Literal(members) => MembersHeight(members)
      case Parenthesized(inner) => Height(inner)
      case Operator(inner) => Height(inner)
      case Intersection(parts) => PartsHeight(parts)
      case Union(parts) => PartsHeight(parts)
      case ArrayOf(element) => Height(element)
      case Indexed(indexed, _) => Height(indexed)
      case Reference(_, args) => PartsHeight(args)
      case Opaque => 0
  }

  function PartsHeight(parts: seq<TypeNode>): nat
    decreases parts
  {
    if parts == [] then 0 else Max(Height(parts[0]), PartsHeight(parts[1..]))
  }

  function MembersHeight(members: seq<MemberDecl>): nat
    decreases members
  {
    if members == [] then 0
    else Max(if members[0].Property? && members[0].declared.Some? then Height(members[0].declared.value) else 0,
             MembersHeight(members[1..]))
  }

  predicate IndexFree(t: TypeNode)
    decreases t
  {
    match t
    case Literal(members) => IndexFreeMembers(members)
    case Parenthesized(inner) => IndexFree(inner)
    case Operator(inner) => IndexFree(inner)
    case Intersection(parts) => IndexFreeParts(parts)
    case Union(parts) => IndexFreeParts(parts)
    case ArrayOf(element) => IndexFree(element)
    case Indexed(_, index) => index.None?
    case Reference(_, args) => IndexFreeParts(args)
    case Opaque => true
  }

  predicate IndexFreeParts(parts: seq<TypeNode>)
    decreases parts
  {
    parts == [] || (IndexFree(parts[0]) && IndexFreeParts(parts[1..]))
  }

  predicate IndexFreeMembers(members: seq<MemberDecl>)
    decreases members
  {
    members == [] ||
    (&& (members[0].Property? && members[0].declared.Some? ==> IndexFree(members[0].declared.value))
     && IndexFreeMembers(members[1..]))
  }

  predicate IndexFreeWorld(w: World) {
    forall i :: 0 <= i < |w.decls| ==>
      match w.decls[i].decl
      case Interface(members, _) => IndexFreeMembers(members)
      case Alias(target) => IndexFree(target)
  }

  // ---- Levels ----

  /**
   * Everything the type leads to is of level `top` at most, and of a lower level the more indexed accesses
   * it is the object of: each of them makes the path one step longer.
   */
  predicate Descends(w: World, level: seq<nat>, file: nat, t: TypeNode, top: nat)
    decreases t
  {
    match t
    case Literal(members) => MembersDescend(w, level, file, members, top)
    case Parenthesized(inner) => Descends(w, level, file, inner, top)
    case Operator(inner) => Descends(w, level, file, inner, top)
    case Intersection(parts) => PartsDescend(w, level, file, parts, top)
    case Union(parts) => PartsDescend(w, level, file, parts, top)
    case ArrayOf(element) => Descends(w, level, file, element, top)
    case Indexed(indexed, index) => index.Some? ==> top > 0 && Descends(w, level, file, indexed, top - 1)
    case Reference(name, args) =>
      if (PassThrough(name) || ArrayName(name)) && args != [] then Descends(w, level, file, args[0], top)
      else LeadsDown(w, level, file, name, top)
    case Opaque => true
  }

  predicate LeadsDown(w: World, level: seq<nat>, file: nat, name: string, top: nat) {
    var id := Resolve(w, file, name);
    id.Some? ==> id.value < |level| && level[id.value] <= top
  }

  predicate PartsDescend(w: World, level: seq<nat>, file: nat, parts: seq<TypeNode>, top: nat)
    decreases parts
  {
    parts == [] || (Descends(w, level, file, parts[0], top) && PartsDescend(w, level, file, parts[1..], top))
  }

  predicate MembersDescend(w: World, level: seq<nat>, file: nat, members: seq<MemberDecl>, top: nat)
    decreases members
  {
    members == [] ||
    (&& (members[0].Property? && members[0].declared.Some? ==> Descends(w, level, file, members[0].declared.value, top))
     && MembersDescend(w, level, file, members[1..], top))
  }

  predicate BasesDescend(w: World, level: seq<nat>, file: nat, bases: seq<Base>, top: nat) {
    forall i :: 0 <= i < |bases| && bases[i].Named? ==> LeadsDown(w, level, file, bases[i].name, top)
  }

  predicate DeclDescends(w: World, level: seq<nat>, d: DeclIn, top: nat) {
    match d.decl
    case Interface(members, bases) =>
      MembersDescend(w, level, d.file, members, top) && BasesDescend(w, level, d.file, bases, top)
    case Alias(target) => Descends(w, level, d.file, target, top)
  }

  /**
   * Levels that show that no declaration leads back to itself through the object of an indexed access:
   * none is lower than what its declaration leads to, and each is higher than what stands in such an object.
   */
  predicate Levelled(w: World, level: seq<nat>) {
    |level| == |w.decls|
    && forall i {:trigger DeclDescends(w, level, w.decls[i], level[i])} :: 0 <= i < |w.decls| ==>
         DeclDescends(w, level, w.decls[i], level[i])
  }

  /** Some levels show that this much call depth is enough for a fresh lookup. */
  ghost predicate EnoughStack(w: World, id: nat, steps: seq<Step>, stack: nat)
    requires id < |w.decls|
  {
    exists level :: Levelled(w, level) && stack >= DeclNeed(w, |steps| + level[id], {})
  }

  function DeclHeight(d: Decl): nat {
    match d
    case Interface(members, _) => MembersHeight(members)
    case Alias(target) => Height(target)
  }

  function TallestDecl(decls: seq<DeclIn>): (h: nat)
    ensures forall i :: 0 <= i < |decls| ==> DeclHeight(decls[i].decl) <= h
  {
    if decls == [] then 0 else
    var rest := TallestDecl(decls[1..]);
    assert forall i :: 1 <= i < |decls| ==> decls[i] == decls[1..][i - 1];
    Max(DeclHeight(decls[0].decl), rest)
  }

  /** Every guard entry a walk with at most `k` steps left can make. */
  function Entries(w: World, k: nat): Guard {
    set d: nat, m: nat | d < |w.decls| && 1 <= m <= k :: (d, m)
  }

  function Unseen(w: World, k: nat, seen: Guard): nat {
    |Entries(w, k) - seen|
  }

  /** Call depth that is enough to enter a declaration. */
  function DeclNeed(w: World, k: nat, seen: Guard): nat {
    1 + Unseen(w, k, seen) * (TallestDecl(w.decls) + 2)
  }

  lemma NeedPositive(w: World, k: nat, seen: Guard)
    ensures DeclNeed(w, k, seen) > 0
  {
  }

  lemma NeedShrinks(w: World, k: nat, seen: Guard, k': nat, seen': Guard)
    requires k' <= k && seen <= seen'
    ensures DeclNeed(w, k', seen') <= DeclNeed(w, k, seen)
  {
    SubsetSize(Entries(w, k') - seen', Entries(w, k) - seen);
    MulMonotone(Unseen(w, k', seen'), Unseen(w, k, seen), TallestDecl(w.decls) + 2);
  }

  lemma MulMonotone(a: nat, b: nat, c: nat)
    requires a <= b
    ensures a * c <= b * c
  {
  }

  lemma {:induction false} EnteringUsesNeed(w: World, id: nat, k: nat, bound: nat, seen: Guard)
    requires id < |w.decls| && 1 <= k <= bound && (id, k) !in seen
    ensures DeclNeed(w, bound, seen + {(id, k)}) + TallestDecl(w.decls) + 2 <= DeclNeed(w, bound, seen)
  {
    var before, after := Entries(w, bound) - seen, Entries(w, bound) - (seen + {(id, k)});
    assert (id, k) in before;
    assert after == before - {(id, k)};
    MulMonotone(|after| + 1, |before|, TallestDecl(w.decls) + 2);
  }

  lemma {:induction false} FirstArgument(args: seq<TypeNode>)
    requires args != []
    ensures Height(args[0]) <= PartsHeight(args)
  {
  }

  lemma {:induction false} MemberBounds(w: World, level: seq<nat>, file: nat, members: seq<MemberDecl>, own: MemberDecl,
                                        top: nat)
    requires own in members && own.Property? && own.declared.Some?
    ensures Height(own.declared.value) <= MembersHeight(members)
    ensures MembersDescend(w, level, file, members, top) ==> Descends(w, level, file, own.declared.value, top)
  {
    if members[0] != own {
      MemberBounds(w, level, file, members[1..], own, top);
    }
  }

  /** A walk that finished, leaving a guard that only grew. */
  predicate Finished(walked: Walked, seen: Guard) {
    walked.Walked? && seen <= walked.seen
  }

  /** Every step that an indexed access adds is paid for by a level. */
  lemma {:induction false} LevelledTypeFinishes(w: World, level: seq<nat>, file: nat, t: TypeNode, top: nat,
                                                steps: seq<Step>, seen: Guard, stack: nat)
    requires Levelled(w, level) && Descends(w, level, file, t, top)
    requires stack >= Height(t) + DeclNeed(w, |steps| + top, seen)
    ensures Finished(WalkType(w, file, t, steps, seen, stack), seen)
    decreases stack, 0
  {
    hide Levelled, DeclNeed;
    if steps != [] {
      NeedShrinks(w, |steps| + top, seen, |steps| - 1 + top, seen);
      match t
      case Literal(members) =>
        if steps[0].Member? && FindProperty(members, steps[0].name).Some? {
          PropertyFinishes(w, level, file, members, FindProperty(members, steps[0].name).value, top, steps, seen,
                           stack - 1);
        }
      case Parenthesized(inner) => LevelledTypeFinishes(w, level, file, inner, top, steps, seen, stack - 1);
      case Operator(inner) => LevelledTypeFinishes(w, level, file, inner, top, steps, seen, stack - 1);
      case Intersection(parts) => PartsFinish(w, level, file, parts, top, steps, seen, stack - 1);
      case Union(parts) => PartsFinish(w, level, file, parts, top, steps, seen, stack - 1);
      case ArrayOf(element) =>
        if steps[0].Element? {
          LevelledTypeFinishes(w, level, file, element, top, steps[1..], seen, stack - 1);
        }
      case Indexed(indexed, index) =>
        if index.Some? {
          LevelledTypeFinishes(w, level, file, indexed, top - 1, [Member(index.value)] + steps, seen, stack - 1);
        }
      case Reference(name, args) =>
        ReferenceFinishes(w, level, file, name, args, top, steps, seen, stack);
      case Opaque =>
    }
  }

  lemma {:induction false} ReferenceFinishes(w: World, level: seq<nat>, file: nat, name: string, args: seq<TypeNode>,
                                             top: nat, steps: seq<Step>, seen: Guard, stack: nat)
    requires Levelled(w, level) && Descends(w, level, file, Reference(name, args), top) && steps != []
    requires stack >= Height(Reference(name, args)) + DeclNeed(w, |steps| + top, seen)
    ensures Finished(WalkType(w, file, Reference(name, args), steps, seen, stack), seen)
    decreases stack, 0, 0
  {
    hide Levelled, DeclNeed, PassThrough, ArrayName;
    if args != [] {
      FirstArgument(args);
    }
    if PassThrough(name) && args != [] {
      LevelledTypeFinishes(w, level, file, args[0], top, steps, seen, stack - 1);
    } else if ArrayName(name) && args != [] {
      if steps[0].Element? {
        NeedShrinks(w, |steps| + top, seen, |steps| - 1 + top, seen);
        LevelledTypeFinishes(w, level, file, args[0], top, steps[1..], seen, stack - 1);
      }
    } else if Resolve(w, file, name).Some? {
      var id := Resolve(w, file, name).value;
      NeedShrinks(w, |steps| + top, seen, |steps| + level[id], seen);
      LevelledDeclFinishes(w, level, id, steps, seen, stack - 1);
    }
  }

  lemma {:induction false} PropertyFinishes(w: World, level: seq<nat>, file: nat, members: seq<MemberDecl>,
                                            own: MemberDecl, top: nat, steps: seq<Step>, seen: Guard, stack: nat)
    requires Levelled(w, level) && MembersDescend(w, level, file, members, top)
    requires own in members && own.Property? && steps != []
    requires stack >= MembersHeight(members) + DeclNeed(w, |steps| + top, seen)
    ensures Finished(WalkProperty(w, file, own, steps, seen, stack), seen)
    decreases stack, 1
  {
    hide Levelled, DeclNeed;
    if |steps| > 1 && own.declared.Some? {
      MemberBounds(w, level, file, members, own, top);
      NeedShrinks(w, |steps| + top, seen, |steps| - 1 + top, seen);
      LevelledTypeFinishes(w, level, file, own.declared.value, top, steps[1..], seen, stack);
    }
  }

  lemma {:induction false} PartsFinish(w: World, level: seq<nat>, file: nat, parts: seq<TypeNode>, top: nat,
                                       steps: seq<Step>, seen: Guard, stack: nat)
    requires Levelled(w, level) && PartsDescend(w, level, file, parts, top)
    requires stack >= PartsHeight(parts) + DeclNeed(w, |steps| + top, seen)
    ensures var b := WalkParts(w, file, parts, steps, seen, stack); b.Branches? && seen <= b.seen
    decreases stack, |parts| + 1
  {
    hide Levelled, DeclNeed;
    if parts != [] {
      LevelledTypeFinishes(w, level, file, parts[0], top, steps, seen, stack);
      var first := WalkType(w, file, parts[0], steps, seen, stack);
      NeedShrinks(w, |steps| + top, seen, |steps| + top, first.seen);
      PartsFinish(w, level, file, parts[1..], top, steps, first.seen, stack);
    }
  }

  lemma {:induction false} BasesFinish(w: World, level: seq<nat>, file: nat, bases: seq<Base>, top: nat,
                                       steps: seq<Step>, seen: Guard, stack: nat)
    requires Levelled(w, level) && BasesDescend(w, level, file, bases, top)
    requires stack >= DeclNeed(w, |steps| + top, seen)
    ensures var b := WalkBases(w, file, bases, steps, seen, stack); b.Branches? && seen <= b.seen
    decreases stack, |bases| + 1
  {
    hide Levelled, DeclNeed;
    if bases != [] {
      if bases[0].Named? && Resolve(w, file, bases[0].name).Some? {
        var id := Resolve(w, file, bases[0].name).value;
        NeedShrinks(w, |steps| + top, seen, |steps| + level[id], seen);
        LevelledDeclFinishes(w, level, id, steps, seen, stack);
      }
      var first := WalkBase(w, file, bases[0], steps, seen, stack);
      NeedShrinks(w, |steps| + top, seen, |steps| + top, first.seen);
      BasesFinish(w, level, file, bases[1..], top, steps, first.seen, stack);
    }
  }

  /**
   * Termination: a call depth proportional to the guard entries still unmade is always enough, on any
   * recursive world that has levels and whatever the guard already holds.
   */
  lemma {:induction false} LevelledDeclFinishes(w: World, level: seq<nat>, id: nat, steps: seq<Step>, seen: Guard,
                                                stack: nat)
    requires Levelled(w, level) && id < |w.decls|
    requires stack >= DeclNeed(w, |steps| + level[id], seen)
    ensures Finished(WalkDecl(w, id, steps, seen, stack), seen)
    decreases stack, 0
  {
    var bound := |steps| + level[id];
    hide *;
    NeedPositive(w, bound, seen);
    if steps == [] || (id, |steps|) in seen {
      StopsAtOnce(w, id, steps, seen, stack);
    } else {
      EnteringUsesNeed(w, id, |steps|, bound, seen);
      EnteredFinishes(w, level, id, steps, seen, stack);
    }
  }

  lemma {:induction false} StopsAtOnce(w: World, id: nat, steps: seq<Step>, seen: Guard, stack: nat)
    requires id < |w.decls| && stack > 0 && (steps == [] || (id, |steps|) in seen)
    ensures Finished(WalkDecl(w, id, steps, seen, stack), seen)
  {
  }

  lemma {:induction false} EnteredFinishes(w: World, level: seq<nat>, id: nat, steps: seq<Step>, seen: Guard,
                                           stack: nat)
    requires Levelled(w, level) && id < |w.decls| && steps != [] && (id, |steps|) !in seen
    requires var entered := seen + {(id, |steps|)};
             stack > TallestDecl(w.decls) + DeclNeed(w, |steps| + level[id], entered)
    ensures Finished(WalkDecl(w, id, steps, seen, stack), seen)
    decreases stack, 0, 0
  {
    var entered, file, top := seen + {(id, |steps|)}, w.decls[id].file, level[id];
    assert DeclDescends(w, level, w.decls[id], level[id]);
    assert DeclHeight(w.decls[id].decl) <= TallestDecl(w.decls);
    hide DeclNeed, Levelled, TallestDecl;
    match w.decls[id].decl
    case Interface(members, bases) =>
      if steps[0].Member? {
        var own := FindProperty(members, steps[0].name);
        if own.Some? {
          PropertyFinishes(w, level, file, members, own.value, top, steps, entered, stack - 1);
        } else {
          BasesFinish(w, level, file, bases, top, steps, entered, stack - 1);
        }
      }
    case Alias(target) => LevelledTypeFinishes(w, level, file, target, top, steps, entered, stack - 1);
  }

  // ---- Without indexed accesses one level is enough ----

  function Flat(w: World): seq<nat> {
    seq(|w.decls|, _ => 0)
  }

  lemma {:induction false} IndexFreeDescends(w: World, file: nat, t: TypeNode)
    requires IndexFree(t)
    ensures Descends(w, Flat(w), file, t, 0)
    decreases t
  {
    match t
    case Literal(members) => IndexFreeMembersDescend(w, file, members);
    case Parenthesized(inner) => IndexFreeDescends(w, file, inner);
    case Operator(inner) => IndexFreeDescends(w, file, inner);
    case Intersection(parts) => IndexFreePartsDescend(w, file, parts);
    case Union(parts) => IndexFreePartsDescend(w, file, parts);
    case ArrayOf(element) => IndexFreeDescends(w, file, element);
    case Indexed(_, _) =>
    case Reference(name, args) =>
      if args != [] {
        IndexFreeDescends(w, file, args[0]);
      }
    case Opaque =>
  }

  lemma {:induction false} IndexFreePartsDescend(w: World, file: nat, parts: seq<TypeNode>)
    requires IndexFreeParts(parts)
    ensures PartsDescend(w, Flat(w), file, parts, 0)
    decreases parts
  {
    if parts != [] {
      IndexFreeDescends(w, file, parts[0]);
      IndexFreePartsDescend(w, file, parts[1..]);
    }
  }

  lemma {:induction false} IndexFreeMembersDescend(w: World, file: nat, members: seq<MemberDecl>)
    requires IndexFreeMembers(members)
    ensures MembersDescend(w, Flat(w), file, members, 0)
    decreases members
  {
    if members != [] {
      if members[0].Property? && members[0].declared.Some? {
        IndexFreeDescends(w, file, members[0].declared.value);
      }
      IndexFreeMembersDescend(w, file, members[1..]);
    }
  }

  lemma {:induction false} IndexFreeIsLevelled(w: World)
    requires IndexFreeWorld(w)
    ensures Levelled(w, Flat(w))
  {
    forall i | 0 <= i < |w.decls|
      ensures DeclDescends(w, Flat(w), w.decls[i], 0)
    {
      match w.decls[i].decl
      case Interface(members, _) => IndexFreeMembersDescend(w, w.decls[i].file, members);
      case Alias(target) => IndexFreeDescends(w, w.decls[i].file, target);
    }
  }

  lemma {:induction false} TypeFinishes(w: World, file: nat, t: TypeNode, steps: seq<Step>, seen: Guard, stack: nat)
    requires IndexFreeWorld(w) && IndexFree(t)
    requires stack >= Height(t) + DeclNeed(w, |steps|, seen)
    ensures Finished(WalkType(w, file, t, steps, seen, stack), seen)
  {
    IndexFreeIsLevelled(w);
    IndexFreeDescends(w, file, t);
    LevelledTypeFinishes(w, Flat(w), file, t, 0, steps, seen, stack);
  }

  /** In particular the walk finishes on every world without indexed accesses. */
  lemma {:induction false} DeclFinishes(w: World, id: nat, steps: seq<Step>, seen: Guard, stack: nat)
    requires IndexFreeWorld(w) && id < |w.decls|
    requires stack >= DeclNeed(w, |steps|, seen)
    ensures Finished(WalkDecl(w, id, steps, seen, stack), seen)
  {
    IndexFreeIsLevelled(w);
    LevelledDeclFinishes(w, Flat(w), id, steps, seen, stack);
  }

  // ---- A finished walk does not depend on how much call depth was left ----

  predicate SameUnlessOverflow(walked: Walked, deeper: Walked) {
    walked.Walked? ==> deeper == walked
  }

  lemma {:induction false} TypeStackIrrelevant(w: World, file: nat, t: TypeNode, steps: seq<Step>, seen: Guard,
                                               stack: nat, more: nat)
    requires stack <= more
    ensures SameUnlessOverflow(WalkType(w, file, t, steps, seen, stack), WalkType(w, file, t, steps, seen, more))
    decreases stack, 0
  {
    if stack > 0 && steps != [] {
      match t
      case Literal(members) =>
        if steps[0].Member? && FindProperty(members, steps[0].name).Some? {
          var own := FindProperty(members, steps[0].name).value;
          if own.declared.Some? {
            TypeStackIrrelevant(w, file, own.declared.value, steps[1..], seen, stack - 1, more - 1);
          }
          assert SameUnlessOverflow(WalkProperty(w, file, own, steps, seen, stack - 1),
                                    WalkProperty(w, file, own, steps, seen, more - 1));
        }
      case Parenthesized(inner) => TypeStackIrrelevant(w, file, inner, steps, seen, stack - 1, more - 1);
      case Operator(inner) => TypeStackIrrelevant(w, file, inner, steps, seen, stack - 1, more - 1);
      case Intersection(parts) => PartsStackIrrelevant(w, file, parts, steps, seen, stack - 1, more - 1);
      case Union(parts) => PartsStackIrrelevant(w, file, parts, steps, seen, stack - 1, more - 1);
      case ArrayOf(element) => TypeStackIrrelevant(w, file, element, steps[1..], seen, stack - 1, more - 1);
      case Indexed(indexed, index) =>
        if index.Some? {
          TypeStackIrrelevant(w, file, indexed, [Member(index.value)] + steps, seen, stack - 1, more - 1);
        }
      case Reference(name, args) =>
        if PassThrough(name) && args != [] {
          TypeStackIrrelevant(w, file, args[0], steps, seen, stack - 1, more - 1);
        } else if ArrayName(name) && args != [] {
          TypeStackIrrelevant(w, file, args[0], steps[1..], seen, stack - 1, more - 1);
        } else if Resolve(w, file, name).Some? {
          DeclStackIrrelevant(w, Resolve(w, file, name).value, steps, seen, stack - 1, more - 1);
        }
      case Opaque =>
    }
  }

  lemma {:induction false} PartsStackIrrelevant(w: World, file: nat, parts: seq<TypeNode>, steps: seq<Step>,
                                                seen: Guard, stack: nat, more: nat)
    requires stack <= more
    ensures WalkParts(w, file, parts, steps, seen, stack).Branches? ==>
      WalkParts(w, file, parts, steps, seen, more) == WalkParts(w, file, parts, steps, seen, stack)
    decreases stack, |parts| + 1
  {
    if parts != [] {
      TypeStackIrrelevant(w, file, parts[0], steps, seen, stack, more);
      var first := WalkType(w, file, parts[0], steps, seen, stack);
      if first.Walked? {
        PartsStackIrrelevant(w, file, parts[1..], steps, first.seen, stack, more);
      }
    }
  }

  lemma {:induction false} BasesStackIrrelevant(w: World, file: nat, bases: seq<Base>, steps: seq<Step>,
                                                seen: Guard, stack: nat, more: nat)
    requires stack <= more
    ensures WalkBases(w, file, bases, steps, seen, stack).Branches? ==>
      WalkBases(w, file, bases, steps, seen, more) == WalkBases(w, file, bases, steps, seen, stack)
    decreases stack, |bases| + 1
  {
    if bases != [] {
      if bases[0].Named? && Resolve(w, file, bases[0].name).Some? {
        DeclStackIrrelevant(w, Resolve(w, file, bases[0].name).value, steps, seen, stack, more);
      }
      var first := WalkBase(w, file, bases[0], steps, seen, stack);
      if first.Walked? {
        BasesStackIrrelevant(w, file, bases[1..], steps, first.seen, stack, more);
      }
    }
  }

  /** A verdict, once reached, is the same for every larger call depth. */
  lemma {:induction false} DeclStackIrrelevant(w: World, id: nat, steps: seq<Step>, seen: Guard, stack: nat, more: nat)
    requires id < |w.decls| && stack <= more
    ensures SameUnlessOverflow(WalkDecl(w, id, steps, seen, stack), WalkDecl(w, id, steps, seen, more))
    decreases stack, 0
  {
    if stack > 0 && steps != [] && (id, |steps|) !in seen {
      var entered, file := seen + {(id, |steps|)}, w.decls[id].file;
      match w.decls[id].decl
      case Interface(members, bases) =>
        if steps[0].Member? {
          var own := FindProperty(members, steps[0].name);
          if own.Some? {
            if own.value.declared.Some? {
              TypeStackIrrelevant(w, file, own.value.declared.value, steps[1..], entered, stack - 1, more - 1);
            }
            assert SameUnlessOverflow(WalkProperty(w, file, own.value, steps, entered, stack - 1),
                                      WalkProperty(w, file, own.value, steps, entered, more - 1));
          } else {
            BasesStackIrrelevant(w, file, bases, steps, entered, stack - 1, more - 1);
          }
        }
      case Alias(target) => TypeStackIrrelevant(w, file, target, steps, entered, stack - 1, more - 1);
    }
  }

  // ---- Indexed access can run for ever ----

  /** The one-declaration world of `type A = A['x']`. */
  const SELF_INDEX: World :=
    World([DeclIn(0, Alias(Indexed(Reference("A", []), Some("x"))))], map[(0, "A") := 0])

  /** The guard never fires on `type A = A['x']`, because every round has one step more than the last. */
  lemma {:induction false} SelfIndexNeverFinishes(steps: seq<Step>, seen: Guard, stack: nat)
    requires steps != [] && forall m: nat :: m >= |steps| ==> (0, m) !in seen
    ensures WalkDecl(SELF_INDEX, 0, steps, seen, stack).Overflow?
    decreases stack
  {
    if stack >= 3 {
      var entered := seen + {(0, |steps|)};
      var longer := [Member("x")] + steps;
      SelfIndexNeverFinishes(longer, entered, stack - 3);
      assert Resolve(SELF_INDEX, 0, "A") == Some(0);
      assert WalkType(SELF_INDEX, 0, Reference("A", []), longer, entered, stack - 2).Overflow?;
    } else if stack == 2 {
      assert WalkType(SELF_INDEX, 0, Indexed(Reference("A", []), Some("x")), steps, seen + {(0, |steps|)}, 1).Overflow?;
    }
  }

  /** That world has no levels. */
  lemma {:induction false} SelfIndexHasNoLevels(level: seq<nat>)
    ensures !Levelled(SELF_INDEX, level)
  {
    assert Resolve(SELF_INDEX, 0, "A") == Some(0);
    if |level| == 1 {
      var top := level[0];
      assert top > 0 ==> !Descends(SELF_INDEX, level, 0, Reference("A", []), top - 1);
      assert !DeclDescends(SELF_INDEX, level, SELF_INDEX.decls[0], top);
    }
  }
}
