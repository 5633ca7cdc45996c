/**
 * Exactly when the lookup's guard costs precision: the declarations that the walk without a guard would
 * enter, in order, each with the steps that remain, are listed twice somewhere or were entered before.
 */
module SchemaGuard {
  import opened Outcomes
  import opened SchemaPaths
  import opened SchemaLookup
  import opened SchemaSoundness

  // ---- What the walk would enter without a guard ----

  type Entry = (nat, nat)

  function EnteredByType(w: World, file: nat, t: TypeNode, steps: seq<Step>, stack: nat): seq<Entry>
    decreases stack, 0
  {
    if stack == 0 || steps == [] then []
    else match t
      case Literal(members) =>
        if steps[0].Element? || FindProperty(members, steps[0].name).None? then []
        else EnteredByProperty(w, file, FindProperty(members, steps[0].name).value, steps, stack - 1)
      case Parenthesized(inner) => EnteredByType(w, file, inner, steps, stack - 1)
      case Operator(inner) => EnteredByType(w, file, inner, steps, stack - 1)
      case Intersection(parts) => EnteredByParts(w, file, parts, steps, stack - 1)
      case Union(parts) => EnteredByParts(w, file, parts, steps, stack - 1)
      case ArrayOf(element) =>
        if steps[0].Element? then EnteredByType(w, file, element, steps[1..], stack - 1) else []
      case Indexed(indexed, index) =>
        if index.None? then [] else EnteredByType(w, file, indexed, [Member(index.value)] + steps, stack - 1)
      case Reference(name, args) =>
        if PassThrough(name) && args != [] then EnteredByType(w, file, args[0], steps, stack - 1)
        else if ArrayName(name) && args != [] then
          if steps[0].Element? then EnteredByType(w, file, args[0], steps[1..], stack - 1) else []
        else if Resolve(w, file, name).None? then []
        else EnteredByDecl(w, Resolve(w, file, name).value, steps, stack - 1)
      case Opaque => []
  }

  function EnteredByProperty(w: World, file: nat, own: MemberDecl, steps: seq<Step>, stack: nat): seq<Entry>
    requires own.Property? && steps != []
    decreases stack, 1
  {
    if |steps| == 1 || own.declared.None? then []
    else EnteredByType(w, file, own.declared.value, steps[1..], stack)
  }

  function EnteredByParts(w: World, file: nat, parts: seq<TypeNode>, steps: seq<Step>, stack: nat): seq<Entry>
    decreases stack, |parts| + 1
  {
    if parts == [] then []
    else EnteredByType(w, file, parts[0], steps, stack) + EnteredByParts(w, file, parts[1..], steps, stack)
  }

  function EnteredByBases(w: World, file: nat, bases: seq<Base>, steps: seq<Step>, stack: nat): seq<Entry>
    decreases stack, |bases| + 1
  {
    if bases == [] then []
    else EnteredByBase(w, file, bases[0], steps, stack) + EnteredByBases(w, file, bases[1..], steps, stack)
  }

  function EnteredByBase(w: World, file: nat, base: Base, steps: seq<Step>, stack: nat): seq<Entry>
    decreases stack, 1
  {
    if base.Computed? || Resolve(w, file, base.name).None? then []
    else EnteredByDecl(w, Resolve(w, file, base.name).value, steps, stack)
  }

  function EnteredByDecl(w: World, id: nat, steps: seq<Step>, stack: nat): seq<Entry>
    requires id < |w.decls|
    decreases stack, 0
  {
    if stack == 0 || steps == [] then []
    else [(id, |steps|)] + EnteredInside(w, id, steps, stack)
  }

  function EnteredInside(w: World, id: nat, steps: seq<Step>, stack: nat): seq<Entry>
    requires id < |w.decls| && stack > 0 && steps != []
    decreases stack, 0, 0
  {
    var file := w.decls[id].file;
    match w.decls[id].decl
    case Interface(members, bases) =>
      if steps[0].Element? then []
      else
        var own := FindProperty(members, steps[0].name);
        if own.Some? then EnteredByProperty(w, file, own.value, steps, stack - 1)
        else EnteredByBases(w, file, bases, steps, stack - 1)
    case Alias(target) => EnteredByType(w, file, target, steps, stack - 1)
  }

  // ---- No entry twice ----

  function Elements(entries: seq<Entry>): Guard {
    set i | 0 <= i < |entries| :: entries[i]
  }

  /** No entry is listed twice, and none was made before. */
  predicate AllNew(entries: seq<Entry>, seen: Guard) {
    && (forall i, j :: 0 <= i < j < |entries| ==> entries[i] != entries[j])
    && forall i :: 0 <= i < |entries| ==> entries[i] !in seen
  }

  lemma {:induction false} AllNewConcat(a: seq<Entry>, b: seq<Entry>, seen: Guard)
    ensures AllNew(a + b, seen) <==> AllNew(a, seen) && AllNew(b, seen + Elements(a))
    ensures Elements(a + b) == Elements(a) + Elements(b)
  {
    if AllNew(a + b, seen) {
      assert forall i :: 0 <= i < |a| ==> (a + b)[i] == a[i];
      assert forall i :: 0 <= i < |b| ==> (a + b)[|a| + i] == b[i];
    }
    forall e
      ensures e in Elements(a + b) <==> e in Elements(a) + Elements(b)
    {
      assert e in a + b <==> e in a || e in b;
    }
  }

  /** The guard fires exactly when some entry is not new; otherwise it collects them all. */
  predicate Tells(bailed: bool, seen': Guard, seen: Guard, entries: seq<Entry>) {
    (!bailed <==> AllNew(entries, seen)) && (!bailed ==> seen' == seen + Elements(entries))
  }

  lemma {:induction false} TellsNothing(seen: Guard)
    ensures Tells(false, seen, seen, [])
  {
  }

  lemma {:induction false} TellsBoth(bailed: bool, middle: Guard, bailed': bool, seen': Guard, seen: Guard,
                                     a: seq<Entry>, b: seq<Entry>)
    requires Tells(bailed, middle, seen, a) && Tells(bailed', seen', middle, b)
    ensures Tells(bailed || bailed', seen', seen, a + b)
  {
    hide AllNew;
    AllNewConcat(a, b, seen);
  }

  lemma {:induction false} TellsOne(entry: Entry, seen: Guard)
    requires entry !in seen
    ensures Tells(false, seen + {entry}, seen, [entry])
  {
    assert [entry][0] == entry;
    assert Elements([entry]) == {entry};
  }

  lemma {:induction false} TellsMet(entry: Entry, rest: seq<Entry>, seen: Guard)
    requires entry in seen
    ensures Tells(true, seen, seen, [entry] + rest)
  {
    assert ([entry] + rest)[0] == entry;
  }

  // ---- The guard fires exactly then ----

  lemma {:induction false} TypeTells(w: World, file: nat, t: TypeNode, steps: seq<Step>, seen: Guard, stack: nat)
    requires WalkType(w, file, t, steps, seen, stack).Walked?
    ensures var walked := WalkType(w, file, t, steps, seen, stack);
            Tells(walked.bailed, walked.seen, seen, EnteredByType(w, file, t, steps, stack))
    decreases stack, 0
  {
    hide Tells;
    TellsNothing(seen);
    if steps != [] {
      match t
      case Literal(members) =>
        if steps[0].Member? && FindProperty(members, steps[0].name).Some? {
          PropertyTells(w, file, FindProperty(members, steps[0].name).value, steps, seen, stack - 1);
        }
      case Parenthesized(inner) => TypeTells(w, file, inner, steps, seen, stack - 1);
      case Operator(inner) => TypeTells(w, file, inner, steps, seen, stack - 1);
      case Intersection(parts) => PartsTell(w, file, parts, steps, seen, stack - 1);
      case Union(parts) => PartsTell(w, file, parts, steps, seen, stack - 1);
      case ArrayOf(element) =>
        if steps[0].Element? {
          TypeTells(w, file, element, steps[1..], seen, stack - 1);
        }
      case Indexed(indexed, index) =>
        if index.Some? {
          TypeTells(w, file, indexed, [Member(index.value)] + steps, seen, stack - 1);
        }
      case Reference(name, args) =>
        if PassThrough(name) && args != [] {
          TypeTells(w, file, args[0], steps, seen, stack - 1);
        } else if ArrayName(name) && args != [] {
          if steps[0].Element? {
            TypeTells(w, file, args[0], steps[1..], seen, stack - 1);
          }
        } else if Resolve(w, file, name).Some? {
          DeclTells(w, Resolve(w, file, name).value, steps, seen, stack - 1);
        }
      case Opaque =>
    }
  }

  lemma {:induction false} PropertyTells(w: World, file: nat, own: MemberDecl, steps: seq<Step>, seen: Guard,
                                         stack: nat)
    requires own.Property? && steps != [] && WalkProperty(w, file, own, steps, seen, stack).Walked?
    ensures var walked := WalkProperty(w, file, own, steps, seen, stack);
            Tells(walked.bailed, walked.seen, seen, EnteredByProperty(w, file, own, steps, stack))
    decreases stack, 1
  {
    hide Tells;
    TellsNothing(seen);
    if |steps| > 1 && own.declared.Some? {
      TypeTells(w, file, own.declared.value, steps[1..], seen, stack);
    }
  }

  lemma {:induction false} PartsTell(w: World, file: nat, parts: seq<TypeNode>, steps: seq<Step>, seen: Guard,
                                     stack: nat)
    requires WalkParts(w, file, parts, steps, seen, stack).Branches?
    ensures var b := WalkParts(w, file, parts, steps, seen, stack);
            Tells(b.bailed, b.seen, seen, EnteredByParts(w, file, parts, steps, stack))
    decreases stack, |parts| + 1
  {
    hide Tells;
    TellsNothing(seen);
    if parts != [] {
      var first := WalkType(w, file, parts[0], steps, seen, stack);
      var rest := WalkParts(w, file, parts[1..], steps, first.seen, stack);
      TypeTells(w, file, parts[0], steps, seen, stack);
      PartsTell(w, file, parts[1..], steps, first.seen, stack);
      TellsBoth(first.bailed, first.seen, rest.bailed, rest.seen, seen,
                EnteredByType(w, file, parts[0], steps, stack), EnteredByParts(w, file, parts[1..], steps, stack));
    }
  }

  lemma {:induction false} BasesTell(w: World, file: nat, bases: seq<Base>, steps: seq<Step>, seen: Guard, stack: nat)
    requires WalkBases(w, file, bases, steps, seen, stack).Branches?
    ensures var b := WalkBases(w, file, bases, steps, seen, stack);
            Tells(b.bailed, b.seen, seen, EnteredByBases(w, file, bases, steps, stack))
    decreases stack, |bases| + 1
  {
    hide Tells;
    TellsNothing(seen);
    if bases != [] {
      var first := WalkBase(w, file, bases[0], steps, seen, stack);
      var rest := WalkBases(w, file, bases[1..], steps, first.seen, stack);
      if bases[0].Named? && Resolve(w, file, bases[0].name).Some? {
        DeclTells(w, Resolve(w, file, bases[0].name).value, steps, seen, stack);
      }
      BasesTell(w, file, bases[1..], steps, first.seen, stack);
      TellsBoth(first.bailed, first.seen, rest.bailed, rest.seen, seen,
                EnteredByBase(w, file, bases[0], steps, stack), EnteredByBases(w, file, bases[1..], steps, stack));
    }
  }

  /**
   * A finished walk met the guard exactly when some declaration would be reached twice, by the walk
   * without a guard, with as many steps left, or was entered before with as many.
   */
  lemma {:induction false} DeclTells(w: World, id: nat, steps: seq<Step>, seen: Guard, stack: nat)
    requires id < |w.decls| && WalkDecl(w, id, steps, seen, stack).Walked?
    ensures var walked := WalkDecl(w, id, steps, seen, stack);
            Tells(walked.bailed, walked.seen, seen, EnteredByDecl(w, id, steps, stack))
    decreases stack, 0
  {
    hide Tells;
    TellsNothing(seen);
    if steps != [] {
      var entry := (id, |steps|);
      if entry in seen {
        TellsMet(entry, EnteredInside(w, id, steps, stack), seen);
      } else {
        TellsOne(entry, seen);
        var walked := WalkDecl(w, id, steps, seen, stack);
        InsideTells(w, id, steps, seen, stack);
        TellsBoth(false, seen + {entry}, walked.bailed, walked.seen, seen, [entry],
                  EnteredInside(w, id, steps, stack));
      }
    }
  }

  lemma {:induction false} InsideTells(w: World, id: nat, steps: seq<Step>, seen: Guard, stack: nat)
    requires id < |w.decls| && steps != [] && stack > 0 && (id, |steps|) !in seen
    requires WalkDecl(w, id, steps, seen, stack).Walked?
    ensures var walked := WalkDecl(w, id, steps, seen, stack);
            Tells(walked.bailed, walked.seen, seen + {(id, |steps|)}, EnteredInside(w, id, steps, stack))
    decreases stack, 0, 0
  {
    hide Tells;
    var entered, file := seen + {(id, |steps|)}, w.decls[id].file;
    TellsNothing(entered);
    match w.decls[id].decl
    case Interface(members, bases) =>
      if steps[0].Member? {
        var own := FindProperty(members, steps[0].name);
        if own.Some? {
          PropertyTells(w, file, own.value, steps, entered, stack - 1);
        } else {
          BasesTell(w, file, bases, steps, entered, stack - 1);
        }
      }
    case Alias(target) => TypeTells(w, file, target, steps, entered, stack - 1);
  }

  // ---- What that means for the verdict ----

  /**
   * A fresh lookup that reaches no declaration twice with as many steps left is exact wherever the path's
   * own names are spelled.
   */
  lemma {:induction false} DistinctLookupIsExact(w: World, r: Region, id: nat, steps: seq<Step>, stack: nat)
    requires LegibleRegion(w, r) && r.closed && id in r.ids && Within(steps, r)
    requires WalkDecl(w, id, steps, {}, stack).Walked? && AllNew(EnteredByDecl(w, id, steps, stack), {})
    ensures var verdict := WalkDecl(w, id, steps, {}, stack).verdict;
            && (verdict == Found <==> exists n: nat :: HasDecl(w, id, steps, n))
            && (verdict == Missing <==> forall n: nat :: !MayDecl(w, id, steps, n))
  {
    DeclTells(w, id, steps, {}, stack);
    hide WalkDecl, EnteredByDecl, HasDecl, MayDecl, LegibleRegion, Within;
    UnguardedLookupIsExact(w, r, id, steps, {}, stack);
  }
}
