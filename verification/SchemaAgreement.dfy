/**
 * Definite verdicts agree in every world: a lookup reads only what is written, so it is the same in the
 * world where each member declares exactly its written name, and there every region is legible.
 */
module SchemaAgreement {
  import opened Outcomes
  import opened SchemaPaths
  import opened SchemaLookup
  import opened SchemaSoundness

  // ---- The world as written ----

  /** The properties alone, each declaring the name it is written with. */
  function WrittenMembers(members: seq<MemberDecl>): seq<MemberDecl> {
    if members == [] then []
    else
      match members[0]
      case Property(text, _, declared) =>
        [Property(text, text, if declared.Some? then Some(WrittenType(declared.value)) else None)]
        + WrittenMembers(members[1..])
      case Method(_) => WrittenMembers(members[1..])
      case IndexSignature => WrittenMembers(members[1..])
  }

  function WrittenParts(parts: seq<TypeNode>): (written: seq<TypeNode>)
    ensures |written| == |parts|
  {
    if parts == [] then [] else [WrittenType(parts[0])] + WrittenParts(parts[1..])
  }

  function WrittenType(t: TypeNode): TypeNode {
    match t
    case Literal(members) => Literal(WrittenMembers(members))
    case Parenthesized(inner) => Parenthesized(WrittenType(inner))
    case Operator(inner) => Operator(WrittenType(inner))
    case Intersection(parts) => Intersection(WrittenParts(parts))
    case Union(parts) => Union(WrittenParts(parts))
    case ArrayOf(element) => ArrayOf(WrittenType(element))
    case Indexed(indexed, index) => Indexed(WrittenType(indexed), index)
    case Reference(name, args) => Reference(name, WrittenParts(args))
    case Opaque => Opaque
  }

  function WrittenDecl(d: DeclIn): DeclIn {
    match d.decl
    case Interface(members, bases) => DeclIn(d.file, Interface(WrittenMembers(members), bases))
    case Alias(target) => DeclIn(d.file, Alias(WrittenType(target)))
  }

  function WrittenDecls(decls: seq<DeclIn>): (written: seq<DeclIn>)
    ensures |written| == |decls|
    ensures forall i :: 0 <= i < |decls| ==> written[i] == WrittenDecl(decls[i])
  {
    seq(|decls|, i requires 0 <= i < |decls| => WrittenDecl(decls[i]))
  }

  function Written(w: World): World {
    World(WrittenDecls(w.decls), w.scope)
  }

  function WrittenProperty(m: MemberDecl): MemberDecl
    requires m.Property?
  {
    Property(m.text, m.text, if m.declared.Some? then Some(WrittenType(m.declared.value)) else None)
  }

  lemma {:induction false} WrittenFind(members: seq<MemberDecl>, name: string)
    ensures FindProperty(WrittenMembers(members), name) ==
      if FindProperty(members, name).Some? then Some(WrittenProperty(FindProperty(members, name).value)) else None
  {
    if members != [] {
      WrittenFind(members[1..], name);
      var rest := WrittenMembers(members[1..]);
      if members[0].Property? {
        assert ([WrittenProperty(members[0])] + rest)[1..] == rest;
      }
    }
  }

  lemma {:induction false} WrittenPart(parts: seq<TypeNode>)
    requires parts != []
    ensures WrittenParts(parts)[0] == WrittenType(parts[0]) && WrittenParts(parts)[1..] == WrittenParts(parts[1..])
  {
  }

  // ---- The lookup reads only what is written ----

  lemma {:induction false} WrittenTypeWalk(w: World, file: nat, t: TypeNode, steps: seq<Step>, seen: Guard, stack: nat)
    ensures WalkType(Written(w), file, WrittenType(t), steps, seen, stack) == WalkType(w, file, t, steps, seen, stack)
    decreases stack, 0
  {
    if stack > 0 && steps != [] {
      match t
      case Literal(members) =>
        if steps[0].Member? {
          WrittenFind(members, steps[0].name);
          if FindProperty(members, steps[0].name).Some? {
            WrittenPropertyWalk(w, file, FindProperty(members, steps[0].name).value, steps, seen, stack - 1);
          }
        }
      case Parenthesized(inner) => WrittenTypeWalk(w, file, inner, steps, seen, stack - 1);
      case Operator(inner) => WrittenTypeWalk(w, file, inner, steps, seen, stack - 1);
      case Intersection(parts) => WrittenPartsWalk(w, file, parts, steps, seen, stack - 1);
      case Union(parts) => WrittenPartsWalk(w, file, parts, steps, seen, stack - 1);
      case ArrayOf(element) =>
        if steps[0].Element? {
          WrittenTypeWalk(w, file, element, steps[1..], seen, stack - 1);
        }
      case Indexed(indexed, index) =>
        if index.Some? {
          WrittenTypeWalk(w, file, indexed, [Member(index.value)] + steps, seen, stack - 1);
        }
      case Reference(name, args) => WrittenReferenceWalk(w, file, name, args, steps, seen, stack);
      case Opaque =>
    }
  }

  lemma {:induction false} WrittenReferenceWalk(w: World, file: nat, name: string, args: seq<TypeNode>,
                                                steps: seq<Step>, seen: Guard, stack: nat)
    requires stack > 0 && steps != []
    ensures WalkType(Written(w), file, WrittenType(Reference(name, args)), steps, seen, stack)
         == WalkType(w, file, Reference(name, args), steps, seen, stack)
    decreases stack, 0, 0
  {
    if args != [] {
      WrittenPart(args);
    }
    assert Resolve(Written(w), file, name) == Resolve(w, file, name);
    if PassThrough(name) && args != [] {
      WrittenTypeWalk(w, file, args[0], steps, seen, stack - 1);
    } else if ArrayName(name) && args != [] {
      if steps[0].Element? {
        WrittenTypeWalk(w, file, args[0], steps[1..], seen, stack - 1);
      }
    } else if Resolve(w, file, name).Some? {
      WrittenDeclWalk(w, Resolve(w, file, name).value, steps, seen, stack - 1);
    }
  }

  lemma {:induction false} WrittenPropertyWalk(w: World, file: nat, own: MemberDecl, steps: seq<Step>, seen: Guard,
                                               stack: nat)
    requires own.Property? && steps != []
    ensures WalkProperty(Written(w), file, WrittenProperty(own), steps, seen, stack) ==
            WalkProperty(w, file, own, steps, seen, stack)
    decreases stack, 1
  {
    if |steps| > 1 && own.declared.Some? {
      WrittenTypeWalk(w, file, own.declared.value, steps[1..], seen, stack);
    }
  }

  lemma {:induction false} WrittenPartsWalk(w: World, file: nat, parts: seq<TypeNode>, steps: seq<Step>, seen: Guard,
                                            stack: nat)
    ensures WalkParts(Written(w), file, WrittenParts(parts), steps, seen, stack) ==
            WalkParts(w, file, parts, steps, seen, stack)
    decreases stack, |parts| + 1
  {
    if parts != [] {
      WrittenPart(parts);
      WrittenTypeWalk(w, file, parts[0], steps, seen, stack);
      var first := WalkType(w, file, parts[0], steps, seen, stack);
      if first.Walked? {
        WrittenPartsWalk(w, file, parts[1..], steps, first.seen, stack);
      }
    }
  }

  lemma {:induction false} WrittenBasesWalk(w: World, file: nat, bases: seq<Base>, steps: seq<Step>, seen: Guard,
                                            stack: nat)
    ensures WalkBases(Written(w), file, bases, steps, seen, stack) == WalkBases(w, file, bases, steps, seen, stack)
    decreases stack, |bases| + 1
  {
    if bases != [] {
      if bases[0].Named? && Resolve(w, file, bases[0].name).Some? {
        assert Resolve(Written(w), file, bases[0].name) == Resolve(w, file, bases[0].name);
        WrittenDeclWalk(w, Resolve(w, file, bases[0].name).value, steps, seen, stack);
      }
      var first := WalkBase(w, file, bases[0], steps, seen, stack);
      if first.Walked? {
        WrittenBasesWalk(w, file, bases[1..], steps, first.seen, stack);
      }
    }
  }

  /** Walking a declaration gives the same verdict, guard and bail in the world as written. */
  lemma {:induction false} WrittenDeclWalk(w: World, id: nat, steps: seq<Step>, seen: Guard, stack: nat)
    requires id < |w.decls|
    ensures WalkDecl(Written(w), id, steps, seen, stack) == WalkDecl(w, id, steps, seen, stack)
    decreases stack, 0
  {
    if stack > 0 && steps != [] && (id, |steps|) !in seen {
      var entered, file := seen + {(id, |steps|)}, w.decls[id].file;
      match w.decls[id].decl
      case Interface(members, bases) =>
        if steps[0].Member? {
          WrittenFind(members, steps[0].name);
          var own := FindProperty(members, steps[0].name);
          if own.Some? {
            WrittenPropertyWalk(w, file, own.value, steps, entered, stack - 1);
          } else {
            WrittenBasesWalk(w, file, bases, steps, entered, stack - 1);
          }
        }
      case Alias(target) => WrittenTypeWalk(w, file, target, steps, entered, stack - 1);
    }
  }

  // ---- The world as written is legible everywhere ----

  predicate IsDecl(w: World, id: nat) { id < |w.decls| }

  /** Every declaration and every name. */
  ghost function Everything(w: World): Region {
    Region(iset id: nat | IsDecl(w, id), iset name: string | |name| >= 0, true)
  }

  lemma {:induction false} WrittenIsSpelled(members: seq<MemberDecl>, name: string)
    ensures FindMember(WrittenMembers(members), name) == FindProperty(WrittenMembers(members), name)
    ensures IndexSignature !in WrittenMembers(members)
  {
    if members != [] {
      WrittenIsSpelled(members[1..], name);
      var rest := WrittenMembers(members[1..]);
      if members[0].Property? {
        assert ([WrittenProperty(members[0])] + rest)[1..] == rest;
      }
    }
  }

  lemma {:induction false} MembersLegible(w: World, file: nat, members: seq<MemberDecl>)
    ensures Legible(Written(w), file, Literal(WrittenMembers(members)), Everything(w))
    decreases members
  {
    var r, written := Everything(w), WrittenMembers(members);
    forall name: string
      ensures FindMember(written, name) == FindProperty(written, name) && IndexSignature !in written
    {
      WrittenIsSpelled(members, name);
    }
    DeclaredLegible(w, file, members);
  }

  lemma {:induction false} DeclaredLegible(w: World, file: nat, members: seq<MemberDecl>)
    ensures forall i :: 0 <= i < |WrittenMembers(members)| && Followed(WrittenMembers(members)[i], Everything(w)) ==>
      Legible(Written(w), file, WrittenMembers(members)[i].declared.value, Everything(w))
    decreases members, 0
  {
    if members != [] {
      DeclaredLegible(w, file, members[1..]);
      if members[0].Property? && members[0].declared.Some? {
        TypeLegible(w, file, members[0].declared.value);
      }
    }
  }

  lemma {:induction false} PartsLegible(w: World, file: nat, parts: seq<TypeNode>)
    ensures forall i :: 0 <= i < |parts| ==> Legible(Written(w), file, WrittenParts(parts)[i], Everything(w))
    decreases parts
  {
    if parts != [] {
      TypeLegible(w, file, parts[0]);
      PartsLegible(w, file, parts[1..]);
    }
  }

  lemma {:induction false} TypeLegible(w: World, file: nat, t: TypeNode)
    ensures Legible(Written(w), file, WrittenType(t), Everything(w))
    decreases t
  {
    match t
    case Literal(members) => MembersLegible(w, file, members);
    case Parenthesized(inner) => TypeLegible(w, file, inner);
    case Operator(inner) => TypeLegible(w, file, inner);
    case Intersection(parts) => PartsLegible(w, file, parts);
    case Union(parts) => PartsLegible(w, file, parts);
    case ArrayOf(element) => TypeLegible(w, file, element);
    case Indexed(indexed, _) => TypeLegible(w, file, indexed);
    case Reference(_, args) =>
      PartsLegible(w, file, args);
    case Opaque =>
  }

  lemma {:induction false} WrittenIsLegible(w: World)
    ensures LegibleRegion(Written(w), Everything(w))
  {
    forall id: nat | id < |w.decls|
      ensures LegibleDecl(Written(w), Written(w).decls[id], Everything(w))
    {
      match w.decls[id].decl
      case Interface(members, _) => MembersLegible(w, w.decls[id].file, members);
      case Alias(target) => TypeLegible(w, w.decls[id].file, target);
    }
  }

  /**
   * Two definite verdicts for one declaration and path agree, in every world and whatever either guard
   * held: no hidden member, quoted name or index signature can set them at odds.
   */
  lemma {:induction false} VerdictsNeverDisagree(w: World, id: nat, steps: seq<Step>, seen: Guard, stack: nat,
                                                 seen': Guard, stack': nat)
    requires id < |w.decls|
    requires WalkDecl(w, id, steps, seen, stack).Walked? && WalkDecl(w, id, steps, seen', stack').Walked?
    ensures Agreeing(WalkDecl(w, id, steps, seen, stack).verdict, WalkDecl(w, id, steps, seen', stack').verdict)
  {
    WrittenDeclWalk(w, id, steps, seen, stack);
    WrittenDeclWalk(w, id, steps, seen', stack');
    WrittenIsLegible(w);
    RegionVerdictsAgree(Written(w), Everything(w), id, steps, seen, stack, seen', stack');
  }
}
