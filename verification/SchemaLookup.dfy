/**
 * The three-valued schema-path lookup over recursive type declarations, with the guard set the
 * source shares between sibling branches, and its meaning: two fuel-indexed presence relations that
 * know nothing of the guard.
 */
module SchemaLookup {
  import opened Outcomes
  import opened SchemaPaths

  /** How a key path fared against a declared type. */
  datatype Verdict = Found | Missing | Unknown

  /**
   * A member of an interface or a type literal. `text` is a property's name as written, `key` the
   * name it declares; they differ for quoted names.
   */
  datatype MemberDecl =
    | Property(text: string, key: string, declared: Option<TypeNode>)
    | Method(key: string)
    | IndexSignature

  /** Type nodes, as far as the lookup tells them apart. */
  datatype TypeNode =
    | Literal(members: seq<MemberDecl>)
    | Parenthesized(inner: TypeNode)
    | Operator(inner: TypeNode)
    | Intersection(parts: seq<TypeNode>)
    | Union(parts: seq<TypeNode>)
    | ArrayOf(element: TypeNode)
    | Indexed(indexed: TypeNode, index: Option<string>)
    | Reference(name: string, args: seq<TypeNode>)
    | Opaque

  /** A base in a heritage clause; a base that is not an identifier is out of reach. */
  datatype Base = Named(name: string) | Computed

  datatype Decl =
    | Interface(members: seq<MemberDecl>, bases: seq<Base>)
    | Alias(target: TypeNode)

  /** A declaration in its file. */
  datatype DeclIn = DeclIn(file: nat, decl: Decl)

  /** Every declaration, and what each type name means in each file. */
  datatype World = World(decls: seq<DeclIn>, scope: map<(nat, string), nat>)

  /** The guard: declarations already entered, each with the number of steps that remained. */
  type Guard = set<(nat, nat)>

  /** The outcome of a walk: a verdict, or exhaustion of the call stack. */
  datatype Walked = Walked(verdict: Verdict, seen: Guard, bailed: bool) | Overflow

  datatype Branches = Branches(verdicts: seq<Verdict>, seen: Guard, bailed: bool) | BranchOverflow

  predicate PassThrough(name: string) {
    name in {"Partial", "Required", "Readonly", "NonNullable"}
  }

  predicate ArrayName(name: string) {
    name == "Array" || name == "ReadonlyArray"
  }

  function Resolve(w: World, file: nat, name: string): (id: Option<nat>)
    ensures id.Some? ==> id.value < |w.decls|
  {
    if (file, name) in w.scope && w.scope[(file, name)] < |w.decls| then Some(w.scope[(file, name)]) else None
  }

  /** The verdict on an intersection, or on several bases: one branch with the path is enough. */
  function Combine(verdicts: seq<Verdict>): Verdict {
    if Found in verdicts then Found else if Unknown in verdicts then Unknown else Missing
  }

  /** The verdict on a union: definite when unanimous. */
  function Agree(verdicts: seq<Verdict>): Verdict {
    if forall i :: 0 <= i < |verdicts| ==> verdicts[i] == Found then Found
    else if forall i :: 0 <= i < |verdicts| ==> verdicts[i] == Missing then Missing
    else Unknown
  }

  /** The first property written with exactly this text. */
  function FindProperty(members: seq<MemberDecl>, name: string): (found: Option<MemberDecl>)
    ensures found.Some? ==> found.value in members && found.value.Property? && found.value.text == name
  {
    if members == [] then None
    else if members[0].Property? && members[0].text == name then Some(members[0])
    else FindProperty(members[1..], name)
  }

  // ---- The walk ----

  function WalkType(w: World, file: nat, t: TypeNode, steps: seq<Step>, seen: Guard, stack: nat): Walked
    decreases stack, 0
  {
    if stack == 0 then Overflow
    else if steps == [] then Walked(Found, seen, false)
    else match t
      case Literal(members) =>
        if steps[0].Element? then Walked(Unknown, seen, false)
        else
          var own := FindProperty(members, steps[0].name);
          if own.None? then Walked(Missing, seen, false)
          else WalkProperty(w, file, own.value, steps, seen, stack - 1)
      case Parenthesized(inner) => WalkType(w, file, inner, steps, seen, stack - 1)
      case Operator(inner) => WalkType(w, file, inner, steps, seen, stack - 1)
      case Intersection(parts) =>
        var branches := WalkParts(w, file, parts, steps, seen, stack - 1);
        if branches.BranchOverflow? then Overflow
        else Walked(Combine(branches.verdicts), branches.seen, branches.bailed)
      case Union(parts) =>
        var branches := WalkParts(w, file, parts, steps, seen, stack - 1);
        if branches.BranchOverflow? then Overflow
        else Walked(Agree(branches.verdicts), branches.seen, branches.bailed)
      case ArrayOf(element) =>
        if steps[0].Element? then WalkType(w, file, element, steps[1..], seen, stack - 1)
        else Walked(Unknown, seen, false)
      case Indexed(indexed, index) =>
        if index.None? then Walked(Unknown, seen, false)
        else WalkType(w, file, indexed, [Member(index.value)] + steps, seen, stack - 1)
      case Reference(name, args) =>
        if PassThrough(name) && args != [] then WalkType(w, file, args[0], steps, seen, stack - 1)
        else if ArrayName(name) && args != [] then
          if steps[0].Element? then WalkType(w, file, args[0], steps[1..], seen, stack - 1)
          else Walked(Unknown, seen, false)
        else
          var id := Resolve(w, file, name);
          if id.None? then Walked(Unknown, seen, false) else WalkDecl(w, id.value, steps, seen, stack - 1)
      case Opaque => Walked(Unknown, seen, false)
  }

  /** Below a property whose name matched the first step. */
  function WalkProperty(w: World, file: nat, own: MemberDecl, steps: seq<Step>, seen: Guard, stack: nat): Walked
    requires own.Property? && steps != []
    decreases stack, 1
  {
    if |steps| == 1 then Walked(Found, seen, false)
    else if own.declared.None? then Walked(Unknown, seen, false)
    else WalkType(w, file, own.declared.value, steps[1..], seen, stack)
  }

  /** Every branch in order, each seeing the declarations the earlier ones entered. */
  function WalkParts(w: World, file: nat, parts: seq<TypeNode>, steps: seq<Step>, seen: Guard, stack: nat)
    : (b: Branches)
    ensures b.Branches? ==> |b.verdicts| == |parts|
    decreases stack, |parts| + 1
  {
    if parts == [] then Branches([], seen, false)
    else
      var first := WalkType(w, file, parts[0], steps, seen, stack);
      if first.Overflow? then BranchOverflow
      else Prepend([first.verdict], first.bailed, WalkParts(w, file, parts[1..], steps, first.seen, stack))
  }

  function WalkBases(w: World, file: nat, bases: seq<Base>, steps: seq<Step>, seen: Guard, stack: nat): (b: Branches)
    ensures b.Branches? ==> |b.verdicts| == |bases|
    decreases stack, |bases| + 1
  {
    if bases == [] then Branches([], seen, false)
    else
      var first := WalkBase(w, file, bases[0], steps, seen, stack);
      if first.Overflow? then BranchOverflow
      else Prepend([first.verdict], first.bailed, WalkBases(w, file, bases[1..], steps, first.seen, stack))
  }

  function WalkBase(w: World, file: nat, base: Base, steps: seq<Step>, seen: Guard, stack: nat): Walked
    decreases stack, 1
  {
    if base.Computed? || Resolve(w, file, base.name).None? then Walked(Unknown, seen, false)
    else WalkDecl(w, Resolve(w, file, base.name).value, steps, seen, stack)
  }

  function Prepend(verdicts: seq<Verdict>, bailed: bool, rest: Branches): Branches {
    if rest.BranchOverflow? then BranchOverflow
    else Branches(verdicts + rest.verdicts, rest.seen, bailed || rest.bailed)
  }

  /** Enter a named declaration, unless it was entered before with as many steps left. */
  function WalkDecl(w: World, id: nat, steps: seq<Step>, seen: Guard, stack: nat): Walked
    requires id < |w.decls|
    decreases stack, 0
  {
    if stack == 0 then Overflow
    else if steps == [] then Walked(Found, seen, false)
    else if (id, |steps|) in seen then Walked(Unknown, seen, true)
    else
      var entered := seen + {(id, |steps|)};
      var file := w.decls[id].file;
      match w.decls[id].decl
      case Interface(members, bases) =>
        if steps[0].Element? then Walked(Unknown, entered, false)
        else
          var own := FindProperty(members, steps[0].name);
          if own.Some? then WalkProperty(w, file, own.value, steps, entered, stack - 1)
          else
            var branches := WalkBases(w, file, bases, steps, entered, stack - 1);
            if branches.BranchOverflow? then Overflow
            else Walked(if bases == [] then Missing else Combine(branches.verdicts), branches.seen, branches.bailed)
      case Alias(target) => WalkType(w, file, target, steps, entered, stack - 1)
  }

  /**
   * Four names stand for their argument, two for an array of it, and every other name for what it resolves
   * to, whatever its arguments.
   */
  lemma {:induction false} ReferencesAreExact(w: World, file: nat, name: string, args: seq<TypeNode>, steps: seq<Step>,
                                              seen: Guard, stack: nat)
    requires stack > 0 && steps != []
    ensures var walked := WalkType(w, file, Reference(name, args), steps, seen, stack);
            if args != [] && (name == "Partial" || name == "Required" || name == "Readonly" || name == "NonNullable")
            then
              walked == WalkType(w, file, args[0], steps, seen, stack - 1)
            else if args != [] && (name == "Array" || name == "ReadonlyArray") then
              walked == (if steps[0].Element? then WalkType(w, file, args[0], steps[1..], seen, stack - 1)
                         else Walked(Unknown, seen, false))
            else
              walked == (if Resolve(w, file, name).None? then Walked(Unknown, seen, false)
                         else WalkDecl(w, Resolve(w, file, name).value, steps, seen, stack - 1))
  {
  }

  // ---- What presence means ----

  /** The first member that declares this key, however it is written. */
  function FindMember(members: seq<MemberDecl>, name: string): (found: Option<MemberDecl>)
    ensures found.Some? ==> found.value in members && !found.value.IndexSignature? && found.value.key == name
    ensures found.None? ==> forall i :: 0 <= i < |members| && !members[i].IndexSignature? ==> members[i].key != name
  {
    if members == [] then None
    else if !members[0].IndexSignature? && members[0].key == name then Some(members[0])
    else FindMember(members[1..], name)
  }

  /** The path is present in every branch, by a derivation at most `n` deep. */
  ghost predicate Has(w: World, file: nat, t: TypeNode, steps: seq<Step>, n: nat)
    decreases n, 0
  {
    n > 0 && (steps == [] || match t
      case Literal(members) => steps[0].Member? && FindMember(members, steps[0].name).Some?
        && HasBelow(w, file, FindMember(members, steps[0].name).value, steps, n - 1)
      case Parenthesized(inner) => Has(w, file, inner, steps, n - 1)
      case Operator(inner) => Has(w, file, inner, steps, n - 1)
      case Intersection(parts) => exists i :: 0 <= i < |parts| && Has(w, file, parts[i], steps, n - 1)
      case Union(parts) => forall i :: 0 <= i < |parts| ==> Has(w, file, parts[i], steps, n - 1)
      case ArrayOf(element) => steps[0].Element? && Has(w, file, element, steps[1..], n - 1)
      case Indexed(indexed, index) => index.Some? && Has(w, file, indexed, [Member(index.value)] + steps, n - 1)
      case Reference(name, args) =>
        if PassThrough(name) && args != [] then Has(w, file, args[0], steps, n - 1)
        else if ArrayName(name) && args != [] then steps[0].Element? && Has(w, file, args[0], steps[1..], n - 1)
        else Resolve(w, file, name).Some? && HasDecl(w, Resolve(w, file, name).value, steps, n - 1)
      case Opaque => false)
  }

  ghost predicate HasBelow(w: World, file: nat, own: MemberDecl, steps: seq<Step>, n: nat)
    requires steps != []
    decreases n, 1
  {
    |steps| == 1 || (own.Property? && own.declared.Some? && Has(w, file, own.declared.value, steps[1..], n))
  }

  ghost predicate HasDecl(w: World, id: nat, steps: seq<Step>, n: nat)
    requires id < |w.decls|
    decreases n, 0
  {
    n > 0 && (steps == [] || match w.decls[id].decl
      case Interface(members, bases) => steps[0].Member? &&
        (if FindMember(members, steps[0].name).Some?
         then HasBelow(w, w.decls[id].file, FindMember(members, steps[0].name).value, steps, n - 1)
         else exists i :: 0 <= i < |bases| && HasBase(w, w.decls[id].file, bases[i], steps, n - 1))
      case Alias(target) => Has(w, w.decls[id].file, target, steps, n - 1))
  }

  ghost predicate HasBase(w: World, file: nat, base: Base, steps: seq<Step>, n: nat)
    decreases n, 1
  {
    base.Named? && Resolve(w, file, base.name).Some? && HasDecl(w, Resolve(w, file, base.name).value, steps, n)
  }

  /**
   * The path could be present in some branch, as far as `n` unfoldings tell. A shape nothing is known
   * about could hold anything, and so could an empty union, which the type parser never produces.
   */
  ghost predicate May(w: World, file: nat, t: TypeNode, steps: seq<Step>, n: nat)
    decreases n, 0
  {
    n > 0 && (steps == [] || match t
      case Literal(members) => steps[0].Element? || MayOwn(w, file, members, steps, n - 1)
      case Parenthesized(inner) => May(w, file, inner, steps, n - 1)
      case Operator(inner) => May(w, file, inner, steps, n - 1)
      case Intersection(parts) => exists i :: 0 <= i < |parts| && May(w, file, parts[i], steps, n - 1)
      case Union(parts) => parts == [] || exists i :: 0 <= i < |parts| && May(w, file, parts[i], steps, n - 1)
      case ArrayOf(element) => steps[0].Member? || May(w, file, element, steps[1..], n - 1)
      case Indexed(indexed, index) => index.None? || May(w, file, indexed, [Member(index.value)] + steps, n - 1)
      case Reference(name, args) =>
        if PassThrough(name) && args != [] then May(w, file, args[0], steps, n - 1)
        else if ArrayName(name) && args != [] then steps[0].Member? || May(w, file, args[0], steps[1..], n - 1)
        else Resolve(w, file, name).None? || MayDecl(w, Resolve(w, file, name).value, steps, n - 1)
      case Opaque => true)
  }

  ghost predicate MayOwn(w: World, file: nat, members: seq<MemberDecl>, steps: seq<Step>, n: nat)
    requires steps != [] && steps[0].Member?
    decreases n, 2
  {
    var own := FindMember(members, steps[0].name);
    if own.Some? then MayBelow(w, file, own.value, steps, n) else IndexSignature in members
  }

  ghost predicate MayBelow(w: World, file: nat, own: MemberDecl, steps: seq<Step>, n: nat)
    requires steps != []
    decreases n, 1
  {
    |steps| == 1 || !own.Property? || own.declared.None? || May(w, file, own.declared.value, steps[1..], n)
  }

  ghost predicate MayDecl(w: World, id: nat, steps: seq<Step>, n: nat)
    requires id < |w.decls|
    decreases n, 0
  {
    n > 0 && (steps == [] || match w.decls[id].decl
      case Interface(members, bases) =>
        || steps[0].Element?
        || MayOwn(w, w.decls[id].file, members, steps, n - 1)
        || (&& FindMember(members, steps[0].name).None?
            && exists i :: 0 <= i < |bases| && MayBase(w, w.decls[id].file, bases[i], steps, n - 1))
      case Alias(target) => May(w, w.decls[id].file, target, steps, n - 1))
  }

  ghost predicate MayBase(w: World, file: nat, base: Base, steps: seq<Step>, n: nat)
    decreases n, 1
  {
    base.Computed? || Resolve(w, file, base.name).None? || MayDecl(w, Resolve(w, file, base.name).value, steps, n)
  }

  // ---- What a path can see ----

  /**
   * A part of a world: declarations, and the names a path may look up in them. In a closed region
   * every name that is looked up and not declared is known to be absent.
   */
  datatype Region = Region(ids: iset<nat>, names: iset<string>, closed: bool)

  /** The members these names select are the ones that declare them. */
  ghost predicate Spells(members: seq<MemberDecl>, names: iset<string>) {
    forall n :: n in names ==> FindMember(members, n) == FindProperty(members, n)
  }

  /** No index signature stands in for one of these names. */
  ghost predicate Closes(members: seq<MemberDecl>, names: iset<string>) {
    forall n :: n in names && FindMember(members, n).None? ==> IndexSignature !in members
  }

  /** Wherever a path of the region's names can lead from this type, its members are spelled. */
  ghost predicate Legible(w: World, file: nat, t: TypeNode, r: Region)
    decreases t
  {
    match t
    case Literal(members) =>
      && Spells(members, r.names)
      && (r.closed ==> Closes(members, r.names))
      && forall i :: 0 <= i < |members| && Followed(members[i], r) ==> Legible(w, file, members[i].declared.value, r)
    case Parenthesized(inner) => Legible(w, file, inner, r)
    case Operator(inner) => Legible(w, file, inner, r)
    case Intersection(parts) => forall i :: 0 <= i < |parts| ==> Legible(w, file, parts[i], r)
    case Union(parts) => forall i :: 0 <= i < |parts| ==> Legible(w, file, parts[i], r)
    case ArrayOf(element) => Legible(w, file, element, r)
    case Indexed(indexed, index) => index.Some? ==> index.value in r.names && Legible(w, file, indexed, r)
    case Reference(name, args) =>
      if (PassThrough(name) || ArrayName(name)) && args != [] then Legible(w, file, args[0], r)
      else LeadsInside(w, file, name, r)
    case Opaque => true
  }

  /** A property that a path of the region's names can go below. */
  ghost predicate Followed(m: MemberDecl, r: Region) {
    m.Property? && m.text in r.names && m.declared.Some?
  }

  ghost predicate LeadsInside(w: World, file: nat, name: string, r: Region) {
    Resolve(w, file, name).Some? ==> Resolve(w, file, name).value in r.ids
  }

  ghost predicate LegibleBases(w: World, file: nat, bases: seq<Base>, r: Region) {
    forall i :: 0 <= i < |bases| && bases[i].Named? ==> LeadsInside(w, file, bases[i].name, r)
  }

  ghost predicate LegibleDecl(w: World, d: DeclIn, r: Region) {
    match d.decl
    case Interface(members, bases) => Legible(w, d.file, Literal(members), r) && LegibleBases(w, d.file, bases, r)
    case Alias(target) => Legible(w, d.file, target, r)
  }

  /** The region is closed under references, and legible throughout. */
  ghost predicate LegibleRegion(w: World, r: Region) {
    forall id :: id in r.ids ==> id < |w.decls| && LegibleDecl(w, w.decls[id], r)
  }

  /** The path looks up only names of the region. */
  ghost predicate Within(steps: seq<Step>, r: Region) {
    forall k :: 0 <= k < |steps| && steps[k].Member? ==> steps[k].name in r.names
  }
}
