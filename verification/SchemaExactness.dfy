/** Exactly when a member list is judged rightly: the names the lookup cannot see are its only mistakes. */
module SchemaExactness {
  import opened Outcomes
  import opened SchemaPaths
  import opened SchemaLookup
  import opened SchemaSoundness

  // ---- Right verdicts ----

  ghost predicate Present(w: World, file: nat, t: TypeNode, steps: seq<Step>) {
    exists n: nat :: Has(w, file, t, steps, n)
  }

  ghost predicate Possible(w: World, file: nat, t: TypeNode, steps: seq<Step>) {
    exists n: nat :: May(w, file, t, steps, n)
  }

  ghost predicate PresentDecl(w: World, id: nat, steps: seq<Step>)
    requires id < |w.decls|
  {
    exists n: nat :: HasDecl(w, id, steps, n)
  }

  ghost predicate PossibleDecl(w: World, id: nat, steps: seq<Step>)
    requires id < |w.decls|
  {
    exists n: nat :: MayDecl(w, id, steps, n)
  }

  /** `Found` only of what is surely there. */
  ghost predicate FoundRight(walked: Walked, present: bool) {
    walked.Walked? && walked.verdict == Found ==> present
  }

  /** `Missing` only of what cannot be there. */
  ghost predicate MissingRight(walked: Walked, possible: bool) {
    walked.Walked? && walked.verdict == Missing ==> !possible
  }

  /** Every walk of the path from this type is right, whatever the guard holds. */
  ghost predicate RightAt(w: World, file: nat, t: TypeNode, steps: seq<Step>) {
    forall seen: Guard, stack: nat ::
      && FoundRight(WalkType(w, file, t, steps, seen, stack), Present(w, file, t, steps))
      && MissingRight(WalkType(w, file, t, steps, seen, stack), Possible(w, file, t, steps))
  }

  ghost predicate DeclFoundRight(w: World, id: nat, steps: seq<Step>)
    requires id < |w.decls|
  {
    forall seen: Guard, stack: nat :: FoundRight(WalkDecl(w, id, steps, seen, stack), PresentDecl(w, id, steps))
  }

  ghost predicate DeclMissingRight(w: World, id: nat, steps: seq<Step>)
    requires id < |w.decls|
  {
    forall seen: Guard, stack: nat :: MissingRight(WalkDecl(w, id, steps, seen, stack), PossibleDecl(w, id, steps))
  }

  // ---- One name in a type literal ----

  /** A name the lookup finds is declared. */
  predicate FoundIsDeclared(members: seq<MemberDecl>, name: string) {
    FindProperty(members, name).Some? ==> FindMember(members, name).Some?
  }

  /** A name the lookup does not find is not declared, and no index signature stands in for it. */
  predicate UnfoundIsAbsent(members: seq<MemberDecl>, name: string) {
    FindProperty(members, name).None? ==> FindMember(members, name).None? && IndexSignature !in members
  }

  /** For one name, in every world: the lookup in a type literal is right exactly under these two conditions. */
  lemma {:induction false} LiteralName(w: World, file: nat, members: seq<MemberDecl>, name: string)
    ensures RightAt(w, file, Literal(members), [Member(name)]) <==>
      FoundIsDeclared(members, name) && UnfoundIsAbsent(members, name)
  {
    var t, steps := Literal(members), [Member(name)];
    LiteralNameWalk(w, file, members, name);
    assert Has(w, file, t, steps, 1) <==> FindMember(members, name).Some?;
    assert forall n: nat :: Has(w, file, t, steps, n) ==> FindMember(members, name).Some?;
    var may := FindMember(members, name).Some? || IndexSignature in members;
    assert May(w, file, t, steps, 1) <==> may;
    assert forall n: nat :: May(w, file, t, steps, n) ==> may;
    if RightAt(w, file, t, steps) {
      var walked := WalkType(w, file, t, steps, {}, 1);
      assert FoundRight(walked, Present(w, file, t, steps)) && MissingRight(walked, Possible(w, file, t, steps));
    }
  }

  lemma {:induction false} LiteralNameWalk(w: World, file: nat, members: seq<MemberDecl>, name: string)
    ensures forall seen: Guard, stack: nat :: stack > 0 ==>
      WalkType(w, file, Literal(members), [Member(name)], seen, stack)
        == Walked(if FindProperty(members, name).Some? then Found else Missing, seen, false)
    ensures forall seen: Guard :: WalkType(w, file, Literal(members), [Member(name)], seen, 0).Overflow?
  {
  }

  // ---- One name in an interface ----

  ghost predicate PresentBase(w: World, file: nat, base: Base, steps: seq<Step>) {
    exists n: nat :: HasBase(w, file, base, steps, n)
  }

  /** The declarations of the bases that can be resolved are judged rightly. */
  ghost predicate BasesRight(w: World, file: nat, bases: seq<Base>, steps: seq<Step>) {
    forall i :: 0 <= i < |bases| && bases[i].Named? && Resolve(w, file, bases[i].name).Some? ==>
      var id := Resolve(w, file, bases[i].name).value;
      DeclFoundRight(w, id, steps) && DeclMissingRight(w, id, steps)
  }

  /** Some walk of the bases, with this entry in its guard, says `Missing` of them all. */
  ghost predicate BasesMissing(w: World, file: nat, bases: seq<Base>, steps: seq<Step>, entry: (nat, nat)) {
    exists seen: Guard, stack: nat :: entry in seen && AllMissing(WalkBases(w, file, bases, steps, seen, stack))
  }

  predicate AllMissing(b: Branches) {
    b.Branches? && Combine(b.verdicts) == Missing
  }

  /** Each base's verdict is that of a walk of its own. */
  lemma {:induction false} BaseVerdict(w: World, file: nat, bases: seq<Base>, steps: seq<Step>, seen: Guard, stack: nat,
                                       i: nat)
    returns (own: Guard)
    requires i < |bases| && WalkBases(w, file, bases, steps, seen, stack).Branches?
    ensures WalkBase(w, file, bases[i], steps, own, stack).Walked?
    ensures WalkBase(w, file, bases[i], steps, own, stack).verdict ==
            WalkBases(w, file, bases, steps, seen, stack).verdicts[i]
  {
    if i == 0 {
      own := seen;
    } else {
      own := BaseVerdict(w, file, bases[1..], steps, WalkBase(w, file, bases[0], steps, seen, stack).seen, stack,
                         i - 1);
    }
  }

  /** Nothing but the bases can make a name present whose own declaration the lookup cannot see. */
  ghost predicate FoundOrInherited(w: World, file: nat, members: seq<MemberDecl>, bases: seq<Base>, name: string) {
    FoundIsDeclared(members, name) || exists i :: 0 <= i < |bases| && PresentBase(w, file, bases[i], [Member(name)])
  }

  lemma {:induction false} InterfaceFoundPresent(w: World, id: nat, members: seq<MemberDecl>, bases: seq<Base>,
                                                 name: string)
    requires id < |w.decls| && w.decls[id].decl == Interface(members, bases)
    ensures PresentDecl(w, id, [Member(name)]) <==>
      FindMember(members, name).Some? ||
      exists i :: 0 <= i < |bases| && PresentBase(w, w.decls[id].file, bases[i], [Member(name)])
  {
    var file, steps := w.decls[id].file, [Member(name)];
    if FindMember(members, name).Some? {
      assert HasDecl(w, id, steps, 1);
    } else {
      if n: nat :| HasDecl(w, id, steps, n) {
        var i :| 0 <= i < |bases| && HasBase(w, file, bases[i], steps, n - 1);
        assert PresentBase(w, file, bases[i], steps);
      }
      if i :| 0 <= i < |bases| && PresentBase(w, file, bases[i], steps) {
        var n: nat :| HasBase(w, file, bases[i], steps, n);
        assert HasDecl(w, id, steps, n + 1);
      }
    }
  }

  lemma {:induction false} FoundBaseIsPresent(w: World, file: nat, base: Base, steps: seq<Step>, seen: Guard,
                                              stack: nat)
    requires base.Named? && Resolve(w, file, base.name).Some? ==>
               DeclFoundRight(w, Resolve(w, file, base.name).value, steps)
    requires WalkBase(w, file, base, steps, seen, stack).Walked?
             && WalkBase(w, file, base, steps, seen, stack).verdict == Found
    ensures PresentBase(w, file, base, steps)
  {
    var id := Resolve(w, file, base.name).value;
    assert FoundRight(WalkDecl(w, id, steps, seen, stack), PresentDecl(w, id, steps));
    var n: nat :| HasDecl(w, id, steps, n);
    assert HasBase(w, file, base, steps, n);
  }

  /**
   * For one name: an interface whose bases are judged rightly finds it rightly exactly when what it finds
   * among its own members is declared there or inherited after all.
   */
  lemma {:induction false} InterfaceFound(w: World, id: nat, members: seq<MemberDecl>, bases: seq<Base>, name: string)
    requires id < |w.decls| && w.decls[id].decl == Interface(members, bases)
    requires BasesRight(w, w.decls[id].file, bases, [Member(name)])
    ensures DeclFoundRight(w, id, [Member(name)]) <==> FoundOrInherited(w, w.decls[id].file, members, bases, name)
  {
    var file, steps := w.decls[id].file, [Member(name)];
    InterfaceFoundPresent(w, id, members, bases, name);
    if DeclFoundRight(w, id, steps) {
      assert FoundRight(WalkDecl(w, id, steps, {}, 1), PresentDecl(w, id, steps));
    }
    if FoundOrInherited(w, file, members, bases, name) {
      forall seen: Guard, stack: nat
        ensures FoundRight(WalkDecl(w, id, steps, seen, stack), PresentDecl(w, id, steps))
      {
        if WalkDecl(w, id, steps, seen, stack).Walked? && WalkDecl(w, id, steps, seen, stack).verdict == Found
           && FindProperty(members, name).None? {
          InheritedFound(w, id, members, bases, name, seen, stack);
        }
      }
    }
  }

  lemma {:induction false} InheritedFound(w: World, id: nat, members: seq<MemberDecl>, bases: seq<Base>, name: string,
                                          seen: Guard, stack: nat)
    requires id < |w.decls| && w.decls[id].decl == Interface(members, bases) && FindProperty(members, name).None?
    requires BasesRight(w, w.decls[id].file, bases, [Member(name)])
    requires var walked := WalkDecl(w, id, [Member(name)], seen, stack); walked.Walked? && walked.verdict == Found
    ensures exists i :: 0 <= i < |bases| && PresentBase(w, w.decls[id].file, bases[i], [Member(name)])
  {
    var file, steps, entered := w.decls[id].file, [Member(name)], seen + {(id, 1)};
    var b := WalkBases(w, file, bases, steps, entered, stack - 1);
    var i := CombineWitness(b.verdicts);
    var own := BaseVerdict(w, file, bases, steps, entered, stack - 1, i);
    FoundBaseIsPresent(w, file, bases[i], steps, own, stack - 1);
  }

  lemma {:induction false} MissingBaseIsImpossible(w: World, file: nat, bases: seq<Base>, steps: seq<Step>, seen: Guard,
                                                   stack: nat, i: nat, n: nat)
    requires BasesRight(w, file, bases, steps) && AllMissing(WalkBases(w, file, bases, steps, seen, stack))
             && i < |bases|
    ensures !MayBase(w, file, bases[i], steps, n)
  {
    var own := BaseVerdict(w, file, bases, steps, seen, stack, i);
    var id := Resolve(w, file, bases[i].name).value;
    assert MissingRight(WalkDecl(w, id, steps, own, stack), PossibleDecl(w, id, steps));
  }

  /** A name the interface's own members may declare without the lookup seeing it. */
  predicate Hidden(members: seq<MemberDecl>, name: string) {
    !UnfoundIsAbsent(members, name)
  }

  lemma {:induction false} HiddenIsPossible(w: World, id: nat, members: seq<MemberDecl>, bases: seq<Base>, name: string)
    requires id < |w.decls| && w.decls[id].decl == Interface(members, bases) && Hidden(members, name)
    ensures PossibleDecl(w, id, [Member(name)])
  {
    assert MayDecl(w, id, [Member(name)], 1);
  }

  /** When all the bases are missing the interface is, or finds the name itself. */
  lemma {:induction false} MissingWalk(w: World, id: nat, members: seq<MemberDecl>, bases: seq<Base>, name: string,
                                       seen: Guard, stack: nat)
    requires id < |w.decls| && w.decls[id].decl == Interface(members, bases) && FindProperty(members, name).None?
    requires (id, 1) in seen && AllMissing(WalkBases(w, w.decls[id].file, bases, [Member(name)], seen, stack))
    ensures var walked := WalkDecl(w, id, [Member(name)], seen - {(id, 1)}, stack + 1);
            walked.Walked? && walked.verdict == Missing
  {
    assert seen - {(id, 1)} + {(id, 1)} == seen;
  }

  lemma {:induction false} MissingMeans(w: World, id: nat, members: seq<MemberDecl>, bases: seq<Base>, name: string,
                                        seen: Guard, stack: nat)
    requires id < |w.decls| && w.decls[id].decl == Interface(members, bases)
    requires var walked := WalkDecl(w, id, [Member(name)], seen, stack); walked.Walked? && walked.verdict == Missing
    ensures stack > 0 && FindProperty(members, name).None?
    ensures AllMissing(WalkBases(w, w.decls[id].file, bases, [Member(name)], seen + {(id, 1)}, stack - 1))
  {
  }

  lemma {:induction false} MissingIsRight(w: World, id: nat, members: seq<MemberDecl>, bases: seq<Base>, name: string,
                                          seen: Guard, stack: nat)
    requires id < |w.decls| && w.decls[id].decl == Interface(members, bases) && !Hidden(members, name)
    requires BasesRight(w, w.decls[id].file, bases, [Member(name)])
    ensures MissingRight(WalkDecl(w, id, [Member(name)], seen, stack), PossibleDecl(w, id, [Member(name)]))
  {
    var file, steps, entered := w.decls[id].file, [Member(name)], seen + {(id, 1)};
    var walked := WalkDecl(w, id, steps, seen, stack);
    if walked.Walked? && walked.verdict == Missing {
      MissingMeans(w, id, members, bases, name, seen, stack);
      forall n: nat
        ensures !MayDecl(w, id, steps, n)
      {
        if n > 0 {
          forall i | 0 <= i < |bases|
            ensures !MayBase(w, file, bases[i], steps, n - 1)
          {
            MissingBaseIsImpossible(w, file, bases, steps, entered, stack - 1, i, n - 1);
          }
        }
      }
    }
  }

  /**
   * For one name: such an interface calls it missing rightly exactly when its own members do not hide it,
   * or some base always keeps the verdict from being `Missing`.
   */
  lemma {:induction false} InterfaceMissing(w: World, id: nat, members: seq<MemberDecl>, bases: seq<Base>, name: string)
    requires id < |w.decls| && w.decls[id].decl == Interface(members, bases)
    requires BasesRight(w, w.decls[id].file, bases, [Member(name)])
    ensures DeclMissingRight(w, id, [Member(name)]) <==>
      !Hidden(members, name) || !BasesMissing(w, w.decls[id].file, bases, [Member(name)], (id, 1))
  {
    var file, steps := w.decls[id].file, [Member(name)];
    if Hidden(members, name) {
      HiddenIsPossible(w, id, members, bases, name);
      if seen: Guard, stack: nat :| (id, 1) in seen && AllMissing(WalkBases(w, file, bases, steps, seen, stack)) {
        MissingWalk(w, id, members, bases, name, seen, stack);
        assert !MissingRight(WalkDecl(w, id, steps, seen - {(id, 1)}, stack + 1), PossibleDecl(w, id, steps));
      } else {
        forall seen: Guard, stack: nat
          ensures MissingRight(WalkDecl(w, id, steps, seen, stack), PossibleDecl(w, id, steps))
        {
          if stack > 0 {
            assert (id, 1) in seen + {(id, 1)};
            assert !AllMissing(WalkBases(w, file, bases, steps, seen + {(id, 1)}, stack - 1));
          }
        }
      }
    } else {
      forall seen: Guard, stack: nat
        ensures MissingRight(WalkDecl(w, id, steps, seen, stack), PossibleDecl(w, id, steps))
      {
        MissingIsRight(w, id, members, bases, name, seen, stack);
      }
    }
  }

  /** Without bases the two conditions are those of a type literal. */
  lemma {:induction false} BaselessInterfaceName(w: World, id: nat, members: seq<MemberDecl>, name: string)
    requires id < |w.decls| && w.decls[id].decl == Interface(members, [])
    ensures DeclFoundRight(w, id, [Member(name)]) && DeclMissingRight(w, id, [Member(name)]) <==>
      FoundIsDeclared(members, name) && UnfoundIsAbsent(members, name)
  {
    InterfaceFound(w, id, members, [], name);
    InterfaceMissing(w, id, members, [], name);
    assert AllMissing(WalkBases(w, w.decls[id].file, [], [Member(name)], {(id, 1)}, 0));
  }

  // ---- All names ----

  /** Every declared key is also the text of some property, and there is no index signature. */
  predicate KeysAreWritten(members: seq<MemberDecl>) {
    && IndexSignature !in members
    && forall i :: 0 <= i < |members| && !members[i].IndexSignature? ==> FindProperty(members, members[i].key).Some?
  }

  /** Every property's text is a key some member declares. */
  predicate TextsAreKeys(members: seq<MemberDecl>) {
    forall i :: 0 <= i < |members| && members[i].Property? ==> FindMember(members, members[i].text).Some?
  }

  lemma {:induction false} KeysWritten(members: seq<MemberDecl>)
    ensures KeysAreWritten(members) <==> forall name :: UnfoundIsAbsent(members, name)
  {
    if KeysAreWritten(members) {
      forall name
        ensures UnfoundIsAbsent(members, name)
      {
        if FindMember(members, name).Some? {
          var i :| 0 <= i < |members| && members[i] == FindMember(members, name).value;
          assert FindProperty(members, members[i].key).Some?;
        }
      }
    } else if i :| 0 <= i < |members| && !members[i].IndexSignature? && FindProperty(members, members[i].key).None? {
      assert !UnfoundIsAbsent(members, members[i].key);
    } else {
      var name := FreshName(members);
      assert !UnfoundIsAbsent(members, name);
    }
  }

  lemma {:induction false} PropertyIsFound(members: seq<MemberDecl>, i: nat)
    requires i < |members| && members[i].Property?
    ensures FindProperty(members, members[i].text).Some?
  {
    if i > 0 {
      PropertyIsFound(members[1..], i - 1);
    }
  }

  lemma {:induction false} TextsDeclared(members: seq<MemberDecl>)
    ensures TextsAreKeys(members) <==> forall name :: FoundIsDeclared(members, name)
  {
    if TextsAreKeys(members) {
      forall name
        ensures FoundIsDeclared(members, name)
      {
        if FindProperty(members, name).Some? {
          var i :| 0 <= i < |members| && members[i] == FindProperty(members, name).value;
          assert FindMember(members, members[i].text).Some?;
        }
      }
    }
    if i :| 0 <= i < |members| && members[i].Property? && FindMember(members, members[i].text).None? {
      PropertyIsFound(members, i);
      assert !FoundIsDeclared(members, members[i].text);
    }
  }

  /**
   * Method signatures, quoted names and index signatures are invisible to the lookup: a type literal is
   * judged rightly on every name, `Found` and `Missing` alike, exactly when its keys and its written
   * texts are the same and nothing stands in for other names.
   */
  lemma {:induction false} LiteralSoundness(w: World, file: nat, members: seq<MemberDecl>)
    ensures (forall name :: RightAt(w, file, Literal(members), [Member(name)])) <==>
              KeysAreWritten(members) && TextsAreKeys(members)
  {
    hide RightAt, KeysAreWritten, TextsAreKeys, FoundIsDeclared, UnfoundIsAbsent;
    forall name
      ensures RightAt(w, file, Literal(members), [Member(name)]) <==>
                FoundIsDeclared(members, name) && UnfoundIsAbsent(members, name)
    {
      LiteralName(w, file, members, name);
    }
    KeysWritten(members);
    TextsDeclared(members);
    if forall name :: RightAt(w, file, Literal(members), [Member(name)]) {
      forall name
        ensures FoundIsDeclared(members, name) && UnfoundIsAbsent(members, name)
      {
        assert RightAt(w, file, Literal(members), [Member(name)]);
      }
    }
  }

  /** The same of an interface without bases. */
  lemma {:induction false} InterfaceSoundness(w: World, id: nat, members: seq<MemberDecl>)
    requires id < |w.decls| && w.decls[id].decl == Interface(members, [])
    ensures (forall name :: DeclFoundRight(w, id, [Member(name)]) && DeclMissingRight(w, id, [Member(name)])) <==>
      KeysAreWritten(members) && TextsAreKeys(members)
  {
    hide DeclFoundRight, DeclMissingRight, KeysAreWritten, TextsAreKeys, FoundIsDeclared, UnfoundIsAbsent;
    forall name
      ensures DeclFoundRight(w, id, [Member(name)]) && DeclMissingRight(w, id, [Member(name)]) <==>
        FoundIsDeclared(members, name) && UnfoundIsAbsent(members, name)
    {
      BaselessInterfaceName(w, id, members, name);
    }
    KeysWritten(members);
    TextsDeclared(members);
    if forall name :: DeclFoundRight(w, id, [Member(name)]) && DeclMissingRight(w, id, [Member(name)]) {
      forall name
        ensures FoundIsDeclared(members, name) && UnfoundIsAbsent(members, name)
      {
        assert DeclFoundRight(w, id, [Member(name)]);
      }
    }
  }

  // ---- All paths ----

  /** Every path from this type is judged rightly. */
  ghost predicate TypeRight(w: World, file: nat, t: TypeNode) {
    forall steps :: RightAt(w, file, t, steps)
  }

  ghost predicate DeclRight(w: World, id: nat)
    requires id < |w.decls|
  {
    forall steps :: DeclFoundRight(w, id, steps) && DeclMissingRight(w, id, steps)
  }

  /** Every member is a property written under the key it declares. */
  predicate Plain(members: seq<MemberDecl>) {
    forall i :: 0 <= i < |members| ==> members[i].Property? && members[i].text == members[i].key
  }

  /** No property is written under the key of another member. */
  predicate Unambiguous(members: seq<MemberDecl>) {
    forall i, j :: 0 <= i < |members| && 0 <= j < |members| && i != j && members[i].Property?
                   && !members[j].IndexSignature? ==>
      members[i].text != members[j].key
  }

  /** The types below the members are judged rightly. */
  ghost predicate DeclaredRight(w: World, file: nat, members: seq<MemberDecl>) {
    forall i :: 0 <= i < |members| && members[i].Property? && members[i].declared.Some? ==>
      TypeRight(w, file, members[i].declared.value)
  }

  lemma {:induction false} PlainFind(members: seq<MemberDecl>, name: string)
    requires Plain(members)
    ensures FindMember(members, name) == FindProperty(members, name) && IndexSignature !in members
  {
    if members != [] {
      PlainFind(members[1..], name);
    }
  }

  lemma {:induction false} WrittenAndDeclaredIsPlain(members: seq<MemberDecl>)
    requires KeysAreWritten(members) && Unambiguous(members)
    ensures Plain(members)
  {
    forall i | 0 <= i < |members|
      ensures members[i].Property? && members[i].text == members[i].key
    {
      assert members[i] in members;
      var j :| 0 <= j < |members| && members[j] == FindProperty(members, members[i].key).value;
      assert members[j].text == members[i].key;
      assert j == i;
    }
  }

  /** Below a property of a plain literal the answers are those of its type. */
  lemma {:induction false} PlainBelow(w: World, file: nat, members: seq<MemberDecl>, steps: seq<Step>, own: MemberDecl)
    requires Plain(members) && |steps| > 1 && steps[0].Member? && FindProperty(members, steps[0].name) == Some(own)
    requires own.declared.Some?
    ensures Present(w, file, Literal(members), steps) <==> Present(w, file, own.declared.value, steps[1..])
    ensures Possible(w, file, Literal(members), steps) ==> Possible(w, file, own.declared.value, steps[1..])
  {
    PlainFind(members, steps[0].name);
    var t := own.declared.value;
    if n: nat :| Has(w, file, t, steps[1..], n) {
      LiteralStep(w, file, members, steps, own, n + 1);
    }
    if n: nat :| Has(w, file, Literal(members), steps, n) {
      LiteralStep(w, file, members, steps, own, n);
    }
    if n: nat :| May(w, file, Literal(members), steps, n) {
      LiteralStep(w, file, members, steps, own, n);
    }
  }

  /** One step into a literal's declared member. */
  lemma {:induction false} LiteralStep(w: World, file: nat, members: seq<MemberDecl>, steps: seq<Step>, own: MemberDecl,
                                       n: nat)
    requires |steps| > 1 && steps[0].Member? && FindMember(members, steps[0].name) == Some(own)
    requires own.Property? && own.declared.Some?
    ensures Has(w, file, Literal(members), steps, n) <==> n > 0 && Has(w, file, own.declared.value, steps[1..], n - 1)
    ensures May(w, file, Literal(members), steps, n) <==> n > 0 && May(w, file, own.declared.value, steps[1..], n - 1)
  {
    if n > 0 {
      assert HasBelow(w, file, own, steps, n - 1) <==> Has(w, file, own.declared.value, steps[1..], n - 1);
      assert MayBelow(w, file, own, steps, n - 1) <==> May(w, file, own.declared.value, steps[1..], n - 1);
      assert MayOwn(w, file, members, steps, n - 1) <==> MayBelow(w, file, own, steps, n - 1);
    }
  }

  lemma {:induction false} PlainIsRight(w: World, file: nat, members: seq<MemberDecl>, steps: seq<Step>, seen: Guard,
                                        stack: nat)
    requires Plain(members) && DeclaredRight(w, file, members)
    ensures FoundRight(WalkType(w, file, Literal(members), steps, seen, stack),
                       Present(w, file, Literal(members), steps))
    ensures MissingRight(WalkType(w, file, Literal(members), steps, seen, stack),
                         Possible(w, file, Literal(members), steps))
  {
    var t := Literal(members);
    if steps == [] {
      assert Has(w, file, t, steps, 1);
    } else if steps[0].Member? {
      var name := steps[0].name;
      PlainFind(members, name);
      var own := FindProperty(members, name);
      if own.None? {
        assert forall n: nat :: !May(w, file, t, steps, n);
      } else if |steps| == 1 {
        assert Has(w, file, t, steps, 1);
        assert stack > 0 ==> WalkProperty(w, file, own.value, steps, seen, stack - 1).verdict == Found;
      } else if own.value.declared.None? {
        assert stack > 0 ==> WalkProperty(w, file, own.value, steps, seen, stack - 1).verdict == Unknown;
      } else {
        PlainBelow(w, file, members, steps, own.value);
        PlainStep(w, file, members, steps, seen, stack);
      }
    }
  }

  lemma {:induction false} PlainStep(w: World, file: nat, members: seq<MemberDecl>, steps: seq<Step>, seen: Guard,
                                     stack: nat)
    requires DeclaredRight(w, file, members) && |steps| > 1 && steps[0].Member?
    requires FindProperty(members, steps[0].name).Some? && FindProperty(members, steps[0].name).value.declared.Some?
    ensures var t := FindProperty(members, steps[0].name).value.declared.value;
            && FoundRight(WalkType(w, file, Literal(members), steps, seen, stack), Present(w, file, t, steps[1..]))
            && MissingRight(WalkType(w, file, Literal(members), steps, seen, stack), Possible(w, file, t, steps[1..]))
  {
    var own := FindProperty(members, steps[0].name).value;
    var i :| 0 <= i < |members| && members[i] == own;
    assert RightAt(w, file, own.declared.value, steps[1..]);
    if stack > 0 {
      var below := WalkType(w, file, own.declared.value, steps[1..], seen, stack - 1);
      assert FoundRight(below, Present(w, file, own.declared.value, steps[1..]));
      assert WalkType(w, file, Literal(members), steps, seen, stack) == below;
    }
  }

  /**
   * On all paths: a type literal over rightly judged types, none of whose properties is written under
   * another's key, is judged rightly exactly when every member is a property written under its own key.
   */
  lemma {:induction false} LiteralOnAllPaths(w: World, file: nat, members: seq<MemberDecl>)
    requires DeclaredRight(w, file, members) && Unambiguous(members)
    ensures TypeRight(w, file, Literal(members)) <==> Plain(members)
  {
    if Plain(members) {
      forall steps
        ensures RightAt(w, file, Literal(members), steps)
      {
        forall seen: Guard, stack: nat
          ensures FoundRight(WalkType(w, file, Literal(members), steps, seen, stack),
                             Present(w, file, Literal(members), steps))
          ensures MissingRight(WalkType(w, file, Literal(members), steps, seen, stack),
                               Possible(w, file, Literal(members), steps))
        {
          PlainIsRight(w, file, members, steps, seen, stack);
        }
      }
    }
    if TypeRight(w, file, Literal(members)) {
      forall name
        ensures RightAt(w, file, Literal(members), [Member(name)])
      {
      }
      LiteralSoundness(w, file, members);
      WrittenAndDeclaredIsPlain(members);
    }
  }

  /** A baseless interface means what the literal of its members does. */
  lemma {:induction false} BaselessMeans(w: World, id: nat, members: seq<MemberDecl>, steps: seq<Step>)
    requires id < |w.decls| && w.decls[id].decl == Interface(members, [])
    ensures PresentDecl(w, id, steps) <==> Present(w, w.decls[id].file, Literal(members), steps)
    ensures PossibleDecl(w, id, steps) <==> Possible(w, w.decls[id].file, Literal(members), steps)
  {
    var file, t := w.decls[id].file, Literal(members);
    assert forall n: nat :: HasDecl(w, id, steps, n) <==> Has(w, file, t, steps, n);
    assert forall n: nat :: MayDecl(w, id, steps, n) <==> May(w, file, t, steps, n);
  }

  lemma {:induction false} BaselessWalk(w: World, id: nat, members: seq<MemberDecl>, steps: seq<Step>, seen: Guard,
                                        stack: nat)
    requires id < |w.decls| && w.decls[id].decl == Interface(members, [])
    ensures var walked := WalkDecl(w, id, steps, seen, stack);
            walked.Walked? && walked.verdict != Unknown && steps != [] ==>
              walked == WalkType(w, w.decls[id].file, Literal(members), steps, seen + {(id, |steps|)}, stack)
  {
    if stack > 0 && steps != [] && (id, |steps|) !in seen {
      assert WalkBases(w, w.decls[id].file, [], steps, seen + {(id, |steps|)}, stack - 1)
          == Branches([], seen + {(id, |steps|)}, false);
    }
  }

  /** The same of an interface without bases. */
  lemma {:induction false} InterfaceOnAllPaths(w: World, id: nat, members: seq<MemberDecl>)
    requires id < |w.decls| && w.decls[id].decl == Interface(members, [])
    requires DeclaredRight(w, w.decls[id].file, members) && Unambiguous(members)
    ensures DeclRight(w, id) <==> Plain(members)
  {
    var file, t := w.decls[id].file, Literal(members);
    if Plain(members) {
      forall steps, seen: Guard, stack: nat
        ensures FoundRight(WalkDecl(w, id, steps, seen, stack), PresentDecl(w, id, steps))
        ensures MissingRight(WalkDecl(w, id, steps, seen, stack), PossibleDecl(w, id, steps))
      {
        BaselessMeans(w, id, members, steps);
        BaselessWalk(w, id, members, steps, seen, stack);
        PlainIsRight(w, file, members, steps, seen + {(id, |steps|)}, stack);
        assert steps == [] ==> HasDecl(w, id, steps, 1);
      }
    }
    if DeclRight(w, id) {
      forall name
        ensures DeclFoundRight(w, id, [Member(name)]) && DeclMissingRight(w, id, [Member(name)])
      {
      }
      InterfaceSoundness(w, id, members);
      WrittenAndDeclaredIsPlain(members);
    }
  }

  /** A literal with a hidden key, or an index signature, calls some name missing that may be there. */
  lemma {:induction false} HiddenMemberMisreported(w: World, file: nat, members: seq<MemberDecl>) returns (name: string)
    requires !KeysAreWritten(members)
    ensures WalkType(w, file, Literal(members), [Member(name)], {}, 1) == Walked(Missing, {}, false)
    ensures May(w, file, Literal(members), [Member(name)], 1)
  {
    if i :| 0 <= i < |members| && !members[i].IndexSignature? && FindProperty(members, members[i].key).None? {
      name := members[i].key;
    } else {
      name := FreshName(members);
    }
  }

  /** A name longer than every name in the list. */
  lemma {:induction false} FreshName(members: seq<MemberDecl>) returns (name: string)
    ensures FindProperty(members, name).None? && FindMember(members, name).None?
    ensures forall i :: 0 <= i < |members| && members[i].Property? ==> |members[i].text| < |name|
    ensures forall i :: 0 <= i < |members| && !members[i].IndexSignature? ==> |members[i].key| < |name|
  {
    if members == [] {
      name := "x";
    } else {
      var rest := FreshName(members[1..]);
      var first := match members[0]
        case Property(text, key, _) => text + key
        case Method(key) => key
        case IndexSignature => "";
      name := rest + first + "x";
      LongNameIsFresh(members, name);
    }
  }

  lemma {:induction false} LongNameIsFresh(members: seq<MemberDecl>, name: string)
    requires forall i :: 0 <= i < |members| && members[i].Property? ==> |members[i].text| < |name|
    requires forall i :: 0 <= i < |members| && !members[i].IndexSignature? ==> |members[i].key| < |name|
    ensures FindProperty(members, name).None? && FindMember(members, name).None?
  {
    if members != [] {
      LongNameIsFresh(members[1..], name);
    }
  }
}
