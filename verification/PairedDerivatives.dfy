/** Separating paired Chinese code blocks from primary ones, without losing any fingerprint. */
module PairedDerivatives {
  import opened Outcomes
  import opened Selections
  import opened Text

  datatype Block = Block(doc: string, fingerprint: string)

  const ZH := ".zh.md"

  function UnsuffixedSibling(doc: string): (sibling: Option<string>)
    ensures sibling.Some? ==> |sibling.value| < |doc|
  {
    if EndsWith(doc, ZH) then Some(doc[..|doc| - 6] + ".md") else None
  }

  /** The blocks of one document, in order. */
  function Group(blocks: seq<Block>, doc: string): seq<Block> {
    if blocks == [] then []
    else (if blocks[0].doc == doc then [blocks[0]] else []) + Group(blocks[1..], doc)
  }

  function Fingerprints(blocks: seq<Block>): (prints: seq<string>)
    ensures |prints| == |blocks|
  {
    if blocks == [] then [] else [blocks[0].fingerprint] + Fingerprints(blocks[1..])
  }

  /** A document whose blocks repeat, one for one, those of its unsuffixed sibling. */
  predicate IsDerivative(blocks: seq<Block>, doc: string) {
    var sibling := UnsuffixedSibling(doc);
    && sibling.Some? && Group(blocks, doc) != [] && Group(blocks, sibling.value) != []
    && Fingerprints(Group(blocks, doc)) == Fingerprints(Group(blocks, sibling.value))
  }

  /** The blocks of documents that are derivative, or that are not. */
  function Select(blocks: seq<Block>, all: seq<Block>, derivative: bool): seq<Block> {
    if blocks == [] then []
    else (if IsDerivative(all, blocks[0].doc) == derivative then [blocks[0]] else [])
         + Select(blocks[1..], all, derivative)
  }

  // ---- What the parts are ----

  function OfDoc(doc: string): Block -> bool { (b: Block) => b.doc == doc }

  function OfKind(all: seq<Block>, derivative: bool): Block -> bool {
    (b: Block) => IsDerivative(all, b.doc) == derivative
  }

  lemma {:induction false} GroupIsExact(blocks: seq<Block>, doc: string)
    ensures IsSelection(blocks, OfDoc(doc), Group(blocks, doc))
  {
    hide IsSelection;
    if blocks == [] {
      NothingSelected(OfDoc(doc));
    } else {
      GroupIsExact(blocks[1..], doc);
      SelectionStep(blocks, OfDoc(doc), Group(blocks[1..], doc));
      assert [] + Group(blocks[1..], doc) == Group(blocks[1..], doc);
    }
  }

  /** Each part has its blocks in the order of the input. */
  lemma {:induction false} SelectIsExact(blocks: seq<Block>, all: seq<Block>, derivative: bool)
    ensures IsSelection(blocks, OfKind(all, derivative), Select(blocks, all, derivative))
  {
    hide IsSelection, IsDerivative;
    if blocks == [] {
      NothingSelected(OfKind(all, derivative));
    } else {
      SelectIsExact(blocks[1..], all, derivative);
      SelectionStep(blocks, OfKind(all, derivative), Select(blocks[1..], all, derivative));
      assert [] + Select(blocks[1..], all, derivative) == Select(blocks[1..], all, derivative);
    }
  }

  /** The blocks of a document are, one for one, those of another, and there are some. */
  ghost predicate Repeats(blocks: seq<Block>, doc: string, original: string) {
    exists own: seq<Block>, other: seq<Block> ::
      && IsSelection(blocks, OfDoc(doc), own) && IsSelection(blocks, OfDoc(original), other) && own != []
      && |own| == |other| && forall k :: 0 <= k < |own| ==> own[k].fingerprint == other[k].fingerprint
  }

  lemma {:induction false} FingerprintsAt(blocks: seq<Block>)
    ensures forall k :: 0 <= k < |blocks| ==> Fingerprints(blocks)[k] == blocks[k].fingerprint
  {
    if blocks != [] {
      FingerprintsAt(blocks[1..]);
    }
  }

  lemma {:induction false} EqualFingerprints(a: seq<Block>, b: seq<Block>)
    ensures Fingerprints(a) == Fingerprints(b) <==>
      |a| == |b| && forall k :: 0 <= k < |a| ==> a[k].fingerprint == b[k].fingerprint
  {
    FingerprintsAt(a);
    FingerprintsAt(b);
    hide Fingerprints;
    if Fingerprints(a) == Fingerprints(b) {
      forall k | 0 <= k < |a|
        ensures a[k].fingerprint == b[k].fingerprint
      {
        assert Fingerprints(a)[k] == Fingerprints(b)[k];
      }
    }
  }

  /** A document is a derivative exactly when its name ends in `.zh.md` and it repeats the one without that. */
  lemma {:induction false} DerivativeIsExact(blocks: seq<Block>, doc: string)
    ensures IsDerivative(blocks, doc) <==>
      exists stem: string :: doc == stem + ".zh.md" && Repeats(blocks, doc, stem + ".md")
  {
    hide Group, Fingerprints, IsSelection;
    if IsDerivative(blocks, doc) {
      var stem := doc[..|doc| - 6];
      assert doc == stem + ".zh.md";
      RepeatsIsExact(blocks, doc, stem + ".md");
    }
    if stem: string :| doc == stem + ".zh.md" && Repeats(blocks, doc, stem + ".md") {
      assert doc[..|doc| - 6] == stem && doc[|doc| - 6..] == ".zh.md";
      RepeatsIsExact(blocks, doc, stem + ".md");
    }
  }

  lemma {:induction false} RepeatsIsExact(blocks: seq<Block>, doc: string, original: string)
    ensures Repeats(blocks, doc, original) <==>
      Group(blocks, doc) != [] && Fingerprints(Group(blocks, doc)) == Fingerprints(Group(blocks, original))
  {
    hide Group, Fingerprints, IsSelection;
    GroupIsExact(blocks, doc);
    GroupIsExact(blocks, original);
    EqualFingerprints(Group(blocks, doc), Group(blocks, original));
    if own: seq<Block>, other: seq<Block> :|
      && IsSelection(blocks, OfDoc(doc), own) && IsSelection(blocks, OfDoc(original), other) && own != []
      && |own| == |other| && forall k :: 0 <= k < |own| ==> own[k].fingerprint == other[k].fingerprint {
      OneSelection(blocks, OfDoc(doc), own, Group(blocks, doc));
      OneSelection(blocks, OfDoc(original), other, Group(blocks, original));
    }
  }

  // ---- The loops ----

  lemma {:induction false} GroupAppend(blocks: seq<Block>, i: nat, doc: string)
    requires i < |blocks|
    ensures Group(blocks[..i + 1], doc) == Group(blocks[..i], doc) + if blocks[i].doc == doc then [blocks[i]] else []
  {
    if i == 0 {
      assert blocks[..1] == [blocks[0]] && blocks[..1][1..] == [] && blocks[..0] == [];
    } else {
      GroupAppend(blocks[1..], i - 1, doc);
      assert blocks[..i + 1][1..] == blocks[1..][..i] && blocks[..i][1..] == blocks[1..][..i - 1];
    }
  }

  /** Every document with blocks has exactly its group. */
  ghost predicate Grouped(byDoc: map<string, seq<Block>>, blocks: seq<Block>) {
    forall doc ::
      if doc in byDoc then byDoc[doc] == Group(blocks, doc) && byDoc[doc] != [] else Group(blocks, doc) == []
  }

  method GroupByDoc(blocks: seq<Block>) returns (byDoc: map<string, seq<Block>>)
    ensures Grouped(byDoc, blocks)
  {
    hide Group;
    byDoc := map[];
    NoGroups(blocks);
    for i := 0 to |blocks|
      invariant Grouped(byDoc, blocks[..i])
    {
      var block := blocks[i];
      AddToGroup(byDoc, blocks, i);
      byDoc := byDoc[block.doc := (if block.doc in byDoc then byDoc[block.doc] else []) + [block]];
    }
    assert blocks[..|blocks|] == blocks;
  }

  lemma {:induction false} NoGroups(blocks: seq<Block>)
    ensures Grouped(map[], blocks[..0])
  {
  }

  lemma {:induction false} AddToGroup(byDoc: map<string, seq<Block>>, blocks: seq<Block>, i: nat)
    requires i < |blocks| && Grouped(byDoc, blocks[..i])
    ensures var block := blocks[i];
            Grouped(byDoc[block.doc := (if block.doc in byDoc then byDoc[block.doc] else []) + [block]],
                    blocks[..i + 1])
  {
    hide Group;
    var block := blocks[i];
    var next := byDoc[block.doc := (if block.doc in byDoc then byDoc[block.doc] else []) + [block]];
    forall doc
      ensures if doc in next then next[doc] == Group(blocks[..i + 1], doc) && next[doc] != []
              else Group(blocks[..i + 1], doc) == []
    {
      GroupAppend(blocks, i, doc);
    }
  }

  /** Compare the fingerprints of two groups, one for one. */
  method SameFingerprints(candidates: seq<Block>, originals: seq<Block>) returns (same: bool)
    ensures same == (Fingerprints(candidates) == Fingerprints(originals))
  {
    if |originals| != |candidates| {
      return false;
    }
    for i := 0 to |candidates|
      invariant forall k :: 0 <= k < i ==> candidates[k].fingerprint == originals[k].fingerprint
    {
      if candidates[i].fingerprint != originals[i].fingerprint {
        FingerprintAt(candidates, i);
        FingerprintAt(originals, i);
        return false;
      }
    }
    forall k | 0 <= k < |candidates|
      ensures Fingerprints(candidates)[k] == Fingerprints(originals)[k]
    {
      FingerprintAt(candidates, k);
      FingerprintAt(originals, k);
    }
    return true;
  }

  lemma {:induction false} FingerprintAt(blocks: seq<Block>, k: nat)
    requires k < |blocks|
    ensures Fingerprints(blocks)[k] == blocks[k].fingerprint
  {
    if k > 0 {
      FingerprintAt(blocks[1..], k - 1);
    }
  }

  /** Whether one document's group repeats its sibling's. */
  method Derivative(byDoc: map<string, seq<Block>>, blocks: seq<Block>, doc: string) returns (derivative: bool)
    requires Grouped(byDoc, blocks)
    ensures derivative == IsDerivative(blocks, doc)
  {
    hide Group, Fingerprints, UnsuffixedSibling;
    var sibling := UnsuffixedSibling(doc);
    if sibling.None? || doc !in byDoc || sibling.value !in byDoc {
      return false;
    }
    derivative := SameFingerprints(byDoc[doc], byDoc[sibling.value]);
  }

  /** Complete paired sequences go to the derivatives, everything else stays primary, both in order. */
  method PartitionPairedMarkdownDerivatives(blocks: seq<Block>) returns (primary: seq<Block>, derivatives: seq<Block>)
    ensures primary == Select(blocks, blocks, false) && derivatives == Select(blocks, blocks, true)
  {
    hide IsDerivative, Grouped;
    var byDoc := GroupByDoc(blocks);
    primary, derivatives := [], [];
    assert blocks[0..] == blocks;
    for i := 0 to |blocks|
      invariant primary + Select(blocks[i..], blocks, false) == Select(blocks, blocks, false)
      invariant derivatives + Select(blocks[i..], blocks, true) == Select(blocks, blocks, true)
    {
      var derivative := Derivative(byDoc, blocks, blocks[i].doc);
      SelectStep(blocks, i, false);
      SelectStep(blocks, i, true);
      if derivative {
        derivatives := derivatives + [blocks[i]];
      } else {
        primary := primary + [blocks[i]];
      }
    }
  }

  lemma {:induction false} SelectStep(blocks: seq<Block>, i: nat, derivative: bool)
    requires i < |blocks|
    ensures Select(blocks[i..], blocks, derivative) ==
      (if IsDerivative(blocks, blocks[i].doc) == derivative then [blocks[i]] else [])
      + Select(blocks[i + 1..], blocks, derivative)
  {
    hide IsDerivative;
    assert blocks[i..][1..] == blocks[i + 1..];
  }

  // ---- No fingerprint is lost ----

  lemma {:induction false} Selected(blocks: seq<Block>, all: seq<Block>, derivative: bool)
    ensures forall b :: b in Select(blocks, all, derivative) <==> b in blocks && IsDerivative(all, b.doc) == derivative
  {
    hide IsDerivative;
    if blocks != [] {
      Selected(blocks[1..], all, derivative);
      assert blocks == [blocks[0]] + blocks[1..];
    }
  }

  /** Every block is in exactly one part, as often as in the input. */
  lemma {:induction false} NothingLostOrRepeated(blocks: seq<Block>, all: seq<Block>)
    ensures multiset(Select(blocks, all, false)) + multiset(Select(blocks, all, true)) == multiset(blocks)
  {
    hide IsDerivative;
    if blocks != [] {
      assert blocks == [blocks[0]] + blocks[1..];
      NothingLostOrRepeated(blocks[1..], all);
    }
  }

  lemma {:induction false} Grouping(blocks: seq<Block>, doc: string)
    ensures forall b :: b in Group(blocks, doc) <==> b in blocks && b.doc == doc
  {
    if blocks != [] {
      Grouping(blocks[1..], doc);
      assert blocks == [blocks[0]] + blocks[1..];
    }
  }

  /** Along a chain of suffixes every derivative document repeats one fully primary document. */
  lemma {:induction false} PrimaryRoot(blocks: seq<Block>, doc: string) returns (root: string)
    requires Group(blocks, doc) != []
    ensures !IsDerivative(blocks, root) && Group(blocks, root) != []
    ensures Fingerprints(Group(blocks, root)) == Fingerprints(Group(blocks, doc))
    decreases |doc|
  {
    hide Group, Fingerprints;
    if IsDerivative(blocks, doc) {
      root := PrimaryRoot(blocks, UnsuffixedSibling(doc).value);
    } else {
      root := doc;
    }
  }

  /** Checking the primary blocks alone misses no fingerprint. */
  lemma {:induction false} EveryFingerprintIsPrimary(blocks: seq<Block>, b: Block) returns (p: Block)
    requires b in blocks
    ensures p in Select(blocks, blocks, false) && p.fingerprint == b.fingerprint
  {
    hide IsDerivative, Group, Fingerprints;
    Grouping(blocks, b.doc);
    var group := Group(blocks, b.doc);
    assert b in group;
    var k :| 0 <= k < |group| && group[k] == b;
    var root := PrimaryRoot(blocks, b.doc);
    var originals := Group(blocks, root);
    Grouping(blocks, root);
    assert |Fingerprints(originals)| == |Fingerprints(group)|;
    FingerprintAt(group, k);
    FingerprintAt(originals, k);
    p := originals[k];
    assert p in originals;
    Selected(blocks, blocks, false);
  }
}
