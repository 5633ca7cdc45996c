/** The resumable publication of one release bundle, and what it leaves at the registry. */
module Publication {
  import opened Outcomes
  import opened Registry

  const LATEST_DIST_TAG: string := "latest"
  const RELEASE_ENTRY_PACKAGE: string := "@huiliyi37/oh-my-tianshu"
  const REPLICATION_WINDOW: nat := 15 * 60000
  const POLL_INTERVAL: nat := 30000

  datatype PackedPackage = PackedPackage(name: string, integrity: string)

  datatype Manifest = Manifest(version: string, distTag: string, packages: seq<PackedPackage>)

  datatype PublishError =
    | Preflight
    | CommandFailed(name: string)
    | DifferentIntegrity(name: string)
    | IntegrityMismatch(name: string)
    | TagPointsElsewhere(name: string, found: Option<string>)
    | NotVisible(packages: seq<PackedPackage>)

  // ---- What a publication may do to the primary ----

  const LATEST_KEY: TagKey := (RELEASE_ENTRY_PACKAGE, LATEST_DIST_TAG)

  predicate PublishesName(m: Manifest, name: string, integrity: string) {
    PackedPackage(name, integrity) in m.packages
  }

  predicate OwnTag(m: Manifest, key: TagKey) {
    key == LATEST_KEY || exists i :: 0 <= i < |m.packages| && key == (m.packages[i].name, m.distTag)
  }

  predicate OnlyVersion(added: seq<string>, version: string) {
    forall i :: 0 <= i < |added| ==> added[i] == version
  }

  /** A tag's history grew only by this release, and only if the tag is one the release owns. */
  ghost predicate TagProgress(m: Manifest, p: Primary, q: Primary, key: TagKey) {
    && History(p, key) <= History(q, key)
    && OnlyVersion(History(q, key)[|History(p, key)|..], m.version)
    && (History(q, key) != History(p, key) ==> OwnTag(m, key))
  }

  /** Nothing published is ever altered; only this release's packages and tags are added. */
  ghost predicate Progress(m: Manifest, p: Primary, q: Primary) {
    && (forall name :: name in p.versions ==> name in q.versions && q.versions[name] == p.versions[name])
    && (forall name :: name in q.versions && name !in p.versions ==> PublishesName(m, name, q.versions[name]))
    && forall key :: TagProgress(m, p, q, key)
  }

  lemma ProgressReflexive(m: Manifest, p: Primary)
    ensures Progress(m, p, p)
  {
  }

  lemma TagProgressTransitive(m: Manifest, p: Primary, q: Primary, r: Primary, key: TagKey)
    requires TagProgress(m, p, q, key) && TagProgress(m, q, r, key)
    ensures TagProgress(m, p, r, key)
  {
    var a, b, c := History(p, key), History(q, key), History(r, key);
    forall i | 0 <= i < |c[|a|..]|
      ensures c[|a|..][i] == m.version
    {
      if |a| + i < |b| {
        assert b[|a|..][i] == b[|a| + i] == c[|a| + i];
      } else {
        assert c[|b|..][|a| + i - |b|] == c[|a| + i];
      }
    }
  }

  lemma ProgressTransitive(m: Manifest, p: Primary, q: Primary, r: Primary)
    requires Progress(m, p, q) && Progress(m, q, r)
    ensures Progress(m, p, r)
  {
    forall key
      ensures TagProgress(m, p, r, key)
    {
      TagProgressTransitive(m, p, q, r, key);
    }
  }

  lemma SetTagProgress(m: Manifest, p: Primary, key: TagKey)
    requires OwnTag(m, key)
    ensures Progress(m, p, SetTag(p, key, m.version))
  {
    var q := SetTag(p, key, m.version);
    forall k
      ensures TagProgress(m, p, q, k)
    {
      if k == key {
        assert History(q, k)[|History(p, k)|..] == [m.version];
      } else {
        assert History(q, k) == History(p, k);
      }
    }
  }

  lemma AddVersionProgress(m: Manifest, p: Primary, pkg: PackedPackage)
    requires pkg in m.packages && pkg.name !in p.versions
    ensures Progress(m, p, AddVersion(p, pkg.name, pkg.integrity, m.distTag, m.version))
  {
    var q := p.(versions := p.versions[pkg.name := pkg.integrity]);
    OwnTagOf(m, pkg);
    assert Progress(m, p, q) by {
      forall key
        ensures TagProgress(m, p, q, key)
      {
        assert History(q, key) == History(p, key);
      }
    }
    SetTagProgress(m, q, (pkg.name, m.distTag));
    ProgressTransitive(m, p, q, SetTag(q, (pkg.name, m.distTag), m.version));
  }

  lemma OwnTagOf(m: Manifest, pkg: PackedPackage)
    requires pkg in m.packages
    ensures OwnTag(m, (pkg.name, m.distTag))
  {
    var i :| 0 <= i < |m.packages| && m.packages[i] == pkg;
  }

  // ---- What a finished publication has established ----

  /** Every owned tag that ever named this release still does. */
  ghost predicate NeverMovedOff(m: Manifest, p: Primary) {
    forall key :: OwnTag(m, key) && m.version in History(p, key) ==> Current(p, key) == Some(m.version)
  }

  /** The package is published with the manifest's integrity, and its tag has named this release. */
  ghost predicate Visible(m: Manifest, p: Primary, pkg: PackedPackage) {
    && pkg.name in p.versions && p.versions[pkg.name] == pkg.integrity
    && m.version in History(p, (pkg.name, m.distTag))
  }

  ghost predicate AllVisible(m: Manifest, p: Primary) {
    forall i :: 0 <= i < |m.packages| ==> Visible(m, p, m.packages[i])
  }

  /** The package is published with the manifest's integrity, and its tag names this release now. */
  predicate InPlace(m: Manifest, p: Primary, pkg: PackedPackage) {
    && pkg.name in p.versions && p.versions[pkg.name] == pkg.integrity
    && Current(p, (pkg.name, m.distTag)) == Some(m.version)
  }

  /** Everything is published and every owned tag names this release now. */
  ghost predicate Done(m: Manifest, p: Primary) {
    && (forall i :: 0 <= i < |m.packages| ==>
          m.packages[i].name in p.versions && p.versions[m.packages[i].name] == m.packages[i].integrity)
    && forall key :: OwnTag(m, key) ==> Current(p, key) == Some(m.version)
  }

  /** What publishing a package achieves at a registry that answers so. */
  ghost predicate Placed(mode: Mode, m: Manifest, p: Primary, pkg: PackedPackage) {
    match mode
    case Reliable => InPlace(m, p, pkg)
    case Stale => Visible(m, p, pkg)
    case Lagging(_, _) => true
    case Erratic => true
  }

  ghost predicate AllPlaced(mode: Mode, m: Manifest, p: Primary) {
    forall i :: 0 <= i < |m.packages| ==> Placed(mode, m, p, m.packages[i])
  }

  /** A tag has named the release only if its package was published, as the registry demands. */
  ghost predicate TagsOfPublished(m: Manifest, p: Primary) {
    forall key :: m.version in History(p, key) ==> key.0 in p.versions
  }

  /** Tags that had named the release before were left alone. */
  ghost predicate NamedKept(m: Manifest, p: Primary, q: Primary) {
    forall key :: m.version in History(p, key) ==> History(q, key) == History(p, key)
  }

  predicate AllInPlace(m: Manifest, p: Primary) {
    forall i :: 0 <= i < |m.packages| ==> InPlace(m, p, m.packages[i])
  }

  predicate DifferentNames(m: Manifest) {
    forall i, j :: 0 <= i < j < |m.packages| ==> m.packages[i].name != m.packages[j].name
  }

  /** Not published yet, or in place already. */
  predicate Startable(m: Manifest, p: Primary, pkg: PackedPackage) {
    pkg.name in p.versions ==> InPlace(m, p, pkg)
  }

  /** The packages have different names, and from `i` on none is half published. */
  predicate Resumable(m: Manifest, p: Primary, i: nat) {
    DifferentNames(m) && forall k :: i <= k < |m.packages| ==> Startable(m, p, m.packages[k])
  }

  /** Only this package was published and only this tag of it was set. */
  ghost predicate OnlyPackage(p: Primary, q: Primary, name: string, tag: string) {
    && (forall other :: other in q.versions && other !in p.versions ==> other == name)
    && forall key :: key != (name, tag) ==> History(q, key) == History(p, key)
  }

  /** `latest` is the tag under which some package of the release goes out. */
  predicate ReleasesLatest(m: Manifest) {
    exists i :: 0 <= i < |m.packages| && LATEST_KEY == (m.packages[i].name, m.distTag)
  }

  predicate InPlaceUpTo(m: Manifest, p: Primary, i: nat) {
    forall k :: 0 <= k < i && k < |m.packages| ==> InPlace(m, p, m.packages[k])
  }

  lemma {:induction false} InPlaceOneMore(m: Manifest, p: Primary, q: Primary, i: nat)
    requires i < |m.packages| && InPlaceUpTo(m, p, i) && InPlace(m, q, m.packages[i]) && Progress(m, p, q)
    ensures InPlaceUpTo(m, q, i + 1)
  {
    forall k | 0 <= k < i
      ensures InPlace(m, q, m.packages[k])
    {
      ProgressKeepsInPlace(m, p, q, m.packages[k]);
    }
  }

  ghost predicate PlacedUpTo(mode: Mode, m: Manifest, p: Primary, i: nat) {
    forall k :: 0 <= k < i && k < |m.packages| ==> Placed(mode, m, p, m.packages[k])
  }

  lemma {:induction false} PlacedOneMore(mode: Mode, m: Manifest, p: Primary, q: Primary, i: nat)
    requires i < |m.packages| && PlacedUpTo(mode, m, p, i) && Placed(mode, m, q, m.packages[i]) && Progress(m, p, q)
    ensures PlacedUpTo(mode, m, q, i + 1)
  {
    hide Progress, Placed;
    forall k | 0 <= k < i
      ensures Placed(mode, m, q, m.packages[k])
    {
      ProgressKeepsPlaced(mode, m, p, q, m.packages[k]);
    }
  }

  lemma {:induction false} PlacedSoFar(mode: Mode, m: Manifest, p: Primary, q: Primary, i: nat)
    requires i <= |m.packages| && PlacedUpTo(mode, m, p, i) && Progress(m, p, q)
    ensures PlacedUpTo(mode, m, q, i)
  {
    hide Progress, Placed;
    forall k | 0 <= k < i
      ensures Placed(mode, m, q, m.packages[k])
    {
      ProgressKeepsPlaced(mode, m, p, q, m.packages[k]);
    }
  }

  /** Only the first packages were published. */
  ghost predicate OnlyFirst(m: Manifest, p: Primary, q: Primary, i: nat) {
    forall name :: name in q.versions && name !in p.versions ==>
      exists k :: 0 <= k < i && k < |m.packages| && m.packages[k].name == name
  }

  lemma {:induction false} PublishedOneMore(m: Manifest, start: Primary, p: Primary, q: Primary, i: nat)
    requires i < |m.packages| && OnlyFirst(m, start, p, i) && OnlyPackage(p, q, m.packages[i].name, m.distTag)
    ensures OnlyFirst(m, start, q, i + 1)
  {
  }

  /** The publication stopped at package `i`: those before it were published, and none after it. */
  ghost predicate StoppedAt(mode: Mode, m: Manifest, p: Primary, q: Primary, i: nat, error: PublishError) {
    && i < |m.packages| && PlacedUpTo(mode, m, q, i) && OnlyFirst(m, p, q, i + 1)
    && (error == DifferentIntegrity(m.packages[i].name) || error == CommandFailed(m.packages[i].name))
  }

  ghost predicate StoppedEarly(mode: Mode, m: Manifest, p: Primary, q: Primary, error: PublishError) {
    exists i: nat :: StoppedAt(mode, m, p, q, i, error)
  }

  lemma {:induction false} LatestLeft(m: Manifest, p: Primary, q: Primary, i: nat)
    requires i < |m.packages| && OnlyPackage(p, q, m.packages[i].name, m.distTag)
    ensures !ReleasesLatest(m) ==> History(q, LATEST_KEY) == History(p, LATEST_KEY)
  {
  }

  /** What the publication has achieved when the first packages have been published. */
  ghost predicate PublishedUpTo(mode: Mode, m: Manifest, start: Primary, p: Primary, i: nat) {
    && Progress(m, start, p) && PlacedUpTo(mode, m, p, i) && OnlyFirst(m, start, p, i)
    && LatestAsBefore(m, start, p) && TagsKept(mode, m, start, p)
    && (mode.Lagging? && Resumable(m, start, 0) ==> Resumable(m, p, i) && InPlaceUpTo(m, p, i))
  }

  ghost predicate LatestAsBefore(m: Manifest, p: Primary, q: Primary) {
    !ReleasesLatest(m) ==> History(q, LATEST_KEY) == History(p, LATEST_KEY)
  }

  ghost predicate TagsKept(mode: Mode, m: Manifest, p: Primary, q: Primary) {
    TagsOfPublished(m, p) ==> TagsOfPublished(m, q) && (mode.Stale? ==> NamedKept(m, p, q))
  }

  lemma {:induction false} AtStart(mode: Mode, m: Manifest, p: Primary)
    ensures PublishedUpTo(mode, m, p, p, 0)
  {
    ProgressReflexive(m, p);
    hide Progress;
  }

  lemma {:induction false} TagsStillKept(mode: Mode, m: Manifest, p: Primary, q: Primary, r: Primary)
    requires TagsKept(mode, m, p, q) && TagsKept(mode, m, q, r)
    ensures TagsKept(mode, m, p, r)
  {
    hide TagsOfPublished, NamedKept;
    if TagsOfPublished(m, p) && mode.Stale? {
      KeptTransitive(m, p, q, r);
    }
  }

  /** What one package's publication adds. */
  ghost predicate PackageStep(mode: Mode, m: Manifest, p: Primary, q: Primary, i: nat)
    requires i < |m.packages|
  {
    && Progress(m, p, q) && OnlyPackage(p, q, m.packages[i].name, m.distTag) && TagsKept(mode, m, p, q)
  }

  lemma {:induction false} OneMorePublished(mode: Mode, m: Manifest, start: Primary, p: Primary, q: Primary, i: nat)
    requires i < |m.packages| && PublishedUpTo(mode, m, start, p, i) && PackageStep(mode, m, p, q, i)
    requires Placed(mode, m, q, m.packages[i])
    requires mode.Lagging? && Startable(m, p, m.packages[i]) ==> InPlace(m, q, m.packages[i])
    ensures PublishedUpTo(mode, m, start, q, i + 1)
  {
    hide Progress, PlacedUpTo, OnlyFirst, ReleasesLatest, TagsKept, Resumable, InPlaceUpTo, OnlyPackage, Placed,
         InPlace, Startable;
    ProgressTransitive(m, start, p, q);
    PlacedOneMore(mode, m, p, q, i);
    PublishedOneMore(m, start, p, q, i);
    LatestLeft(m, p, q, i);
    TagsStillKept(mode, m, start, p, q);
    if mode.Lagging? && Resumable(m, start, 0) {
      StartableNext(m, p, i);
      StillResumable(m, p, q, i);
      InPlaceOneMore(m, p, q, i);
    }
  }

  lemma {:induction false} StartableNext(m: Manifest, p: Primary, i: nat)
    requires i < |m.packages| && Resumable(m, p, i)
    ensures Startable(m, p, m.packages[i])
  {
  }

  /** What a publication that stops has achieved. */
  ghost predicate StoppedWith(mode: Mode, m: Manifest, start: Primary, q: Primary, error: PublishError) {
    && Progress(m, start, q) && LatestAsBefore(m, start, q) && TagsKept(mode, m, start, q)
    && StoppedEarly(mode, m, start, q, error)
  }

  lemma {:induction false} Interrupted(mode: Mode, m: Manifest, start: Primary, p: Primary, q: Primary, i: nat,
                                       error: PublishError)
    requires i < |m.packages| && PublishedUpTo(mode, m, start, p, i) && PackageStep(mode, m, p, q, i)
    requires error == DifferentIntegrity(m.packages[i].name) || error == CommandFailed(m.packages[i].name)
    ensures StoppedWith(mode, m, start, q, error)
  {
    hide Progress, PlacedUpTo, OnlyFirst, ReleasesLatest, TagsKept, Resumable, InPlaceUpTo, OnlyPackage;
    ProgressTransitive(m, start, p, q);
    PlacedSoFar(mode, m, p, q, i);
    PublishedOneMore(m, start, p, q, i);
    LatestLeft(m, p, q, i);
    TagsStillKept(mode, m, start, p, q);
    assert StoppedAt(mode, m, start, q, i, error);
  }

  lemma {:induction false} AtEnd(mode: Mode, m: Manifest, start: Primary, p: Primary)
    requires PublishedUpTo(mode, m, start, p, |m.packages|)
    ensures Progress(m, start, p) && AllPlaced(mode, m, p) && LatestAsBefore(m, start, p) && TagsKept(mode, m, start, p)
    ensures mode.Lagging? && Resumable(m, start, 0) ==> AllInPlace(m, p)
  {
    hide Progress, Placed, InPlace, OnlyFirst, ReleasesLatest, TagsKept, Resumable;
  }

  /** What is known of the next package. */
  lemma {:induction false} NextPackage(mode: Mode, m: Manifest, start: Primary, p: Primary, i: nat)
    requires i < |m.packages| && PublishedUpTo(mode, m, start, p, i)
    ensures var pkg := m.packages[i];
            && (NoConflict(m, start) && pkg.name in p.versions ==> p.versions[pkg.name] == pkg.integrity)
            && (mode.Lagging? && Resumable(m, start, 0) ==> Startable(m, p, pkg))
            && (AllInPlace(m, p) ==> InPlace(m, p, pkg))
            && pkg in m.packages
  {
    hide Progress, InPlace, Startable, PlacedUpTo, OnlyFirst, LatestAsBefore, TagsKept, InPlaceUpTo;
    if NoConflict(m, start) {
      ProgressKeepsNoConflict(m, start, p);
    }
  }

  lemma {:induction false} StillResumable(m: Manifest, p: Primary, q: Primary, i: nat)
    requires i < |m.packages| && Resumable(m, p, i) && OnlyPackage(p, q, m.packages[i].name, m.distTag)
    requires Progress(m, p, q)
    ensures Resumable(m, q, i + 1)
  {
    hide Progress, OwnTag;
    forall k | i + 1 <= k < |m.packages|
      ensures Startable(m, q, m.packages[k])
    {
      assert Startable(m, p, m.packages[k]);
      if m.packages[k].name in p.versions {
        ProgressKeepsInPlace(m, p, q, m.packages[k]);
      }
    }
  }

  /** What each error of a verification says about the package. */
  predicate Faults(m: Manifest, p: Primary, pkg: PackedPackage, error: PublishError) {
    match error
    case CommandFailed(name) => name == pkg.name
    case IntegrityMismatch(name) => name == pkg.name && name in p.versions && p.versions[name] != pkg.integrity
    case TagPointsElsewhere(name, Some(found)) =>
      && name == pkg.name && name in p.versions && p.versions[name] == pkg.integrity
      && found != m.version && found in History(p, (name, m.distTag))
    case _ => false
  }

  /** Published with another integrity, or with its tag at another version. */
  predicate Mismatched(m: Manifest, p: Primary, pkg: PackedPackage) {
    && pkg.name in p.versions
    && (p.versions[pkg.name] == pkg.integrity ==>
          Current(p, (pkg.name, m.distTag)).Some? && Current(p, (pkg.name, m.distTag)) != Some(m.version))
  }

  /** The error is the fault of the first package that has one. */
  ghost predicate FirstFault(m: Manifest, p: Primary, pending: seq<PackedPackage>, error: PublishError) {
    exists i :: 0 <= i < |pending| && Faults(m, p, pending[i], error) && Mismatched(m, p, pending[i])
                && forall k :: 0 <= k < i ==> !Mismatched(m, p, pending[k])
  }

  lemma ProgressKeepsTags(m: Manifest, p: Primary, q: Primary)
    requires Progress(m, p, q) && NeverMovedOff(m, p)
    ensures NeverMovedOff(m, q)
  {
    forall key | OwnTag(m, key) && m.version in History(q, key)
      ensures Current(q, key) == Some(m.version)
    {
      ProgressKeepsCurrent(m, p, q, key);
    }
  }

  /** A tag that names this release keeps naming it. */
  lemma ProgressKeepsCurrent(m: Manifest, p: Primary, q: Primary, key: TagKey)
    requires Progress(m, p, q)
    ensures Current(q, key) == Current(p, key) || Current(q, key) == Some(m.version)
    ensures History(q, key) != History(p, key) ==> Current(q, key) == Some(m.version)
  {
    var a, b := History(p, key), History(q, key);
    assert TagProgress(m, p, q, key);
    if |a| == |b| {
      assert a == b;
    } else {
      assert b[|a|..][|b| - 1 - |a|] == b[|b| - 1];
    }
  }

  lemma ProgressKeepsInPlace(m: Manifest, p: Primary, q: Primary, pkg: PackedPackage)
    requires Progress(m, p, q) && InPlace(m, p, pkg)
    ensures InPlace(m, q, pkg)
  {
    ProgressKeepsCurrent(m, p, q, (pkg.name, m.distTag));
  }

  lemma ProgressKeepsPlaced(mode: Mode, m: Manifest, p: Primary, q: Primary, pkg: PackedPackage)
    requires Progress(m, p, q) && Placed(mode, m, p, pkg)
    ensures Placed(mode, m, q, pkg)
  {
    match mode
    case Reliable => ProgressKeepsInPlace(m, p, q, pkg);
    case Stale => assert TagProgress(m, p, q, (pkg.name, m.distTag));
    case Lagging(_, _) =>
    case Erratic =>
  }

  /** No name is published twice by one release, and none was published with other contents before. */
  ghost predicate NoConflict(m: Manifest, p: Primary) {
    && (forall i, j :: 0 <= i < j < |m.packages| ==> m.packages[i].name != m.packages[j].name)
    && forall i :: 0 <= i < |m.packages| && m.packages[i].name in p.versions ==>
         p.versions[m.packages[i].name] == m.packages[i].integrity
  }

  lemma ProgressKeepsNoConflict(m: Manifest, p: Primary, q: Primary)
    requires Progress(m, p, q) && NoConflict(m, p)
    ensures NoConflict(m, q)
  {
    forall i | 0 <= i < |m.packages| && m.packages[i].name in q.versions
      ensures q.versions[m.packages[i].name] == m.packages[i].integrity
    {
      if m.packages[i].name !in p.versions {
        var j :| 0 <= j < |m.packages|
          && m.packages[j] == PackedPackage(m.packages[i].name, q.versions[m.packages[i].name]);
        assert i == j;
      }
    }
  }

  /** Some package of the release, or an earlier publication, provides the release entry. */
  ghost predicate ProvidesEntry(m: Manifest, p: Primary) {
    RELEASE_ENTRY_PACKAGE in p.versions ||
    exists i :: 0 <= i < |m.packages| && m.packages[i].name == RELEASE_ENTRY_PACKAGE
  }

  lemma ProgressKeepsVisible(m: Manifest, p: Primary, q: Primary)
    requires Progress(m, p, q) && AllVisible(m, p)
    ensures AllVisible(m, q)
  {
    forall i | 0 <= i < |m.packages|
      ensures Visible(m, q, m.packages[i])
    {
      assert Visible(m, p, m.packages[i]);
      assert TagProgress(m, p, q, (m.packages[i].name, m.distTag));
    }
  }

  lemma VisibleIsDone(m: Manifest, p: Primary)
    requires NeverMovedOff(m, p) && AllVisible(m, p) && m.version in History(p, LATEST_KEY)
    ensures Done(m, p)
  {
    forall key | OwnTag(m, key)
      ensures Current(p, key) == Some(m.version)
    {
      if key != LATEST_KEY {
        var i :| 0 <= i < |m.packages| && key == (m.packages[i].name, m.distTag);
        assert Visible(m, p, m.packages[i]);
      }
    }
  }

  /**
   * Resuming loses nothing: whatever interrupted runs did in between, two finished publications that
   * started from the same primary leave the same versions and the same current tags.
   */
  lemma ResumedRunsConverge(m: Manifest, start: Primary, p: Primary, q: Primary)
    requires Progress(m, start, p) && Done(m, p)
    requires Progress(m, start, q) && Done(m, q)
    ensures p.versions == q.versions
    ensures forall key :: Current(p, key) == Current(q, key)
  {
    SameVersions(m, start, p, q);
    SameVersions(m, start, q, p);
    forall key
      ensures Current(p, key) == Current(q, key)
    {
      if !OwnTag(m, key) {
        assert TagProgress(m, start, p, key) && TagProgress(m, start, q, key);
      }
    }
  }

  lemma SameVersions(m: Manifest, start: Primary, p: Primary, q: Primary)
    requires Progress(m, start, p) && Progress(m, start, q) && Done(m, q)
    ensures forall name :: name in p.versions ==> name in q.versions && q.versions[name] == p.versions[name]
  {
    forall name | name in p.versions
      ensures name in q.versions && q.versions[name] == p.versions[name]
    {
      if name !in start.versions {
        var i :| 0 <= i < |m.packages| && m.packages[i] == PackedPackage(name, p.versions[name]);
      }
    }
  }

  // ---- The protocol ----

  class RegistryPublication {
    const manifest: Manifest
    const registry: Registry

    constructor (manifest: Manifest, registry: Registry)
      requires registry.version == manifest.version
      ensures this.manifest == manifest && this.registry == registry
    {
      this.manifest, this.registry := manifest, registry;
    }

    /** Nothing was written, and no time went by. */
    predicate Untouched(primary: Primary, lastWrite: nat, clock: nat)
      reads registry
    {
      registry.primary == primary && registry.lastWrite == lastWrite && registry.clock == clock
    }

    /** Leave the tag alone when a read shows it in place, otherwise add it. */
    method EnsureDistTag(name: string, tag: string) returns (error: Option<PublishError>)
      requires registry.version == manifest.version && OwnTag(manifest, (name, tag))
      modifies registry
      ensures registry.clock >= old(registry.clock)
      ensures Progress(manifest, old(registry.primary), registry.primary)
      ensures registry.primary.versions == old(registry.primary.versions)
      ensures forall key :: key != (name, tag) ==> History(registry.primary, key) == History(old(registry.primary), key)
      ensures error.None? ==> manifest.version in History(registry.primary, (name, tag))
      ensures error.Some? ==> error == Some(CommandFailed(name))
      ensures registry.mode.Reliable? && Current(old(registry.primary), (name, tag)) == Some(manifest.version) ==>
        error.None? && registry.primary == old(registry.primary)
      ensures !registry.mode.Erratic? && name in old(registry.primary).versions ==> error.None?
      ensures registry.mode.Lagging? && error.None? ==> Current(registry.primary, (name, tag)) == Some(manifest.version)
      ensures old(registry.CaughtUp()) && Current(old(registry.primary), (name, tag)) == Some(manifest.version) ==>
        error.None? && Untouched(old(registry.primary), old(registry.lastWrite), old(registry.clock))
      ensures registry.mode.Lagging? && error.None? && !old(registry.CaughtUp()) && registry.mode.hides ==>
        registry.lastWrite == registry.clock
      ensures registry.mode.Lagging? && error.None?
              && Current(old(registry.primary), (name, tag)) != Some(manifest.version) ==>
        registry.lastWrite == registry.clock
      ensures registry.lastWrite == old(registry.lastWrite) || registry.lastWrite == registry.clock
      ensures registry.mode.Reliable? && error.None? ==>
        Current(registry.primary, (name, tag)) == Some(manifest.version)
      ensures registry.mode.Stale? ==> NamedKept(manifest, old(registry.primary), registry.primary)
      ensures TagsOfPublished(manifest, old(registry.primary)) ==> TagsOfPublished(manifest, registry.primary)
    {
      ProgressReflexive(manifest, registry.primary);
      SetTagProgress(manifest, registry.primary, (name, tag));
      var read := registry.ViewTag(name, tag);
      if read.Failed? {
        return Some(CommandFailed(name));
      }
      if read == Seen(manifest.version) {
        return None;
      }
      var ok := registry.AddTag(name, tag);
      return if ok then None else Some(CommandFailed(name));
    }
 
    /**
     * Verify one package through a replica; `false` while it is not visible yet. A wrong integrity is
     * the primary's own; a wrong tag is some value the tag has held, perhaps a stale one.
     */
    method VerifyRemotePackage(pkg: PackedPackage) returns (visible: bool, error: Option<PublishError>)
      requires registry.version == manifest.version
      modifies registry`clock
      ensures registry.clock >= old(registry.clock)
      ensures visible ==> error.None? && Visible(manifest, registry.primary, pkg)
      ensures error.Some? ==> Faults(manifest, registry.primary, pkg, error.value)
      ensures registry.Prompt() ==> (visible <==> Placed(registry.mode, manifest, registry.primary, pkg))
      ensures registry.mode.Lagging? ==> registry.clock == old(registry.clock)
      ensures registry.mode.Lagging? && InPlace(manifest, registry.primary, pkg) ==>
        error.None? && (registry.CaughtUp() ==> visible) && (registry.mode.hides && !registry.CaughtUp() ==> !visible)
      ensures registry.mode.Reliable? ==> (error.Some? <==> Mismatched(manifest, registry.primary, pkg))
    {
      var integrity := registry.ViewIntegrity(pkg.name);
      if integrity.Failed? {
        return false, Some(CommandFailed(pkg.name));
      }
      if integrity.Absent? {
        return false, None;
      }
      if integrity.value != pkg.integrity {
        return false, Some(IntegrityMismatch(pkg.name));
      }
      var tagged := registry.ViewTag(pkg.name, manifest.distTag);
      if tagged.Failed? {
        return false, Some(CommandFailed(pkg.name));
      }
      if tagged.Absent? {
        return false, None;
      }
      if tagged.value != manifest.version {
        return false, Some(TagPointsElsewhere(pkg.name, Some(tagged.value)));
      }
      return true, None;
    }

    /** One pass over the packages not seen yet; keeps those still not visible. */
    method VerifyPass(pending: seq<PackedPackage>) returns (notVisible: seq<PackedPackage>, error: Option<PublishError>)
      requires registry.version == manifest.version
      requires forall pkg :: pkg in pending ==> pkg in manifest.packages
      modifies registry`clock
      ensures registry.clock >= old(registry.clock)
      ensures forall pkg :: pkg in notVisible ==> pkg in manifest.packages
      ensures error.None? ==>
                forall pkg :: pkg in pending ==> pkg in notVisible || Visible(manifest, registry.primary, pkg)
      ensures error.Some? ==>
        exists i :: 0 <= i < |manifest.packages|
          && Faults(manifest, registry.primary, manifest.packages[i], error.value)
      ensures registry.Prompt() && AllPlaced(registry.mode, manifest, registry.primary) ==>
        error.None? && notVisible == []
      ensures registry.mode.Reliable? ==>
        && (error.Some? ==> FirstFault(manifest, registry.primary, pending, error.value))
        && (error.None? ==> forall k :: 0 <= k < |pending| ==> !Mismatched(manifest, registry.primary, pending[k]))
      ensures registry.mode.Lagging? ==> registry.clock == old(registry.clock)
      ensures registry.mode.Lagging? && AllInPlace(manifest, registry.primary) ==>
        && error.None? && (registry.CaughtUp() ==> notVisible == [])
        && (registry.mode.hides && !registry.CaughtUp() ==> |notVisible| == |pending|)
    {
      notVisible := [];
      for i := 0 to |pending|
        invariant registry.clock >= old(registry.clock)
        invariant forall pkg :: pkg in notVisible ==> pkg in manifest.packages
        invariant forall k :: 0 <= k < i ==> pending[k] in notVisible || Visible(manifest, registry.primary, pending[k])
        invariant registry.Prompt() && AllPlaced(registry.mode, manifest, registry.primary) ==> notVisible == []
        invariant registry.mode.Reliable? ==>
          forall k :: 0 <= k < i ==> !Mismatched(manifest, registry.primary, pending[k])
        invariant registry.mode.Lagging? ==> registry.clock == old(registry.clock)
        invariant registry.CaughtUp() && AllInPlace(manifest, registry.primary) ==> notVisible == []
        invariant registry.mode.Lagging? && registry.mode.hides && !registry.CaughtUp() &&
                  AllInPlace(manifest, registry.primary) ==>
                    |notVisible| == i
      {
        if AllPlaced(registry.mode, manifest, registry.primary) {
          assert pending[i] in pending;
          var k :| 0 <= k < |manifest.packages| && manifest.packages[k] == pending[i];
          assert Placed(registry.mode, manifest, registry.primary, manifest.packages[k]);
        }
        if AllInPlace(manifest, registry.primary) {
          assert pending[i] in pending;
          var k :| 0 <= k < |manifest.packages| && manifest.packages[k] == pending[i];
          assert InPlace(manifest, registry.primary, manifest.packages[k]);
        }
        var visible, problem := VerifyRemotePackage(pending[i]);
        if problem.Some? {
          assert pending[i] in manifest.packages;
          var k :| 0 <= k < |manifest.packages| && manifest.packages[k] == pending[i];
          assert Faults(manifest, registry.primary, manifest.packages[k], problem.value);
          return notVisible, problem;
        }
        if !visible {
          notVisible := notVisible + [pending[i]];
        }
      }
      return notVisible, None;
    }

    /** The replicas of a lagging registry will have caught up by then. */
    predicate CatchesUp(time: int)
      reads registry
    {
      registry.mode.Lagging? && registry.lastWrite + registry.mode.lag <= time
    }

    /** Poll until every package is visible, within the replication window. */
    method VerifyRemote() returns (error: Option<PublishError>)
      requires registry.version == manifest.version
      modifies registry`clock
      ensures error.None? ==> AllVisible(manifest, registry.primary)
      ensures error.Some? && error.value.NotVisible? ==>
        && registry.clock >= old(registry.clock) + REPLICATION_WINDOW && error.value.packages != []
        && forall pkg :: pkg in error.value.packages ==> pkg in manifest.packages
      ensures error.Some? && !error.value.NotVisible? ==>
        exists i :: 0 <= i < |manifest.packages|
          && Faults(manifest, registry.primary, manifest.packages[i], error.value)
      ensures registry.Prompt() && AllPlaced(registry.mode, manifest, registry.primary) ==> error.None?
      ensures registry.clock >= old(registry.clock)
      ensures old(registry.CaughtUp()) && AllInPlace(manifest, registry.primary) ==>
        error.None? && registry.clock == old(registry.clock)
      ensures CatchesUp(old(registry.clock) + REPLICATION_WINDOW) && AllInPlace(manifest, registry.primary) ==>
        && error.None? && (registry.clock - old(registry.clock)) % POLL_INTERVAL == 0
        && (registry.clock == old(registry.clock) || !CatchesUp(registry.clock - POLL_INTERVAL))
        && (registry.mode.hides && manifest.packages != [] ==> registry.CaughtUp())
    {
      var deadline := registry.clock + REPLICATION_WINDOW;
      var pending := manifest.packages;
      while true
        invariant forall pkg :: pkg in pending ==> pkg in manifest.packages
        invariant forall pkg :: pkg in manifest.packages ==> pkg in pending || Visible(manifest, registry.primary, pkg)
        invariant registry.clock >= old(registry.clock)
        invariant manifest.packages == [] || pending != []
        invariant old(registry.CaughtUp()) && AllInPlace(manifest, registry.primary) ==>
          registry.clock == old(registry.clock)
        invariant CatchesUp(old(registry.clock) + REPLICATION_WINDOW) && AllInPlace(manifest, registry.primary) ==>
          && (registry.clock - old(registry.clock)) % POLL_INTERVAL == 0
          && (registry.clock == old(registry.clock) || !CatchesUp(registry.clock - POLL_INTERVAL))
        decreases deadline - registry.clock
      {
        var notVisible, problem := VerifyPass(pending);
        if problem.Some? {
          return problem;
        }
        if |notVisible| == 0 {
          return None;
        }
        if registry.clock >= deadline {
          return Some(NotVisible(notVisible));
        }
        registry.Sleep(POLL_INTERVAL);
        pending := notVisible;
      }
    }

    method VerifyReleaseEntryDistTag() returns (error: Option<PublishError>)
      requires registry.version == manifest.version
      modifies registry`clock
      ensures error.None? ==> manifest.version in History(registry.primary, LATEST_KEY)
      ensures registry.mode.Reliable? && Current(registry.primary, LATEST_KEY) == Some(manifest.version) ==> error.None?
      ensures registry.mode.Stale? && manifest.version in History(registry.primary, LATEST_KEY) ==> error.None?
      ensures registry.clock >= old(registry.clock)
      ensures registry.mode.Lagging? ==> registry.clock == old(registry.clock)
      ensures registry.mode.Lagging? && Current(registry.primary, LATEST_KEY) == Some(manifest.version) ==>
        && (error.None? || error == Some(TagPointsElsewhere(RELEASE_ENTRY_PACKAGE, None)))
        && (registry.CaughtUp() ==> error.None?)
        && (registry.mode.hides && !registry.CaughtUp() ==> error.Some?)
    {
      var tagged := registry.ViewTag(RELEASE_ENTRY_PACKAGE, LATEST_DIST_TAG);
      if tagged.Failed? {
        return Some(CommandFailed(RELEASE_ENTRY_PACKAGE));
      }
      if tagged != Seen(manifest.version) {
        return Some(TagPointsElsewhere(RELEASE_ENTRY_PACKAGE, if tagged.Seen? then Some(tagged.value) else None));
      }
      return None;
    }

    /** Publish one package, or recognise that it is published already. */
    method PublishPackage(pkg: PackedPackage) returns (error: Option<PublishError>)
      requires registry.version == manifest.version && pkg in manifest.packages
      modifies registry
      ensures Progress(manifest, old(registry.primary), registry.primary)
      ensures manifest.distTag != LATEST_DIST_TAG ==>
        History(registry.primary, LATEST_KEY) == History(old(registry.primary), LATEST_KEY)
      ensures registry.Prompt() ==>
        (error.None? <==> pkg.name in old(registry.primary).versions ==>
           old(registry.primary).versions[pkg.name] == pkg.integrity)
      ensures error.None? ==> Placed(registry.mode, manifest, registry.primary, pkg)
      ensures TagsKept(registry.mode, manifest, old(registry.primary), registry.primary)
      ensures registry.clock >= old(registry.clock)
      ensures registry.lastWrite == old(registry.lastWrite) || registry.lastWrite == registry.clock
      ensures OnlyPackage(old(registry.primary), registry.primary, pkg.name, manifest.distTag)
      ensures registry.mode.Lagging? && Startable(manifest, old(registry.primary), pkg) ==>
        error.None? && InPlace(manifest, registry.primary, pkg)
      ensures old(registry.CaughtUp()) && InPlace(manifest, old(registry.primary), pkg) ==>
        error.None? && Untouched(old(registry.primary), old(registry.lastWrite), old(registry.clock))
      ensures error == Some(DifferentIntegrity(pkg.name)) ==>
        && registry.primary == old(registry.primary)
        && pkg.name in registry.primary.versions && registry.primary.versions[pkg.name] != pkg.integrity
      ensures error.Some? ==> error == Some(DifferentIntegrity(pkg.name)) || error == Some(CommandFailed(pkg.name))
    {
      ProgressReflexive(manifest, registry.primary);
      OwnTagOf(manifest, pkg);
      var existing := registry.ViewIntegrity(pkg.name);
      match existing
      case Failed =>
        return Some(CommandFailed(pkg.name));
      case Absent =>
        if pkg.name !in registry.primary.versions {
          AddVersionProgress(manifest, registry.primary, pkg);
        }
        var reply := registry.Publish(pkg.name, pkg.integrity, manifest.distTag);
        return if reply.Rejected? then Some(CommandFailed(pkg.name)) else None;
      case Seen(integrity) =>
        if integrity != pkg.integrity {
          return Some(DifferentIntegrity(pkg.name));
        }
        error := EnsureDistTag(pkg.name, manifest.distTag);
    }

    /** Publish every package in manifest order, stopping at the first problem. */
    method PublishAll() returns (error: Option<PublishError>)
      requires registry.version == manifest.version
      modifies registry
      ensures Progress(manifest, old(registry.primary), registry.primary)
      ensures LatestAsBefore(manifest, old(registry.primary), registry.primary)
      ensures TagsKept(registry.mode, manifest, old(registry.primary), registry.primary)
      ensures registry.Prompt() && NoConflict(manifest, old(registry.primary)) ==> error.None?
      ensures registry.clock >= old(registry.clock)
      ensures old(registry.lastWrite) <= old(registry.clock) ==> registry.lastWrite <= registry.clock
      ensures registry.mode.Lagging? && Resumable(manifest, old(registry.primary), 0) ==>
        error.None? && AllInPlace(manifest, registry.primary)
      ensures old(registry.CaughtUp()) && AllInPlace(manifest, old(registry.primary)) ==>
        error.None? && Untouched(old(registry.primary), old(registry.lastWrite), old(registry.clock))
      ensures error.None? ==> AllPlaced(registry.mode, manifest, registry.primary)
      ensures error.Some? ==>
        StoppedEarly(registry.mode, manifest, old(registry.primary), registry.primary, error.value)
    {
      ghost var start, mode := registry.primary, registry.mode;
      AtStart(mode, manifest, start);
      hide *;
      for i := 0 to |manifest.packages|
        invariant PublishedUpTo(mode, manifest, start, registry.primary, i)
        invariant registry.clock >= old(registry.clock)
        invariant old(registry.lastWrite) <= old(registry.clock) ==> registry.lastWrite <= registry.clock
        invariant old(registry.CaughtUp()) && AllInPlace(manifest, start) ==>
          registry.primary == start && registry.lastWrite == old(registry.lastWrite)
          && registry.clock == old(registry.clock)
      {
        ghost var before := registry.primary;
        NextPackage(mode, manifest, start, before, i);
        error := PublishPackage(manifest.packages[i]);
        if error.Some? {
          Interrupted(mode, manifest, start, before, registry.primary, i, error.value);
          return;
        }
        OneMorePublished(mode, manifest, start, before, registry.primary, i);
      }
      AtEnd(mode, manifest, start, registry.primary);
      return None;
    }

    /** Nothing fails, and the replicas catch up with a write within the replication window. */
    predicate LagsBriefly()
      reads registry
    {
      registry.mode.Lagging? && registry.mode.lag <= REPLICATION_WINDOW && registry.lastWrite <= registry.clock
    }

    /**
     * The whole publication. However the registry lags or fails, it only makes progress; a normal
     * return means everything was read back in place; and unless the release goes out under `latest`
     * itself, the entry package's `latest` does not move before every package has been read back.
     */
    method Publish(preflight: bool) returns (error: Option<PublishError>)
      requires registry.version == manifest.version
      modifies registry
      ensures Progress(manifest, old(registry.primary), registry.primary)
      ensures !preflight ==> error == Some(Preflight) && registry.primary == old(registry.primary)
      ensures error.None? ==>
        AllVisible(manifest, registry.primary) && manifest.version in History(registry.primary, LATEST_KEY)
      ensures error.None? && NeverMovedOff(manifest, old(registry.primary)) ==> Done(manifest, registry.primary)
      ensures manifest.distTag != LATEST_DIST_TAG ==>
        || History(registry.primary, LATEST_KEY) == History(old(registry.primary), LATEST_KEY)
        || AllVisible(manifest, registry.primary)
      ensures registry.Prompt() && preflight && Publishable(manifest, old(registry.primary)) ==> error.None?
      ensures registry.mode.Reliable? && error.None? ==> Done(manifest, registry.primary)
      ensures old(LagsBriefly()) && preflight && Unfinished(manifest, old(registry.primary)) ==>
        && Done(manifest, registry.primary) && Complete(manifest, registry.primary)
        && registry.lastWrite <= registry.clock
        && (error.None? || error == Some(TagPointsElsewhere(RELEASE_ENTRY_PACKAGE, None)))
        && (registry.mode.hides && manifest.packages != [] ==>
              (error.None? <==> registry.mode.lag == 0 || LatestStays(manifest, old(registry.primary))))
      ensures old(registry.CaughtUp() && LagsBriefly()) && preflight && Complete(manifest, old(registry.primary)) ==>
        error.None? && Untouched(old(registry.primary), old(registry.lastWrite), old(registry.clock))
      ensures registry.mode.Stale? && TagsOfPublished(manifest, old(registry.primary)) ==>
        NamedKept(manifest, old(registry.primary), registry.primary)
      ensures registry.mode.Stale? && TagsOfPublished(manifest, old(registry.primary)) && error.None? ==>
        (Done(manifest, registry.primary) <==> NeverMovedOff(manifest, old(registry.primary)))
    {
      ghost var start := registry.primary;
      ProgressReflexive(manifest, start);
      if !preflight {
        return Some(Preflight);
      }
      hide Progress, NeverMovedOff, Done, AllVisible, AllPlaced, AllInPlace, NamedKept, TagsOfPublished, NoConflict,
           ProvidesEntry, Unfinished, Complete, Resumable, ReleasesLatest, LatestStays;
      StartMeans(manifest, start);
      error := PublishAll();
      if error.Some? {
        return;
      }
      ghost var published := registry.primary;
      AfterPackages(registry.mode, manifest, start, published);
      error := VerifyAndTag();
      Concluded(registry.mode, manifest, start, published, registry.primary);
      if Unfinished(manifest, start) && ReadyToTag(manifest, registry.primary) {
        NowComplete(manifest, start, registry.primary);
      }
    }

    /**
     * The last steps of a publication: verify all packages, move the entry package's `latest`, and read it
     * back once.
     */
    method VerifyAndTag() returns (error: Option<PublishError>)
      requires registry.version == manifest.version
      modifies registry
      ensures Progress(manifest, old(registry.primary), registry.primary)
      ensures registry.primary == old(registry.primary) || AllVisible(manifest, registry.primary)
      ensures error.None? ==>
        AllVisible(manifest, registry.primary) && manifest.version in History(registry.primary, LATEST_KEY)
      ensures registry.mode.Reliable? && error.None? ==> Current(registry.primary, LATEST_KEY) == Some(manifest.version)
      ensures registry.mode.Stale? ==> NamedKept(manifest, old(registry.primary), registry.primary)
      ensures registry.Prompt() && AllPlaced(registry.mode, manifest, old(registry.primary)) ==>
        RELEASE_ENTRY_PACKAGE in old(registry.primary).versions ==> error.None?
      ensures old(LagsBriefly()) && ReadyToTag(manifest, old(registry.primary)) ==>
        && Done(manifest, registry.primary) && ReadyToTag(manifest, registry.primary)
        && Current(registry.primary, LATEST_KEY) == Some(manifest.version) && registry.lastWrite <= registry.clock
        && (error.None? || error == Some(TagPointsElsewhere(RELEASE_ENTRY_PACKAGE, None)))
        && (registry.mode.hides && manifest.packages != [] ==>
              (error.None? <==>
                 registry.mode.lag == 0 || Current(old(registry.primary), LATEST_KEY) == Some(manifest.version)))
      ensures old(registry.CaughtUp() && LagsBriefly()) && ReadyToTag(manifest, old(registry.primary))
              && Current(old(registry.primary), LATEST_KEY) == Some(manifest.version) ==>
        error.None? && Untouched(old(registry.primary), old(registry.lastWrite), old(registry.clock))
    {
      ghost var published := registry.primary;
      ProgressReflexive(manifest, published);
      KeptReflexive(manifest, published);
      hide Progress, Done, AllVisible, AllPlaced, AllInPlace, NamedKept, TagsOfPublished;
      error := VerifyRemote();
      if error.Some? {
        return;
      }
      error := EnsureDistTag(RELEASE_ENTRY_PACKAGE, LATEST_DIST_TAG);
      ProgressKeepsVisible(manifest, published, registry.primary);
      if error.Some? {
        return;
      }
      if registry.mode.Lagging? && AllInPlace(manifest, published) {
        InPlaceIsDone(manifest, published, registry.primary);
        if ReadyToTag(manifest, published) {
          StillReady(manifest, published, registry.primary);
        }
      }
      error := VerifyReleaseEntryDistTag();
    }

    /** The stand-alone check changes nothing and passes only on a release that is in place. */
    method Verify(reachable: bool) returns (error: Option<PublishError>)
      requires registry.version == manifest.version
      modifies registry`clock
      ensures error.None? ==>
        reachable && AllVisible(manifest, registry.primary) && manifest.version in History(registry.primary, LATEST_KEY)
      ensures error.None? && NeverMovedOff(manifest, registry.primary) ==> Done(manifest, registry.primary)
    {
      if !reachable {
        return Some(Preflight);
      }
      error := VerifyRemote();
      if error.Some? {
        return;
      }
      error := VerifyReleaseEntryDistTag();
      if error.None? && NeverMovedOff(manifest, registry.primary) {
        VisibleIsDone(manifest, registry.primary);
      }
    }
  }

  /** A release of which nothing is published, or some packages with their tags, as after an interruption. */
  ghost predicate Unfinished(m: Manifest, p: Primary) {
    Resumable(m, p, 0) && ProvidesEntry(m, p)
  }

  /** A release that is in place. */
  ghost predicate Complete(m: Manifest, p: Primary) {
    DifferentNames(m) && AllInPlace(m, p) && RELEASE_ENTRY_PACKAGE in p.versions
    && Current(p, LATEST_KEY) == Some(m.version)
  }

  /** `latest` names the release before its last step: it did before, or a package goes out under it. */
  predicate LatestStays(m: Manifest, p: Primary) {
    ReleasesLatest(m) || Current(p, LATEST_KEY) == Some(m.version)
  }

  lemma {:induction false} NowComplete(m: Manifest, start: Primary, p: Primary)
    requires Unfinished(m, start) && ReadyToTag(m, p)
    ensures Current(p, LATEST_KEY) == Some(m.version) ==> Complete(m, p)
  {
  }

  lemma {:induction false} StillReady(m: Manifest, p: Primary, q: Primary)
    requires ReadyToTag(m, p) && Progress(m, p, q)
    ensures ReadyToTag(m, q)
  {
    hide Progress, InPlace;
    StillPublished(m, p, q, RELEASE_ENTRY_PACKAGE);
    forall i | 0 <= i < |m.packages|
      ensures InPlace(m, q, m.packages[i])
    {
      ProgressKeepsInPlace(m, p, q, m.packages[i]);
    }
  }

  lemma {:induction false} StartMeans(m: Manifest, p: Primary)
    ensures Unfinished(m, p) ==> Resumable(m, p, 0)
    ensures Publishable(m, p) ==> NoConflict(m, p)
    ensures Complete(m, p) ==>
              AllInPlace(m, p) && ReadyToTag(m, p) && Current(p, LATEST_KEY) == Some(m.version)
  {
  }

  /** When all packages are placed, the entry is published, and `latest` is where it stays or must be moved. */
  lemma {:induction false} AfterPackages(mode: Mode, m: Manifest, start: Primary, p: Primary)
    requires Progress(m, start, p) && AllPlaced(mode, m, p)
    requires !ReleasesLatest(m) ==> History(p, LATEST_KEY) == History(start, LATEST_KEY)
    ensures (mode.Reliable? || mode.Stale?) && Publishable(m, start) ==> RELEASE_ENTRY_PACKAGE in p.versions
    ensures Unfinished(m, start) && AllInPlace(m, p) ==>
              && ReadyToTag(m, p)
              && (Current(p, LATEST_KEY) == Some(m.version) <==> LatestStays(m, start))
  {
    if (mode.Reliable? || mode.Stale?) && Publishable(m, start) {
      EntryPublished(mode, m, start, p);
    }
    if Unfinished(m, start) && AllInPlace(m, p) {
      LatestBefore(m, start, p);
    }
  }

  lemma {:induction false} LatestBefore(m: Manifest, start: Primary, p: Primary)
    requires Unfinished(m, start) && Progress(m, start, p) && AllInPlace(m, p)
    requires !ReleasesLatest(m) ==> History(p, LATEST_KEY) == History(start, LATEST_KEY)
    ensures RELEASE_ENTRY_PACKAGE in p.versions
    ensures Current(p, LATEST_KEY) == Some(m.version) <==> LatestStays(m, start)
  {
    hide InPlace, Progress;
    if ReleasesLatest(m) {
      var i :| 0 <= i < |m.packages| && LATEST_KEY == (m.packages[i].name, m.distTag);
      assert InPlace(m, p, m.packages[i]);
      InPlaceMeans(m, p, m.packages[i]);
    }
    if RELEASE_ENTRY_PACKAGE in start.versions {
      StillPublished(m, start, p, RELEASE_ENTRY_PACKAGE);
    } else {
      var i :| 0 <= i < |m.packages| && m.packages[i].name == RELEASE_ENTRY_PACKAGE;
      assert InPlace(m, p, m.packages[i]);
      InPlaceMeans(m, p, m.packages[i]);
    }
  }

  lemma {:induction false} InPlaceMeans(m: Manifest, p: Primary, pkg: PackedPackage)
    requires InPlace(m, p, pkg)
    ensures pkg.name in p.versions && Current(p, (pkg.name, m.distTag)) == Some(m.version)
  {
  }

  lemma {:induction false} StillPublished(m: Manifest, p: Primary, q: Primary, name: string)
    requires Progress(m, p, q) && name in p.versions
    ensures name in q.versions
  {
  }

  lemma {:induction false} InPlaceIsDone(m: Manifest, p: Primary, q: Primary)
    requires AllInPlace(m, p) && Progress(m, p, q) && Current(q, LATEST_KEY) == Some(m.version)
    ensures Done(m, q)
  {
    forall i | 0 <= i < |m.packages|
      ensures Placed(Reliable, m, p, m.packages[i])
    {
      assert InPlace(m, p, m.packages[i]);
    }
    PlacedIsDone(m, p, q);
  }

  /** What a release needs of the registry to go through when nothing lags or fails. */
  ghost predicate Publishable(m: Manifest, p: Primary) {
    NoConflict(m, p) && ProvidesEntry(m, p)
  }

  lemma EntryPublished(mode: Mode, m: Manifest, start: Primary, p: Primary)
    requires Progress(m, start, p) && AllPlaced(mode, m, p) && (mode.Reliable? || mode.Stale?)
    ensures ProvidesEntry(m, start) ==> RELEASE_ENTRY_PACKAGE in p.versions
  {
    if i :| 0 <= i < |m.packages| && m.packages[i].name == RELEASE_ENTRY_PACKAGE {
      assert Placed(mode, m, p, m.packages[i]);
    }
  }

  /** Every package in place, and the entry published: only `latest` is left to be moved. */
  predicate ReadyToTag(m: Manifest, p: Primary) {
    AllInPlace(m, p) && RELEASE_ENTRY_PACKAGE in p.versions
  }

  /** What the state is when the last tag has been set, or would have been. */
  lemma {:induction false} Concluded(mode: Mode, m: Manifest, start: Primary, published: Primary, end: Primary)
    requires Progress(m, start, published) && AllPlaced(mode, m, published) && Progress(m, published, end)
    requires mode.Stale? ==> NamedKept(m, published, end)
    ensures Progress(m, start, end)
    ensures mode.Stale? && NamedKept(m, start, published) ==> NamedKept(m, start, end)
    ensures mode.Reliable? && Current(end, LATEST_KEY) == Some(m.version) ==> Done(m, end)
    ensures AllVisible(m, end) && m.version in History(end, LATEST_KEY) ==>
              && (NeverMovedOff(m, start) ==> Done(m, end))
              && (mode.Stale? && NamedKept(m, start, published) ==> (Done(m, end) <==> NeverMovedOff(m, start)))
  {
    hide Progress, Done, NeverMovedOff, AllVisible, AllPlaced, NamedKept;
    ProgressTransitive(m, start, published, end);
    if mode.Stale? && NamedKept(m, start, published) {
      KeptTransitive(m, start, published, end);
    }
    if AllVisible(m, end) && m.version in History(end, LATEST_KEY) {
      if NeverMovedOff(m, start) {
        ProgressKeepsTags(m, start, end);
        VisibleIsDone(m, end);
      } else if mode.Stale? && NamedKept(m, start, published) {
        MovedOffStays(m, start, end);
      }
    }
    if mode.Reliable? && Current(end, LATEST_KEY) == Some(m.version) {
      PlacedIsDone(m, published, end);
    }
  }

  lemma {:induction false} KeptReflexive(m: Manifest, p: Primary)
    ensures NamedKept(m, p, p)
  {
  }

  lemma {:induction false} KeptTransitive(m: Manifest, p: Primary, q: Primary, r: Primary)
    requires NamedKept(m, p, q) && NamedKept(m, q, r)
    ensures NamedKept(m, p, r)
  {
  }

  /** A tag moved off the release and left alone stays off it. */
  lemma MovedOffStays(m: Manifest, p: Primary, q: Primary)
    requires NamedKept(m, p, q) && !NeverMovedOff(m, p)
    ensures !Done(m, q)
  {
    var key :| OwnTag(m, key) && m.version in History(p, key) && Current(p, key) != Some(m.version);
    assert Current(q, key) == Current(p, key);
  }

  lemma {:induction false} PlacedIsDone(m: Manifest, p: Primary, q: Primary)
    requires AllPlaced(Reliable, m, p) && Progress(m, p, q) && Current(q, LATEST_KEY) == Some(m.version)
    ensures Done(m, q)
  {
    hide Progress;
    forall i | 0 <= i < |m.packages|
      ensures InPlace(m, q, m.packages[i])
    {
      assert Placed(Reliable, m, p, m.packages[i]);
      ProgressKeepsInPlace(m, p, q, m.packages[i]);
    }
  }

  // ---- Publishing again ----

  lemma {:induction false} ProgressKeepsDone(m: Manifest, p: Primary, q: Primary)
    requires Progress(m, p, q) && Done(m, p)
    ensures Done(m, q)
  {
    forall key | OwnTag(m, key)
      ensures Current(q, key) == Some(m.version)
    {
      ProgressKeepsCurrent(m, p, q, key);
    }
  }

  /** Some attempt returned normally. */
  predicate Succeeded(errors: seq<Option<PublishError>>) {
    exists k :: 0 <= k < |errors| && errors[k].None?
  }

  /**
   * Publishing again and again, whatever interrupts or misleads each attempt. From a registry on which
   * no owned tag was ever moved off this release, everything is in place as soon as one attempt has
   * returned normally, and stays so.
   */
  method PublishRepeatedly(publication: RegistryPublication, preflights: seq<bool>)
    returns (errors: seq<Option<PublishError>>)
    requires publication.registry.version == publication.manifest.version
    modifies publication.registry
    ensures |errors| == |preflights|
    ensures Progress(publication.manifest, old(publication.registry.primary), publication.registry.primary)
    ensures NeverMovedOff(publication.manifest, old(publication.registry.primary)) && Succeeded(errors) ==>
      Done(publication.manifest, publication.registry.primary)
  {
    var m, registry := publication.manifest, publication.registry;
    errors := [];
    ProgressReflexive(m, registry.primary);
    for i := 0 to |preflights|
      invariant |errors| == i
      invariant Progress(m, old(registry.primary), registry.primary)
      invariant NeverMovedOff(m, old(registry.primary)) && Succeeded(errors) ==> Done(m, registry.primary)
    {
      ghost var before := registry.primary;
      var error := publication.Publish(preflights[i]);
      AttemptKeepsDone(m, old(registry.primary), before, registry.primary, errors, error);
      errors := errors + [error];
    }
  }

  lemma {:induction false} AttemptKeepsDone(m: Manifest, start: Primary, p: Primary, q: Primary,
                                            errors: seq<Option<PublishError>>, error: Option<PublishError>)
    requires Progress(m, start, p) && Progress(m, p, q)
    requires NeverMovedOff(m, start) && Succeeded(errors) ==> Done(m, p)
    requires error.None? && NeverMovedOff(m, p) ==> Done(m, q)
    ensures Progress(m, start, q)
    ensures NeverMovedOff(m, start) && Succeeded(errors + [error]) ==> Done(m, q)
  {
    hide Progress, NeverMovedOff, Done;
    ProgressTransitive(m, start, p, q);
    if NeverMovedOff(m, start) && Succeeded(errors + [error]) {
      ProgressKeepsTags(m, start, p);
      if error.Some? {
        var k :| 0 <= k < |errors + [error]| && (errors + [error])[k].None?;
        assert errors[k].None?;
        ProgressKeepsDone(m, p, q);
      }
    }
  }

  /**
   * Two histories of attempts from one starting state, each with at least one that returned normally,
   * leave the same versions and the same current tags.
   */
  method PublishTwice(a: RegistryPublication, b: RegistryPublication, first: seq<bool>, second: seq<bool>)
    returns (errorsA: seq<Option<PublishError>>, errorsB: seq<Option<PublishError>>)
    requires a.registry != b.registry && a.manifest == b.manifest && a.registry.primary == b.registry.primary
    requires a.registry.version == b.registry.version == a.manifest.version
    requires NeverMovedOff(a.manifest, a.registry.primary)
    modifies a.registry, b.registry
    ensures Succeeded(errorsA) && Succeeded(errorsB) ==>
      && a.registry.primary.versions == b.registry.primary.versions
      && forall key :: Current(a.registry.primary, key) == Current(b.registry.primary, key)
  {
    ghost var start := a.registry.primary;
    errorsA := PublishRepeatedly(a, first);
    errorsB := PublishRepeatedly(b, second);
    if Succeeded(errorsA) && Succeeded(errorsB) {
      ResumedRunsConverge(a.manifest, start, a.registry.primary, b.registry.primary);
    }
  }

  // ---- Exactly when publications converge ----

  /**
   * Publishing one bundle at two copies of one registry. Where reads are up to date the release ends up in
   * place. Where they are stale the publication returns normally as well, and the release ends up in place,
   * with the same current tags, exactly when no tag of the release had been moved off it.
   */
  method PublishAtBoth(m: Manifest, start: Primary)
    returns (prompt: Primary, stale: Primary, errors: seq<Option<PublishError>>)
    requires Publishable(m, start) && TagsOfPublished(m, start)
    ensures errors == [None, None]
    ensures Progress(m, start, prompt) && Progress(m, start, stale) && NamedKept(m, start, stale)
    ensures Done(m, prompt)
    ensures Done(m, stale) <==> NeverMovedOff(m, start)
    ensures SameTags(prompt, stale) <==> NeverMovedOff(m, start)
  {
    hide Progress, NeverMovedOff, Done, NamedKept, Publishable, TagsOfPublished;
    var a := new Registry(m.version, Reliable, start);
    var b := new Registry(m.version, Stale, start);
    var first := new RegistryPublication(m, a);
    var second := new RegistryPublication(m, b);
    var error := first.Publish(true);
    var error' := second.Publish(true);
    prompt, stale, errors := a.primary, b.primary, [error, error'];
    SameTagsExactly(m, start, prompt, stale);
  }

  ghost predicate SameTags(p: Primary, q: Primary) {
    forall key :: Current(p, key) == Current(q, key)
  }

  lemma {:induction false} SameTagsExactly(m: Manifest, start: Primary, p: Primary, q: Primary)
    requires Progress(m, start, p) && Done(m, p) && Progress(m, start, q) && NamedKept(m, start, q)
    requires NeverMovedOff(m, start) ==> Done(m, q)
    ensures SameTags(p, q) <==> NeverMovedOff(m, start)
  {
    if NeverMovedOff(m, start) {
      ResumedRunsConverge(m, start, p, q);
    } else {
      var key :| OwnTag(m, key) && m.version in History(start, key) && Current(start, key) != Some(m.version);
      assert Current(q, key) == Current(start, key);
    }
  }

  /**
   * Publishing to a registry whose replicas show nothing until they have caught up. All packages are polled
   * until they are read back, but `latest` is read back once, right after it was moved: so the first
   * publication leaves everything in place and returns normally exactly when `latest` did not have to be
   * moved. Another one, once the replicas have caught up, finds nothing left to do.
   */
  method PublishThroughLag(m: Manifest, start: Primary, lag: nat)
    returns (end: Primary, errors: seq<Option<PublishError>>)
    requires 0 < lag <= REPLICATION_WINDOW && Unfinished(m, start) && m.packages != []
    ensures |errors| == 2 && errors[1].None? && Done(m, end)
    ensures errors[0] == if LatestStays(m, start) then None
                         else Some(TagPointsElsewhere(RELEASE_ENTRY_PACKAGE, None))
  {
    hide Done, Complete, Unfinished, LatestStays;
    var registry := new Registry(m.version, Lagging(lag, true), start);
    var publication := new RegistryPublication(m, registry);
    var error := publication.Publish(true);
    registry.Sleep(lag);
    var error' := publication.Publish(true);
    end, errors := registry.primary, [error, error'];
  }

  // A dev release whose tag was set to it and then moved to another version.
  const DEV_KEY: TagKey := (RELEASE_ENTRY_PACKAGE, "dev")
  const MOVED_MANIFEST := Manifest("v", "dev", [PackedPackage(RELEASE_ENTRY_PACKAGE, "sha512-p")])
  const MOVED_OFF := Primary(map[RELEASE_ENTRY_PACKAGE := "sha512-p"], map[DEV_KEY := ["v", "w"], LATEST_KEY := ["v"]])

  /**
   * Once a tag has been moved off the release, stale reads are enough for a publication that returns
   * normally and leaves it there.
   */
  method MovedOffTagStays() returns (prompt: Primary, stale: Primary, errors: seq<Option<PublishError>>)
    ensures errors == [None, None]
    ensures Current(prompt, DEV_KEY) == Some("v") && Current(stale, DEV_KEY) == Some("w")
    ensures Done(MOVED_MANIFEST, prompt) && !Done(MOVED_MANIFEST, stale)
  {
    var m, p := MOVED_MANIFEST, MOVED_OFF;
    assert DEV_KEY.1[0] != LATEST_KEY.1[0];
    assert History(p, DEV_KEY) == ["v", "w"] && History(p, DEV_KEY)[0] == "v";
    OwnTagOf(m, m.packages[0]);
    prompt, stale, errors := PublishAtBoth(m, p);
  }
}
