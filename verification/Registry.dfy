/**
 * A package registry as the publisher sees it: an authoritative primary, read replicas that lag it,
 * and commands that can fail before or after their write lands.
 */
module Registry {
  import opened Outcomes

  /** The distribution tags of one package, each with every value it has held, current value last. */
  type TagKey = (string, string)

  /**
   * The primary's contents for one release version: the integrity of each published name, which can
   * never change, and the history of every tag.
   */
  datatype Primary = Primary(versions: map<string, string>, tags: map<TagKey, seq<string>>)

  /** A read through a replica: the value, or nothing yet, or a failed command. */
  datatype Read = Seen(value: string) | Absent | Failed

  datatype PublishReply = Published | AlreadyThere | Rejected

  function History(p: Primary, key: TagKey): seq<string> {
    if key in p.tags then p.tags[key] else []
  }

  function Current(p: Primary, key: TagKey): Option<string> {
    var h := History(p, key);
    if h == [] then None else Some(h[|h| - 1])
  }

  function SetTag(p: Primary, key: TagKey, version: string): Primary {
    p.(tags := p.tags[key := History(p, key) + [version]])
  }

  lemma SetTagChanges(p: Primary, key: TagKey, version: string)
    ensures SetTag(p, key, version) != p
  {
    assert History(SetTag(p, key, version), key) == History(p, key) + [version];
  }

  /** The first publication of a name stores its integrity and points its tag at the release. */
  function AddVersion(p: Primary, name: string, integrity: string, tag: string, version: string): Primary {
    SetTag(p.(versions := p.versions[name := integrity]), (name, tag), version)
  }

  /**
   * How a registry answers. A reliable one has no lag and no failures. A stale one has no failures, and
   * its replicas list a tag at the release as long as it has ever been there. A lagging one has no failures
   * either: its replicas have caught up a while after the last write, and until then a read may show
   * nothing, and always does if the lag hides everything. Any other is erratic: each of its reads and
   * commands may do what a lagging or failing registry can do.
   */
  datatype Mode = Reliable | Stale | Lagging(lag: nat, hides: bool) | Erratic

  /** The registry behind the npm client. */
  class Registry {
    const version: string
    const mode: Mode
    var primary: Primary
    var clock: nat
    var lastWrite: nat

    constructor (version: string, mode: Mode, primary: Primary)
      ensures this.version == version && this.mode == mode && this.primary == primary
      ensures clock == lastWrite == 0
    {
      this.version, this.mode, this.primary, this.clock, this.lastWrite := version, mode, primary, 0, 0;
    }

    /** No lag and no failures, or stale reads alone. */
    predicate Prompt() {
      mode.Reliable? || mode.Stale?
    }

    /** The replicas of a lagging registry have caught up with its last write. */
    predicate CaughtUp()
      reads this
    {
      mode.Lagging? && lastWrite + mode.lag <= clock
    }

    /** What a read shows that shows what the primary holds. */
    function Stored(name: string): Read
      reads this
    {
      if name in primary.versions then Seen(primary.versions[name]) else Absent
    }

    /** `npm view`: nothing, or the one integrity the primary holds. */
    method ViewIntegrity(name: string) returns (r: Read)
      modifies this`clock
      ensures clock >= old(clock)
      ensures r.Seen? ==> name in primary.versions && r.value == primary.versions[name]
      ensures Prompt() || old(CaughtUp()) ==> r == Stored(name)
      ensures mode.Lagging? ==> clock == old(clock) && (r == Stored(name) || r == Absent)
      ensures mode.Lagging? && mode.hides && !old(CaughtUp()) ==> r == Absent
    {
      var delay: nat, visible: bool, failed: bool := *, *, *;
      if mode.Lagging? {
        return if CaughtUp() || (visible && !mode.hides) then Stored(name) else Absent;
      }
      clock := clock + delay;
      if Prompt() {
        r := Stored(name);
      } else if failed {
        r := Failed;
      } else if visible {
        r := Stored(name);
      } else {
        r := Absent;
      }
    }

    /** What a registry that is not erratic lists for a tag with this history. */
    function Listed(history: seq<string>): Read {
      if history == [] then Absent
      else if mode.Stale? && version in history then Seen(version)
      else Seen(history[|history| - 1])
    }

    /** `npm dist-tag ls`: nothing, or any value the tag has held so far. */
    method ViewTag(name: string, tag: string) returns (r: Read)
      modifies this`clock
      ensures clock >= old(clock)
      ensures r.Seen? ==> r.value in History(primary, (name, tag))
      ensures Prompt() || old(CaughtUp()) ==> r == Listed(History(primary, (name, tag)))
      ensures mode.Lagging? ==> clock == old(clock) && (r == Listed(History(primary, (name, tag))) || r == Absent)
      ensures mode.Lagging? && mode.hides && !old(CaughtUp()) ==> r == Absent
    {
      var delay: nat, visible: bool, failed: bool, back: nat := *, *, *, *;
      var h := History(primary, (name, tag));
      if mode.Lagging? {
        return if CaughtUp() || (visible && !mode.hides) then Listed(h) else Absent;
      }
      clock := clock + delay;
      if Prompt() {
        r := Listed(h);
      } else if failed {
        r := Failed;
      } else if visible && back < |h| {
        r := Seen(h[back]);
      } else {
        r := Absent;
      }
    }

    /** `npm publish --tag`: at most one publication of a name ever succeeds. */
    method Publish(name: string, integrity: string, tag: string) returns (reply: PublishReply)
      modifies this
      ensures clock >= old(clock)
      ensures primary == old(primary) ||
        (name !in old(primary).versions && primary == AddVersion(old(primary), name, integrity, tag, version))
      ensures reply.Published? ==> name !in old(primary).versions && primary != old(primary)
      ensures reply.AlreadyThere? ==> name in old(primary).versions && primary == old(primary)
      ensures !mode.Erratic? ==> !reply.Rejected?
      ensures lastWrite == if primary == old(primary) then old(lastWrite) else clock
    {
      var delay: nat, lands: bool, answered: bool := *, *, *;
      clock := clock + delay;
      if name in primary.versions {
        return if answered || !mode.Erratic? then AlreadyThere else Rejected;
      }
      if lands || !mode.Erratic? {
        primary, lastWrite := AddVersion(primary, name, integrity, tag, version), clock;
        assert name in primary.versions;
        return if answered || !mode.Erratic? then Published else Rejected;
      }
      return Rejected;
    }

    /** `npm dist-tag add`: possible only for a published name. */
    method AddTag(name: string, tag: string) returns (ok: bool)
      modifies this
      ensures clock >= old(clock)
      ensures primary == old(primary) ||
        (name in old(primary).versions && primary == SetTag(old(primary), (name, tag), version))
      ensures ok ==> name in old(primary).versions && primary == SetTag(old(primary), (name, tag), version)
      ensures !mode.Erratic? && name in old(primary).versions ==> ok
      ensures lastWrite == if primary == old(primary) then old(lastWrite) else clock
    {
      var delay: nat, lands: bool, answered: bool := *, *, *;
      clock := clock + delay;
      if name in primary.versions && (lands || !mode.Erratic?) {
        SetTagChanges(primary, (name, tag), version);
        primary, lastWrite := SetTag(primary, (name, tag), version), clock;
        return answered || !mode.Erratic?;
      }
      return false;
    }

    method Sleep(milliseconds: nat)
      modifies this`clock
      ensures clock == old(clock) + milliseconds
    {
      clock := clock + milliseconds;
    }
  }
}
