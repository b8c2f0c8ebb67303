/**
 Publishing a supervisor installation: a release directory, the environment and unit files and
 the `current` link, written in that order, with a snapshot to roll back to. Any file-system
 operation may fail, and a crash is a run in which everything fails from some point on.
 */
module Publication {
  import opened Prelude
  import opened Sorting
  import opened Strings
  import opened HashLayout
  import EnvironmentFile

  const READ_LIMIT := 128 * 1024

  /** `Text` is a regular file of UTF-8 text, `safe` when its owner, link count and mode 0600 are
      right; `Unreadable` is what a rename replaces although it is no text, and `Fixed` a symlink or
      a directory, which is refused or cannot be replaced by a file. */
  datatype FileNode = NoFile | Text(content: string, safe: bool) | Unreadable | Fixed

  /** A link target with the two components "releases/<name>", or any other path. */
  datatype Target = ReleaseTarget(name: string) | Elsewhere(path: string)

  datatype LinkNode = NoLink | Link(target: Target, owned: bool) | NotALink

  /** A directory under `releases`: the objects at "bin/devhatch-server" and "web/dist", whether
      its own owner and mode are safe, and whether the executable's owner, link count and mode are. */
  datatype Release = Release(binary: Node, web: Node, safe: bool, runnable: bool)

  /** Names that a file system hands out, lengths that fit 64 bits. */
  ghost predicate Storable(r: Release) {
    WellFormed(BINARY_LABEL, r.binary) && WellFormed(WEB_LABEL, r.web)
  }

  /** A release entry that is not a directory is `None`. */
  type Releases = map<string, Option<Release>>

  datatype Snapshot = Snapshot(unit: Option<string>, environment: Option<string>, current: Option<Target>)

  datatype CurrentInstall = Missing | Managed(target: Target) | ManagedInvalid(target: Target) | Foreign

  const UNIT_DESCRIPTION := "DevHatch user supervisor" + " managed installation"
  const UNIT_MARKER := "X-DevHatch-Managed=1"

  /** managed_unit_content. */
  predicate ManagedUnit(content: string) {
    && EnvironmentFile.Starting("Description=", EnvironmentFile.Lines(content)) == ["Description=" + UNIT_DESCRIPTION]
    && EnvironmentFile.Starting("X-DevHatch-Managed=", EnvironmentFile.Lines(content)) == [UNIT_MARKER]
  }

  /** read_small_regular_file accepts the file. */
  predicate Readable(node: FileNode) {
    node.Text? && node.safe && Utf8Size(node.content) <= READ_LIMIT
  }

  predicate AcceptedUnit(node: FileNode) {
    Readable(node) && ManagedUnit(node.content)
  }

  predicate AcceptedEnvironment(node: FileNode) {
    Readable(node) && EnvironmentFile.ManagedContent(node.content)
  }

  predicate ForeignUnit(node: FileNode) {
    node != NoFile && !AcceptedUnit(node)
  }

  predicate ForeignEnvironment(node: FileNode) {
    node != NoFile && !AcceptedEnvironment(node)
  }

  predicate HexName(name: string) {
    |name| == 64 && forall c :: c in name ==> '0' <= c <= '9' || 'a' <= c <= 'f' || 'A' <= c <= 'F'
  }

  /** SHA-256 and its hexadecimal form. */
  type Digest = Bytes -> string

  function InspectCurrent(current: LinkNode, releases: Releases): CurrentInstall {
    match current
    case NoLink => Missing
    case NotALink => Foreign
    case Link(target, owned) =>
      if !owned || target.Elsewhere? then Foreign
      else if HexName(target.name) && target.name in releases && releases[target.name].Some? then Managed(target)
      else ManagedInvalid(target)
  }

  /** "index.html". */
  const INDEX_PAGE: Bytes := [0x69, 0x6E, 0x64, 0x65, 0x78, 0x2E, 0x68, 0x74, 0x6D, 0x6C]

  predicate HasIndex(web: Node) {
    web.Directory? && INDEX_PAGE in web.entries && web.entries[INDEX_PAGE].File?
  }

  ghost predicate Hashes(r: Release, digest: Digest, expected: string) {
    Storable(r) && Hashable(r.binary, r.web) && digest(LayoutStream(r.binary, r.web)) == expected
  }

  /** What validate_release accepts. */
  ghost predicate ValidRelease(r: Release, digest: Digest, expected: string) {
    r.safe && r.binary.File? && r.runnable && HasIndex(r.web) && Hashes(r, digest, expected)
  }

  /** Everything but the index page. */
  ghost predicate GoodRelease(r: Option<Release>, digest: Digest, expected: string) {
    r.Some? && r.value.safe && r.value.runnable && Hashes(r.value, digest, expected)
  }

  ghost predicate ValidEntry(releases: Releases, digest: Digest, expected: string) {
    expected in releases && releases[expected].Some? && ValidRelease(releases[expected].value, digest, expected)
  }

  ghost predicate GoodEntry(releases: Releases, digest: Digest, expected: string) {
    expected in releases && GoodRelease(releases[expected], digest, expected)
  }

  /** What copying yields is created with safe modes, the executable with mode 0700. */
  ghost predicate Copy(r: Release) {
    r.safe && r.runnable && Storable(r)
  }

  ghost predicate EntryStorable(releases: Releases, name: string) {
    name in releases && releases[name].Some? ==> Storable(releases[name].value)
  }

  /** What another process puts under the release's name while this one copies, if it does: a
      directory that is not empty, or (`None`) something that is no directory. */
  type Raced = Option<Option<Release>>

  ghost predicate RacedStorable(raced: Raced) {
    raced.Some? && raced.value.Some? ==> Storable(raced.value.value)
  }

  ghost predicate RacedValid(raced: Raced, digest: Digest, expected: string) {
    raced.Some? && raced.value.Some? && ValidRelease(raced.value.value, digest, expected)
  }

  /** What publication needs of an existing entry, of the copy, and of an entry that turns up only
      when the copy is to be renamed. */
  ghost predicate CanPublish(releases: Releases, digest: Digest, expected: string, copied: Release, raced: Raced) {
    && (expected in releases ==> releases[expected].Some? && releases[expected].value.safe)
    && (ValidEntry(releases, digest, expected)
        || (Hashes(copied, digest, expected)
            && (expected !in releases && raced.Some? ==> RacedValid(raced, digest, expected))))
  }

  /** What following `current` leads to. */
  function Resolved(current: LinkNode, releases: Releases): Option<Release> {
    if current.Link? && current.target.ReleaseTarget? && current.target.name in releases
    then releases[current.target.name] else None
  }

  /** hash_layout, of an installed release or of a copy. */
  method HashOf(r: Release, digest: Digest) returns (hash: Option<string>)
    requires Storable(r)
    ensures forall expected :: hash == Some(expected) <==> Hashes(r, digest, expected)
  {
    var stream := HashLayoutOf(r.binary, r.web);
    return if stream.Ok? then Some(digest(stream.value)) else None;
  }

  /** validate_release. */
  method ValidateRelease(r: Release, digest: Digest, expected: string) returns (ok: bool)
    requires Storable(r)
    ensures ok <==> ValidRelease(r, digest, expected)
  {
    hide Hashes;
    if !r.safe { return false; }
    if !r.binary.File? || !r.runnable { return false; }
    if !HasIndex(r.web) { return false; }
    var hash := HashOf(r, digest);
    return hash == Some(expected);
  }

  class Disk {
    var unit: FileNode
    var environment: FileNode
    var current: LinkNode
    var releases: Releases
    /** Counts attempted operations; operation n fails when faults(n). */
    var clock: nat
    const faults: nat -> bool
    /** Everything that `current` has led to after some operation. */
    ghost var seen: set<Option<Release>>

    constructor (unit: FileNode, environment: FileNode, current: LinkNode, releases: Releases, faults: nat -> bool)
      ensures this.unit == unit && this.environment == environment && this.current == current
      ensures this.releases == releases && this.faults == faults && seen == {}
    {
      this.unit, this.environment, this.current, this.releases := unit, environment, current, releases;
      this.faults, this.clock, this.seen := faults, 0, {};
    }

    /** No operation from number n on fails. */
    ghost predicate NoMoreFaults(n: nat)
    {
      forall m :: m >= n ==> !faults(m)
    }

    /** None of the next n operations from number `first` on fails. */
    ghost predicate Quiet(first: nat, n: nat)
    {
      forall m :: first <= m < first + n ==> !faults(m)
    }

    function Leads(): Option<Release>
      reads this
    {
      Resolved(current, releases)
    }

    /** One operation with no lasting effect on the modelled files; it may fail. */
    method Attempt() returns (ok: bool)
      modifies this`clock, this`seen
      ensures seen == old(seen) + {Leads()} && clock == old(clock) + 1
      ensures ok <==> !faults(old(clock))
    {
      ok := !faults(clock);
      clock := clock + 1;
      seen := seen + {Leads()};
    }

    /** atomic_write_file onto the environment file: temporary file, rename, directory sync. */
    method WriteEnvironment(content: string) returns (ok: bool)
      modifies this`environment, this`clock, this`seen
      ensures ok <==> !old(environment).Fixed? && Quiet(old(clock), 3)
      ensures environment ==
              if !old(environment).Fixed? && Quiet(old(clock), 2) then Text(content, true) else old(environment)
      ensures seen <= old(seen) + {Leads()} && clock >= old(clock) && (ok ==> clock == old(clock) + 3)
    {
      if environment.Fixed? { return false; }
      ok := Attempt();
      if !ok { return; }
      ok := Attempt();
      if !ok { return; }
      environment := Text(content, true);
      ok := Attempt();
    }

    /** atomic_write_file onto the unit file. */
    method WriteUnit(content: string) returns (ok: bool)
      modifies this`unit, this`clock, this`seen
      ensures ok <==> !old(unit).Fixed? && Quiet(old(clock), 3)
      ensures unit == if !old(unit).Fixed? && Quiet(old(clock), 2) then Text(content, true) else old(unit)
      ensures seen <= old(seen) + {Leads()} && clock >= old(clock) && (ok ==> clock == old(clock) + 3)
    {
      if unit.Fixed? { return false; }
      ok := Attempt();
      if !ok { return; }
      ok := Attempt();
      if !ok { return; }
      unit := Text(content, true);
      ok := Attempt();
    }

    /** atomic_symlink: a temporary link renamed over `current`. */
    method PointCurrent(target: Target) returns (ok: bool)
      modifies this`current, this`clock, this`seen
      ensures ok <==> !old(current).NotALink? && Quiet(old(clock), 3)
      ensures current ==
              if !old(current).NotALink? && Quiet(old(clock), 2) then Link(target, true) else old(current)
      ensures seen <= old(seen) + {old(Leads()), Resolved(Link(target, true), releases)}
      ensures clock >= old(clock) && (ok ==> clock == old(clock) + 3)
    {
      if current.NotALink? { return false; }
      ok := Attempt();
      if !ok { return; }
      ok := Attempt();
      if !ok { return; }
      current := Link(target, true);
      ok := Attempt();
    }

    /** Removing a staging directory; failures are ignored by the caller. */
    method RemoveStaging(staging: string) returns (ok: bool)
      requires staging in releases && current != Link(ReleaseTarget(staging), true)
      requires current != Link(ReleaseTarget(staging), false)
      modifies this`releases, this`clock, this`seen
      ensures ok <==> !faults(old(clock))
      ensures releases == if ok then old(releases) - {staging} else old(releases)
      ensures seen <= old(seen) + {old(Leads())} && Leads() == old(Leads()) && clock == old(clock) + 1
    {
      ok := Attempt();
      if ok { releases := releases - {staging}; }
    }

    /** publish_release. `staging` is the fresh temporary name; `copied` is what copying the
        sources yields, which need not be what was hashed before; staging creates it with safe modes. */
    method PublishRelease(digest: Digest, expected: string, staging: string, copied: Release,
                          raced: Raced) returns (ok: bool)
      requires staging !in releases && staging != expected && Copy(copied) && EntryStorable(releases, expected)
      requires RacedStorable(raced)
      requires current != Link(ReleaseTarget(staging), true) && current != Link(ReleaseTarget(staging), false)
      modifies this`releases, this`clock, this`seen
      ensures ok ==> GoodEntry(releases, digest, expected)
                     && (Get(releases, expected) == Some(Some(copied)) || ValidEntry(releases, digest, expected))
      ensures ok && raced.None? ==>
                Get(releases, expected) == Some(Some(copied)) || ValidEntry(old(releases), digest, expected)
      ensures ok <==> CanPublish(old(releases), digest, expected, copied, raced)
                      && Quiet(old(clock), Essential(old(releases), digest, expected))
      ensures ok ==> clock == old(clock) + Spent(old(releases), digest, expected, raced)
      ensures forall name :: name != expected && name != staging ==> Get(releases, name) == Get(old(releases), name)
      ensures Get(releases, expected) in {Get(old(releases), expected), raced} || GoodEntry(releases, digest, expected)
      ensures AllGood(old(seen), seen + {Leads()}, old(Leads()), digest, expected, raced) && clock >= old(clock)
    {
      hide Hashes, Storable;
      var replace := false;
      if expected in releases {
        if releases[expected].None? || !releases[expected].value.safe { return false; }
        var valid := ValidateRelease(releases[expected].value, digest, expected);
        if valid { return true; }
        replace := true;
      }
      ok := Stage(digest, expected, staging, copied, replace, raced);
    }

    /** The staging directory is created, filled and moved, and what is left of it removed. */
    method Stage(digest: Digest, expected: string, staging: string, copied: Release, replace: bool,
                 raced: Raced) returns (ok: bool)
      requires staging !in releases && staging != expected && (replace <==> expected in releases) && Copy(copied)
      requires RacedStorable(raced)
      requires current != Link(ReleaseTarget(staging), true) && current != Link(ReleaseTarget(staging), false)
      modifies this`releases, this`clock, this`seen
      ensures Staged(old(releases), releases, digest, expected, staging, copied, raced, ok)
      ensures ok <==> CanMove(digest, expected, copied, replace, raced) && Quiet(old(clock), if replace then 6 else 5)
      ensures ok ==> clock == old(clock) + if replace || raced.Some? then 6 else 5
      ensures AllGood(old(seen), seen + {Leads()}, old(Leads()), digest, expected, raced) && clock >= old(clock)
    {
      hide Hashes, Storable, HexName, ValidRelease, Copy, RacedStorable, Staged, CanMove, GoodRelease;
      ok := Attempt();
      StagedNothing(releases, None, digest, expected, staging, copied, raced);
      if !ok { return; }
      ghost var before := releases;
      releases := releases[staging := Some(Release(Special, Special, true, false))];
      ok := StageAndMove(digest, expected, staging, copied, replace, raced);
      StagedFrom(before, releases, digest, expected, staging, copied, raced, ok);
      if staging in releases {
        StagedWithout(before, releases, digest, expected, staging, copied, raced, ok);
        var _ := RemoveStaging(staging);
      }
    }

    /** The fallible middle of publish_release, between creating the staging directory and
        removing it. */
    method StageAndMove(digest: Digest, expected: string, staging: string, copied: Release,
                        replace: bool, raced: Raced) returns (ok: bool)
      requires staging in releases && staging != expected && (replace <==> expected in releases) && Copy(copied)
      requires RacedStorable(raced)
      requires current != Link(ReleaseTarget(staging), true) && current != Link(ReleaseTarget(staging), false)
      modifies this`releases, this`clock, this`seen
      ensures Staged(old(releases), releases, digest, expected, staging, copied, raced, ok)
      ensures ok <==> CanMove(digest, expected, copied, replace, raced) && Quiet(old(clock), if replace then 5 else 4)
      ensures ok ==> clock == old(clock) + (if replace then 5 else 4)
                     && (staging in releases <==> !replace && raced.Some?)
      ensures AllGood(old(seen), seen + {Leads()}, old(Leads()), digest, expected, raced) && clock >= old(clock)
    {
      hide Hashes, Storable, HexName, HasIndex, Staged, ValidRelease, RacedStorable, RacedValid;
      ghost var before := releases;
      StagedNothing(before, Some(Some(copied)), digest, expected, staging, copied, raced);
      releases := releases[staging := Some(copied)];
      ok := CheckCopy(digest, expected, copied);
      if !ok { return; }
      ok := Move(digest, expected, staging, copied, replace, raced);
      StagedMoved(before, releases, digest, expected, staging, copied, replace, raced, ok);
    }

    /** Copying, hashing what was copied, and syncing it. */
    method CheckCopy(digest: Digest, expected: string, copied: Release) returns (ok: bool)
      requires Storable(copied)
      modifies this`clock, this`seen
      ensures ok <==> Hashes(copied, digest, expected) && Quiet(old(clock), 3)
      ensures seen <= old(seen) + {Leads()} && clock >= old(clock) && (ok ==> clock == old(clock) + 3)
    {
      hide Hashes, Storable;
      ok := Attempt();
      if !ok { return; }
      var hash := HashOf(copied, digest);
      if hash != Some(expected) { return false; }
      ok := Attempt();
      if !ok { return; }
      ok := Attempt();
    }

    /** The copy is exchanged or renamed into place, unless another process was faster. */
    method Move(digest: Digest, expected: string, staging: string, copied: Release, replace: bool,
                raced: Raced) returns (ok: bool)
      requires staging in releases && releases[staging] == Some(copied) && staging != expected
      requires (replace <==> expected in releases) && RacedStorable(raced)
      requires current != Link(ReleaseTarget(staging), true) && current != Link(ReleaseTarget(staging), false)
      modifies this`releases, this`clock, this`seen
      ensures var refused := !replace && raced.Some?;
              && Get(releases, expected) == (if refused then raced else Some(Some(copied)))
              && (ok <==> Quiet(old(clock), if replace then 2 else 1)
                          && (refused ==> RacedValid(raced, digest, expected)))
              && (ok ==> clock == old(clock) + (if replace then 2 else 1) && (staging in releases <==> refused))
              && Leads() in {old(Leads()), if refused then raced.value else Some(copied)}
              && seen <= old(seen) + {old(Leads()), if refused then raced.value else Some(copied)}
      ensures forall name :: name != expected && name != staging ==> Get(releases, name) == Get(old(releases), name)
      ensures clock >= old(clock)
    {
      hide RacedValid, RacedStorable, Resolved;
      if !replace && raced.Some? {
        ok := RenameRefused(digest, expected, raced);
      } else {
        ok := Swap(expected, staging, copied, replace);
      }
    }

    /** exchange_paths and removal of what was replaced, or a plain rename. */
    method Swap(expected: string, staging: string, copied: Release, replace: bool) returns (ok: bool)
      requires staging in releases && staging != expected && (replace <==> expected in releases)
      requires releases[staging] == Some(copied)
      requires current != Link(ReleaseTarget(staging), true) && current != Link(ReleaseTarget(staging), false)
      modifies this`releases, this`clock, this`seen
      ensures Get(releases, expected) == Some(Some(copied))
      ensures forall name :: name != expected && name != staging ==> Get(releases, name) == Get(old(releases), name)
      ensures Leads() == old(Leads()) || Leads() == Some(copied)
      ensures seen <= old(seen) + {old(Leads()), Some(copied)} && clock >= old(clock)
      ensures ok <==> Quiet(old(clock), if replace then 2 else 1)
      ensures ok ==> staging !in releases && clock == old(clock) + if replace then 2 else 1
    {
      if replace {
        releases := releases[staging := releases[expected]][expected := Some(copied)];
        ok := Attempt();
        if !ok { return; }
        ok := RemoveStaging(staging);
      } else {
        releases := (releases - {staging})[expected := Some(copied)];
        ok := Attempt();
      }
    }

    /** The rename finds an entry of another process in its way: that entry has to be valid. */
    method RenameRefused(digest: Digest, expected: string, raced: Raced) returns (ok: bool)
      requires expected !in releases && raced.Some? && RacedStorable(raced)
      modifies this`releases, this`clock, this`seen
      ensures releases == old(releases)[expected := raced.value]
      ensures ok <==> !faults(old(clock)) && RacedValid(raced, digest, expected)
      ensures Leads() == old(Leads()) || Leads() == raced.value
      ensures seen <= old(seen) + {old(Leads()), raced.value} && clock == old(clock) + 1
    {
      releases := releases[expected := raced.value];
      ok := Attempt();
      if !ok || raced.value.None? { return false; }
      ok := ValidateRelease(raced.value.value, digest, expected);
    }

    /** The end of publish_install, once the release is in place. */
    method PublishFiles(expected: string, newEnvironment: string, newUnit: string) returns (ok: bool)
      modifies this`unit, this`environment, this`current, this`clock, this`seen
      ensures unit == old(unit) || unit == Text(newUnit, true)
      ensures environment == old(environment) || environment == Text(newEnvironment, true)
      ensures current == old(current) || current == Link(ReleaseTarget(expected), true)
      ensures unit != old(unit) ==> environment == Text(newEnvironment, true)
      ensures current != old(current) ==> unit == Text(newUnit, true) && environment == Text(newEnvironment, true)
      ensures ok ==> unit == Text(newUnit, true) && environment == Text(newEnvironment, true)
                     && current == Link(ReleaseTarget(expected), true)
      ensures ok <==> Writable(old(unit), old(environment), old(current)) && Quiet(old(clock), 11)
      ensures Writable(old(unit), old(environment), old(current)) ==>
                && (environment == Text(newEnvironment, true) <==>
                    old(environment) == Text(newEnvironment, true) || Quiet(old(clock), 3))
                && (unit == Text(newUnit, true) <==> old(unit) == Text(newUnit, true) || Quiet(old(clock), 7))
                && (current == Link(ReleaseTarget(expected), true) <==>
                    old(current) == Link(ReleaseTarget(expected), true) || Quiet(old(clock), 10))
      ensures seen <= old(seen) + {old(Leads()), Resolved(Link(ReleaseTarget(expected), true), releases)}
      ensures clock >= old(clock)
    {
      ok := Attempt();
      if !ok { return; }
      ok := WriteEnvironment(newEnvironment);
      if !ok { return; }
      ok := Attempt();
      if !ok { return; }
      ok := WriteUnit(newUnit);
      if !ok { return; }
      ok := PointCurrent(ReleaseTarget(expected));
    }

    /** publish_install: release, environment, unit, link, in that order. */
    method PublishInstall(digest: Digest, expected: string, newEnvironment: string, newUnit: string, staging: string,
                          copied: Release, raced: Raced)
      returns (ok: bool)
      requires staging !in releases && staging != expected && Copy(copied) && EntryStorable(releases, expected)
      requires RacedStorable(raced)
      requires current != Link(ReleaseTarget(staging), true) && current != Link(ReleaseTarget(staging), false)
      modifies this
      ensures unit == old(unit) || unit == Text(newUnit, true)
      ensures environment == old(environment) || environment == Text(newEnvironment, true)
      ensures current == old(current) || current == Link(ReleaseTarget(expected), true)
      ensures unit != old(unit) ==> environment == Text(newEnvironment, true)
      ensures current != old(current) ==> unit == Text(newUnit, true) && environment == Text(newEnvironment, true)
      ensures ok ==> unit == Text(newUnit, true) && environment == Text(newEnvironment, true)
                     && current == Link(ReleaseTarget(expected), true) && GoodRelease(Leads(), digest, expected)
                     && (raced.None? ==> Leads() == Some(copied) || ValidEntry(old(releases), digest, expected))
      ensures ok <==>
              && Restorable(old(unit), old(environment), old(current))
              && CanPublish(old(releases), digest, expected, copied, raced)
              && Quiet(old(clock), 1 + Essential(old(releases), digest, expected))
              && Quiet(old(clock) + 1 + Spent(old(releases), digest, expected, raced), 11)
      ensures !Restorable(old(unit), old(environment), old(current)) ==>
                !ok && unit == old(unit) && environment == old(environment) && current == old(current)
                && releases == old(releases)
      ensures AllGood(old(seen), seen + {Leads()}, old(Leads()), digest, expected, raced) && clock >= old(clock)
    {
      hide Hashes, Copy, ValidRelease, GoodRelease, EntryStorable, CanPublish, ValidEntry, HexName;
      hide AcceptedUnit, AcceptedEnvironment, Storable, RacedStorable;
      Replaceable(unit, environment);
      if InspectCurrent(current, releases) == Foreign || ForeignUnit(unit)
         || ForeignEnvironment(environment) { return false; }
      ok := Attempt();
      if !ok { return; }
      ok := PublishRelease(digest, expected, staging, copied, raced);
      if !ok { return; }
      ok := PublishFiles(expected, newEnvironment, newUnit);
    }

    /** restore_optional_file on the environment file. */
    method RestoreEnvironment(value: Option<string>) returns (ok: bool)
      modifies this`environment, this`clock, this`seen
      ensures ok <==> !ForeignEnvironment(old(environment))
                      && Quiet(old(clock), RestoreSteps(old(environment) != NoFile, value.Some?))
      ensures ok ==> environment == FileOf(value)
                     && clock == old(clock) + RestoreSteps(old(environment) != NoFile, value.Some?)
      ensures environment == old(environment) || environment == FileOf(value)
      ensures ForeignEnvironment(old(environment)) ==> !ok && environment == old(environment)
      ensures clock >= old(clock)
    {
      if ForeignEnvironment(environment) { return false; }
      match value
      case Some(content) => ok := WriteEnvironment(content);
      case None =>
        ok := Attempt();
        if ok && environment != NoFile {
          environment := NoFile;
          ok := Attempt();
        }
    }

    /** restore_optional_file on the unit file. */
    method RestoreUnit(value: Option<string>) returns (ok: bool)
      modifies this`unit, this`clock, this`seen
      ensures ok <==> !ForeignUnit(old(unit)) && Quiet(old(clock), RestoreSteps(old(unit) != NoFile, value.Some?))
      ensures ok ==> unit == FileOf(value) && clock == old(clock) + RestoreSteps(old(unit) != NoFile, value.Some?)
      ensures unit == old(unit) || unit == FileOf(value)
      ensures ForeignUnit(old(unit)) ==> !ok && unit == old(unit)
      ensures clock >= old(clock)
    {
      if ForeignUnit(unit) { return false; }
      match value
      case Some(content) => ok := WriteUnit(content);
      case None =>
        ok := Attempt();
        if ok && unit != NoFile {
          unit := NoFile;
          ok := Attempt();
        }
    }

    /** restore_install_snapshot. */
    method RestoreInstall(snapshot: Snapshot) returns (ok: bool)
      modifies this
      ensures ok ==> HoldsSnapshot(unit, environment, current, snapshot)
      ensures ok <==> Restorable(old(unit), old(environment), old(current))
                      && Quiet(old(clock), RestoreSteps(old(environment) != NoFile, snapshot.environment.Some?)
                                           + RestoreSteps(old(unit) != NoFile, snapshot.unit.Some?)
                                           + RestoreSteps(old(current) != NoLink, snapshot.current.Some?))
      ensures releases == old(releases)
      ensures environment == old(environment) || environment == FileOf(snapshot.environment)
      ensures ForeignEnvironment(old(environment)) ==>
                !ok && environment == old(environment) && unit == old(unit) && current == old(current)
      ensures ForeignUnit(old(unit)) ==> !ok && unit == old(unit) && current == old(current)
    {
      ok := RestoreEnvironment(snapshot.environment);
      if !ok { return; }
      ok := RestoreUnit(snapshot.unit);
      if !ok { return; }
      if InspectCurrent(current, releases) == Foreign { return false; }
      match snapshot.current
      case Some(target) => ok := PointCurrent(target);
      case None =>
        ok := Attempt();
        if ok && current != NoLink {
          current := NoLink;
          ok := Attempt();
        }
    }

    /** The snapshot taken before publishing; a foreign file or link refuses. */
    method Capture() returns (r: Option<Snapshot>)
      ensures r.Some? <==> Restorable(unit, environment, current)
      ensures r.Some? ==> HoldsSnapshot(unit, environment, current, r.value)
    {
      if ForeignUnit(unit) || ForeignEnvironment(environment) { return None; }
      match InspectCurrent(current, releases)
      case Foreign => return None;
      case Missing => return Some(Snapshot(ContentOf(unit), ContentOf(environment), None));
      case Managed(target) => return Some(Snapshot(ContentOf(unit), ContentOf(environment), Some(target)));
      case ManagedInvalid(target) => return Some(Snapshot(ContentOf(unit), ContentOf(environment), Some(target)));
    }
  }

  /** A rename can replace the files and the link. */
  predicate Writable(unit: FileNode, environment: FileNode, current: LinkNode) {
    !unit.Fixed? && !environment.Fixed? && !current.NotALink?
  }

  function ContentOf(node: FileNode): Option<string> {
    if node.Text? then Some(node.content) else None
  }

  function FileOf(value: Option<string>): FileNode {
    match value case Some(content) => Text(content, true) case None => NoFile
  }

  function LinkOf(target: Option<Target>): LinkNode {
    match target case Some(t) => Link(t, true) case None => NoLink
  }

  /** The unit file, environment file and link are exactly as captured. */
  predicate HoldsSnapshot(unit: FileNode, environment: FileNode, current: LinkNode, s: Snapshot) {
    && unit == FileOf(s.unit) && environment == FileOf(s.environment)
    && current == LinkOf(s.current)
  }

  /** Neither file nor link is foreign: what capturing and restoring both require. */
  predicate Restorable(unit: FileNode, environment: FileNode, current: LinkNode) {
    && !ForeignUnit(unit) && !ForeignEnvironment(environment)
    && (current.NoLink? || (current.Link? && current.owned && current.target.ReleaseTarget?))
  }

  /** What is not foreign can be replaced by a rename. */
  lemma Replaceable(unit: FileNode, environment: FileNode)
    ensures !ForeignUnit(unit) ==> !unit.Fixed?
    ensures !ForeignEnvironment(environment) ==> !environment.Fixed?
  {
    hide ManagedUnit, EnvironmentFile.ManagedContent;
  }

  // ----- How many operations it takes -----

  /** The operations on which publishing the release depends. */
  ghost function Essential(releases: Releases, digest: Digest, expected: string): nat {
    if ValidEntry(releases, digest, expected) then 0 else if expected in releases then 6 else 5
  }

  /** Restoring what is there or not from a snapshot that has it or not: a write, a removal, or only
      the check that nothing is there. */
  function RestoreSteps(there: bool, captured: bool): nat {
    if captured then 3 else if there then 2 else 1
  }

  /** Those that it attempts when it succeeds: what is left of the staging directory is removed, too. */
  ghost function Spent(releases: Releases, digest: Digest, expected: string, raced: Raced): nat {
    if ValidEntry(releases, digest, expected) then 0 else if expected in releases || raced.Some? then 6 else 5
  }

  // ----- What staging does to the entries -----

  /** Only a good release replaces an entry, unless another process was faster. */
  ghost predicate Staged(before: Releases, after: Releases, digest: Digest, expected: string, staging: string,
                         copied: Release, raced: Raced, ok: bool) {
    && (ok ==> GoodEntry(after, digest, expected)
               && (Get(after, expected) == Some(Some(copied)) || ValidEntry(after, digest, expected)))
    && (ok && raced.None? ==> Get(after, expected) == Some(Some(copied)))
    && (forall name :: name != expected && name != staging ==> Get(after, name) == Get(before, name))
    && (Get(after, expected) in {Get(before, expected), raced} || GoodEntry(after, digest, expected))
  }

  ghost predicate CanMove(digest: Digest, expected: string, copied: Release, replace: bool, raced: Raced) {
    Hashes(copied, digest, expected) && (!replace && raced.Some? ==> RacedValid(raced, digest, expected))
  }

  lemma StagedNothing(before: Releases, entry: Raced, digest: Digest, expected: string, staging: string,
                      copied: Release, raced: Raced)
    requires staging != expected
    ensures Staged(before, if entry.Some? then before[staging := entry.value] else before, digest, expected, staging,
                   copied, raced, false)
  {
  }

  lemma StagedMoved(before: Releases, after: Releases, digest: Digest, expected: string, staging: string,
                    copied: Release, replace: bool, raced: Raced, ok: bool)
    requires staging != expected && Copy(copied) && Hashes(copied, digest, expected)
    requires var refused := !replace && raced.Some?;
             && Get(after, expected) == (if refused then raced else Some(Some(copied)))
             && (ok && refused ==> RacedValid(raced, digest, expected))
    requires forall name :: name != expected && name != staging ==>
               Get(after, name) == Get(before[staging := Some(copied)], name)
    ensures Staged(before, after, digest, expected, staging, copied, raced, ok)
  {
    hide Hashes, Storable, HasIndex;
  }

  lemma StagedFrom(before: Releases, after: Releases, digest: Digest, expected: string, staging: string,
                   copied: Release, raced: Raced, ok: bool)
    requires staging != expected
    requires Staged(before[staging := Some(Release(Special, Special, true, false))], after, digest, expected, staging,
                    copied, raced, ok)
    ensures Staged(before, after, digest, expected, staging, copied, raced, ok)
  {
    hide GoodRelease, ValidRelease;
  }

  lemma StagedWithout(before: Releases, after: Releases, digest: Digest, expected: string, staging: string,
                      copied: Release, raced: Raced, ok: bool)
    requires staging != expected && Staged(before, after, digest, expected, staging, copied, raced, ok)
    ensures Staged(before, after - {staging}, digest, expected, staging, copied, raced, ok)
  {
    hide GoodRelease, ValidRelease;
  }

  // ----- What `current` led to along the way -----

  /** Everything newly seen is what `current` led to at the start, a good release, or what another
      process put in the release's place. */
  ghost predicate AllGood(before: set<Option<Release>>, after: set<Option<Release>>, was: Option<Release>,
                          digest: Digest, expected: string, raced: Raced) {
    forall r :: r in after ==> r in before || r == was || GoodRelease(r, digest, expected) || raced == Some(r)
  }
}
