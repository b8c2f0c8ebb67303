/**
 Whole installations: the sources are hashed, published and, when something fails, rolled back.
 What ends up behind `current` is the hashed source tree, unless two layouts have the same digest;
 it has all that a valid release needs exactly when the sources have an index page.
 */
module InstallRuns {
  import opened Prelude
  import opened Strings
  import opened HashLayout
  import opened Publication
  import opened EnvironmentFile
  import opened UnitFile

  /** Every digest is 64 hexadecimal digits long. */
  ghost predicate Hexadecimal(digest: Digest) {
    forall s: Bytes :: HexName(digest(s))
  }

  /** The server binary and the web tree that are installed from. */
  ghost predicate Source(binary: Node, web: Node) {
    WellFormed(BINARY_LABEL, binary) && WellFormed(WEB_LABEL, web)
  }

  /** The hash of the sources, if they can be hashed. */
  ghost function SourceHash(digest: Digest, binary: Node, web: Node): Option<string>
    requires Source(binary, web)
  {
    if Hashable(binary, web) then Some(digest(LayoutStream(binary, web))) else None
  }

  /** The release and the sources are two different streams with the same digest. */
  ghost predicate Collides(digest: Digest, r: Release, binary: Node, web: Node)
    requires Source(binary, web) && Hashable(binary, web)
  {
    && Storable(r) && Hashable(r.binary, r.web)
    && LayoutStream(r.binary, r.web) != LayoutStream(binary, web)
    && digest(LayoutStream(r.binary, r.web)) == digest(LayoutStream(binary, web))
  }

  /** A release that hashes to what the sources hashed to is the source tree, file for file, or the
      two are a collision of the digest. */
  lemma PublishedIsSource(digest: Digest, binary: Node, web: Node, r: Release)
    requires Source(binary, web) && Hashable(binary, web)
    requires Hashes(r, digest, digest(LayoutStream(binary, web)))
    ensures (r.binary == binary && r.web == web) != Collides(digest, r, binary, web)
  {
    LayoutsEqual(r.binary, r.web, binary, web);
  }

  /** The staging name is a fresh one, and no release hash begins with a dot. */
  ghost predicate Fresh(disk: Disk, staging: string)
    reads disk
  {
    && staging !in disk.releases && ".tmp-" <= staging
    && disk.current != Link(ReleaseTarget(staging), true) && disk.current != Link(ReleaseTarget(staging), false)
  }

  ghost predicate AllStorable(releases: Releases) {
    forall name :: EntryStorable(releases, name)
  }

  /** Hashes the sources and publishes what they hash to. `copied` is what copying the sources
      yields afterwards, when they may have changed, and `raced` what another process has published
      by then. */
  method Install(disk: Disk, digest: Digest, binary: Node, web: Node, newEnvironment: string, newUnit: string,
                 staging: string, copied: Release, raced: Raced)
    returns (ok: bool, ghost hash: Option<string>)
    requires Hexadecimal(digest) && Source(binary, web) && Copy(copied) && Fresh(disk, staging)
    requires AllStorable(disk.releases) && RacedStorable(raced)
    modifies disk
    ensures hash == SourceHash(digest, binary, web)
    ensures disk.NoMoreFaults(old(disk.clock)) ==>
              (ok <==> hash.Some? && Restorable(old(disk.unit), old(disk.environment), old(disk.current))
                       && CanPublish(old(disk.releases), digest, hash.value, copied, raced))
    ensures disk.NoMoreFaults(old(disk.clock)) && copied.binary == binary && copied.web == web && raced.None? ==>
              (ok <==> hash.Some? && Restorable(old(disk.unit), old(disk.environment), old(disk.current))
                       && EntryUsable(old(disk.releases), hash.value))
    ensures ok ==> hash.Some? && disk.unit == Text(newUnit, true) && disk.environment == Text(newEnvironment, true)
                   && disk.current == Link(ReleaseTarget(hash.value), true)
                   && GoodRelease(disk.Leads(), digest, hash.value)
    ensures ok && Hashable(binary, web) && !Collides(digest, disk.Leads().value, binary, web) ==>
              && disk.Leads().value.binary == binary && disk.Leads().value.web == web
              && (ValidEntry(disk.releases, digest, hash.value) <==> HasIndex(web))
    ensures StoppedAt(disk, old(disk.unit), old(disk.environment), old(disk.current), newEnvironment, newUnit, hash)
    ensures disk.clock >= old(disk.clock)
  {
    hide ManagedUnit, ManagedContent, HexName, Storable, LayoutStream, WellFormed, Hashable, HasIndex, Collides,
      RacedStorable, CanPublish, GoodRelease;
    var stream := HashLayoutOf(binary, web);
    hash := SourceHash(digest, binary, web);
    if stream.Err? { return false, hash; }
    var expected := digest(stream.value);
    StagingDiffers(digest, stream.value, staging);
    assert EntryStorable(disk.releases, expected);
    if copied.binary == binary && copied.web == web && raced.None? {
      UnchangedSources(disk.releases, digest, binary, web, copied);
    }
    ok := disk.PublishInstall(digest, expected, newEnvironment, newUnit, staging, copied, raced);
    if ok { IndexDecides(disk, digest, binary, web); }
  }

  lemma StagingDiffers(digest: Digest, stream: Bytes, staging: string)
    requires Hexadecimal(digest) && ".tmp-" <= staging
    ensures staging != digest(stream)
  {
    assert staging[0] == '.' && staging[0] in staging && HexName(digest(stream));
  }

  lemma IndexDecides(disk: Disk, digest: Digest, binary: Node, web: Node)
    requires Source(binary, web) && Hashable(binary, web)
    requires var hash := digest(LayoutStream(binary, web));
             disk.current == Link(ReleaseTarget(hash), true) && GoodRelease(disk.Leads(), digest, hash)
    ensures disk.Leads().Some?
    ensures !Collides(digest, disk.Leads().value, binary, web) ==>
              && disk.Leads().value.binary == binary && disk.Leads().value.web == web
              && (ValidEntry(disk.releases, digest, digest(LayoutStream(binary, web))) <==> HasIndex(web))
  {
    hide Collides, HasIndex, LayoutStream;
    PublishedIsSource(digest, binary, web, disk.Leads().value);
  }

  /** No entry of that name, or a safe directory. */
  predicate EntryUsable(releases: Releases, name: string) {
    name in releases ==> releases[name].Some? && releases[name].value.safe
  }

  /** When the sources do not change meanwhile, a copy of them can be published. */
  lemma UnchangedSources(releases: Releases, digest: Digest, binary: Node, web: Node, copied: Release)
    requires Source(binary, web) && Hashable(binary, web) && copied.binary == binary && copied.web == web
    ensures var hash := digest(LayoutStream(binary, web));
            CanPublish(releases, digest, hash, copied, None) <==> EntryUsable(releases, hash)
  {
  }

  /** A source tree without an index page is published and pointed to all the same: on an empty
      disk where nothing fails, `current` then leads to a release that is not a valid one. The
      server only takes up a web tree that has an index page, so the page must have gone since. */
  method PublishesIncompleteRelease(digest: Digest, binary: Node, web: Node, newEnvironment: string, newUnit: string)
    returns (disk: Disk, ok: bool, ghost hash: string)
    requires Hexadecimal(digest) && Source(binary, web) && Hashable(binary, web) && !HasIndex(web)
    ensures fresh(disk) && ok && hash == digest(LayoutStream(binary, web))
    ensures disk.current == Link(ReleaseTarget(hash), true)
    ensures GoodRelease(disk.Leads(), digest, hash) && !ValidEntry(disk.releases, digest, hash)
    ensures disk.Leads() == Some(Release(binary, web, true, true))
  {
    hide ManagedUnit, ManagedContent, HexName, WellFormed, LayoutStream, Hashable, HasIndex;
    disk := new Disk(NoFile, NoFile, NoLink, map[], (n: nat) => false);
    var copied := Release(binary, web, true, true);
    hash := digest(LayoutStream(binary, web));
    var stream := HashLayoutOf(binary, web);
    var expected := digest(stream.value);
    StagingDiffers(digest, stream.value, ".tmp-1");
    assert CanPublish(disk.releases, digest, expected, copied, None);
    ok := disk.PublishInstall(digest, expected, newEnvironment, newUnit, ".tmp-1", copied, None);
  }

  // ----- Rollback -----

  /** Where an installation stopped, and what it left in place. */
  datatype Stop = Stop(clock: nat, unit: FileNode, environment: FileNode)

  /** The files and the link as a publication of these contents may leave them, wherever it stopped. */
  predicate Stopped(captured: Snapshot, newEnvironment: string, newUnit: string, hash: string,
                    unit: FileNode, environment: FileNode, current: LinkNode) {
    && (unit == FileOf(captured.unit) || (unit == Text(newUnit, true) && environment == Text(newEnvironment, true)))
    && (environment == FileOf(captured.environment) || environment == Text(newEnvironment, true))
    && (current == LinkOf(captured.current) || current == Link(ReleaseTarget(hash), true))
  }

  /** As `Stopped`, against what was in place before. */
  ghost predicate StoppedAt(disk: Disk, unit: FileNode, environment: FileNode, current: LinkNode,
                            newEnvironment: string, newUnit: string, hash: Option<string>)
    reads disk
  {
    && (disk.unit == unit || (disk.unit == Text(newUnit, true) && disk.environment == Text(newEnvironment, true)))
    && (disk.environment == environment || disk.environment == Text(newEnvironment, true))
    && (disk.current == current || (hash.Some? && disk.current == Link(ReleaseTarget(hash.value), true)))
  }

  /** Rolling back from wherever publication stopped is possible exactly when the files then in
      place are still recognised as managed: a newly written one is refused when it is longer than
      the read limit or lacks its marker. */
  lemma RollbackExactly(captured: Snapshot, newEnvironment: string, newUnit: string, hash: string,
                        unit: FileNode, environment: FileNode, current: LinkNode)
    requires Restorable(FileOf(captured.unit), FileOf(captured.environment), LinkOf(captured.current))
    requires Stopped(captured, newEnvironment, newUnit, hash, unit, environment, current)
    ensures Restorable(unit, environment, current) <==>
              && (environment == FileOf(captured.environment) || AcceptedEnvironment(Text(newEnvironment, true)))
              && (unit == FileOf(captured.unit) || AcceptedUnit(Text(newUnit, true)))
  {
    hide AcceptedUnit, AcceptedEnvironment;
  }

  /** What the printer writes is accepted exactly when it fits the read limit. */
  lemma PrintedIsAccepted(c: Context, keyFile: string, content: string)
    requires c.dataDir.Some? && c.webDist.Some? && ValidEntries(Entries(c, keyFile))
    requires content == ENV_SCHEMA + "\n" + Rendered(Entries(c, keyFile))
    ensures AcceptedEnvironment(Text(content, true)) <==> Utf8Size(content) <= READ_LIMIT
  {
    hide ManagedContent, Utf8Size, Rendered, Entries;
    PrintParse(c, keyFile, content);
  }

  /** Installs with any failures, then rolls back. Wherever the installation stopped, when nothing
      fails from then on the captured files and link come back exactly if a new environment file that
      is in place fits the read limit, and so does a new unit, as it always does when its paths are
      such that Linux resolves them. Nothing is touched when one of the two cannot be printed. */
  method InstallThenRestore(disk: Disk, digest: Digest, binary: Node, web: Node, c: Context, keyFile: string,
                            paths: Paths, staging: string, copied: Release, raced: Raced)
    returns (captured: Option<Snapshot>, content: Option<string>, ghost left: Stop, restored: bool)
    requires Hexadecimal(digest) && Source(binary, web) && Copy(copied) && Fresh(disk, staging)
    requires AllStorable(disk.releases) && RacedStorable(raced)
    modifies disk
    ensures content.Some? <==>
            c.dataDir.Some? && c.webDist.Some? && ValidEntries(Entries(c, keyFile)) && PrintablePaths(paths)
    ensures captured.Some? <==>
            content.Some? && Restorable(old(disk.unit), old(disk.environment), old(disk.current))
    ensures captured.None? ==> disk.unit == old(disk.unit) && disk.environment == old(disk.environment)
                               && disk.current == old(disk.current) && !restored
    ensures restored ==> disk.unit == old(disk.unit) && disk.environment == old(disk.environment)
                         && disk.current == old(disk.current)
    ensures captured.Some? && disk.NoMoreFaults(left.clock) ==>
              (restored <==>
               (left.environment == old(disk.environment) || Utf8Size(content.value) <= READ_LIMIT)
               && (left.unit == old(disk.unit) || PathsFit(paths) || Utf8Size(UnitText(paths).value) <= READ_LIMIT))
  {
    hide AcceptedUnit, AcceptedEnvironment, Copy, AllStorable, Hexadecimal, WellFormed, RacedStorable, Utf8Size,
      UnitText, Rendered, Entries, PathsFit;
    captured, left, restored := None, Stop(disk.clock, disk.unit, disk.environment), false;
    content := None;
    var printed := PrintEnvironment(c, keyFile);
    var unit := UnitText(paths);
    UnitPrinted(paths);
    if unit.Err? || printed.Err? { return; }
    content := Some(printed.value);
    captured := disk.Capture();
    if captured.Some? {
      var _, hash := Install(disk, digest, binary, web, printed.value, unit.value, staging, copied, raced);
      left := Stop(disk.clock, disk.unit, disk.environment);
      RollbackExactly(captured.value, printed.value, unit.value, if hash.Some? then hash.value else "", disk.unit,
                      disk.environment, disk.current);
      PrintedIsAccepted(c, keyFile, printed.value);
      UnitIsAccepted(paths);
      if PathsFit(paths) { UnitFits(paths); }
      restored := disk.RestoreInstall(captured.value);
    }
  }

  lemma UnitPrinted(p: Paths)
    ensures UnitText(p).Ok? <==> PrintablePaths(p)
  {
  }

  /** A printed environment file over the read limit is written but then taken for a foreign one:
      on an empty disk where nothing fails, the publication succeeds and cannot be rolled back. */
  method RollbackRefusesLongFile(digest: Digest, binary: Node, web: Node, c: Context, keyFile: string, newUnit: string)
    returns (disk: Disk, content: string, published: bool, restored: bool)
    requires Hexadecimal(digest) && Source(binary, web) && Hashable(binary, web)
    requires c.dataDir.Some? && c.webDist.Some? && ValidEntries(Entries(c, keyFile))
    requires Utf8Size(ENV_SCHEMA + "\n" + Rendered(Entries(c, keyFile))) > READ_LIMIT
    ensures fresh(disk) && published && !restored && disk.environment == Text(content, true)
    ensures content == ENV_SCHEMA + "\n" + Rendered(Entries(c, keyFile))
  {
    hide ManagedUnit, ManagedContent, HexName, WellFormed, LayoutStream, Hashable;
    disk := new Disk(NoFile, NoFile, NoLink, map[], (n: nat) => false);
    var printed := PrintEnvironment(c, keyFile);
    content := printed.value;
    var copied := Release(binary, web, true, true);
    ghost var hash: Option<string>;
    published, hash := Install(disk, digest, binary, web, content, newUnit, ".tmp-1", copied, None);
    restored := disk.RestoreInstall(Snapshot(None, None, None));
  }

  // ----- A search path that is too long once quoted -----

  /** "/\" n times, separated by colons. */
  function Directories(n: nat): string
    requires n > 0
  {
    if n == 1 then "/\\" else "/\\:" + Directories(n - 1)
  }

  lemma {:induction false} DirectoriesQuoted(n: nat)
    requires n > 0
    ensures |Directories(n)| == 3 * n - 1 && ValidValue(Directories(n)) && |Escaped(Directories(n))| == 4 * n - 1
  {
    var v := Directories(n);
    if n > 1 {
      DirectoriesQuoted(n - 1);
      var w := v[1..];
      var x := w[1..];
      assert v[0] == '/' && w[0] == '\\' && x[0] == ':' && x[1..] == Directories(n - 1);
      assert |Escaped(w)| == 2 + |Escaped(x)| && |Escaped(x)| == 1 + |Escaped(x[1..])|;
    } else {
      assert v[0] == '/' && v[1..][0] == '\\' && v[1..][1..] == [];
      assert |Escaped(v[1..])| == 2;
    }
  }

  /** A line is at least as long as its quoted value. */
  lemma {:induction false} RenderedAtLeast(entries: seq<Entry>, e: Entry)
    requires ValidEntries(entries) && e in entries
    ensures |Rendered(entries)| >= |Escaped(e.value)|
    decreases |entries|
  {
    var front, last := entries[..|entries| - 1], entries[|entries| - 1];
    assert entries == front + [last];
    TwoPassesEscape(last.value);
    if e != last { RenderedAtLeast(front, e); }
  }

  /** A search path of 98306 characters or more makes the printed file too long although each
      variable may still be shorter than the 128 KiB that Linux allows it: quoting doubles the
      backslashes. */
  lemma LongSearchPath(c: Context, keyFile: string, n: nat)
    requires c.dataDir.Some? && c.webDist.Some? && ValidEntries(Entries(c, keyFile))
    requires n >= 32769 && c.path == Directories(n)
    ensures Utf8Size(ENV_SCHEMA + "\n" + Rendered(Entries(c, keyFile))) > READ_LIMIT
    ensures n == 32769 ==> |c.path| == 98306
  {
    DirectoriesQuoted(n);
    EntryPresent(c, keyFile, Entry("PATH", c.path));
    RenderedAtLeast(Entries(c, keyFile), Entry("PATH", c.path));
    Utf8AtLeast(ENV_SCHEMA + "\n" + Rendered(Entries(c, keyFile)));
  }
}
