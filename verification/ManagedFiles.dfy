/**
 By which lines a unit or environment file is recognised as one that the program wrote, and what
 happens to a file that is not.
 */
module ManagedFiles {
  import opened Prelude
  import opened Strings
  import opened HashLayout
  import opened Publication
  import opened EnvironmentFile
  import opened UnitFile

  /** str::lines: a line ends at a line feed, which takes a carriage return before it along; what
      follows the last line feed is a line unless it is empty. */
  lemma LinesExactly(line: string, rest: string)
    requires '\n' !in line
    ensures Lines(line) == if line == "" then [] else [line]
    ensures Lines(line + "\r\n" + rest) == [line] + Lines(rest)
    ensures line == "" || line[|line| - 1] != '\r' ==> Lines(line + "\n" + rest) == [line] + Lines(rest)
  {
    NoSplit(line, '\n');
    SplitOnceAt(line + "\r", '\n', rest);
    assert line + "\r\n" + rest == (line + "\r") + ['\n'] + rest;
    assert (line + "\r")[..|line|] == line;
    SplitOnceAt(line, '\n', rest);
    assert line + "\n" + rest == line + ['\n'] + rest;
  }

  /** The line occurs, and no other line begins with the prefix. */
  ghost predicate Carries(lines: seq<string>, prefix: string, line: string) {
    exists k :: 0 <= k < |lines| && lines[k] == line
      && forall i :: 0 <= i < |lines| && prefix <= lines[i] ==> i == k
  }

  ghost predicate NoneHas(lines: seq<string>, prefix: string) {
    forall i :: 0 <= i < |lines| ==> !(prefix <= lines[i])
  }

  lemma {:induction false} StartsNone(prefix: string, lines: seq<string>)
    ensures Starting(prefix, lines) == [] <==> NoneHas(lines, prefix)
  {
    if lines != [] {
      StartsNone(prefix, lines[1..]);
      assert forall i :: 0 < i < |lines| ==> lines[i] == lines[1..][i - 1];
    }
  }

  lemma CarriedFirst(first: string, rest: seq<string>, prefix: string, line: string)
    requires prefix <= first
    ensures Carries([first] + rest, prefix, line) <==> first == line && NoneHas(rest, prefix)
  {
    var lines := [first] + rest;
    assert lines[0] == first;
    if Carries(lines, prefix, line) {
      forall i | 0 <= i < |rest| ensures !(prefix <= rest[i]) { assert lines[i + 1] == rest[i]; }
    }
    if first == line && NoneHas(rest, prefix) {
      assert forall i :: 0 < i < |lines| ==> lines[i] == rest[i - 1];
      assert Carries(lines, prefix, line);
    }
  }

  lemma CarriedLater(first: string, rest: seq<string>, prefix: string, line: string)
    requires prefix <= line && !(prefix <= first)
    ensures Carries([first] + rest, prefix, line) <==> Carries(rest, prefix, line)
  {
    var lines := [first] + rest;
    if k :| 0 <= k < |lines| && lines[k] == line && forall i :: 0 <= i < |lines| && prefix <= lines[i] ==> i == k {
      assert k > 0 && rest[k - 1] == line;
      forall i | 0 <= i < |rest| && prefix <= rest[i] ensures i == k - 1 { assert lines[i + 1] == rest[i]; }
    }
    if k :| 0 <= k < |rest| && rest[k] == line && forall i :: 0 <= i < |rest| && prefix <= rest[i] ==> i == k {
      assert lines[k + 1] == line;
      forall i | 0 <= i < |lines| && prefix <= lines[i] ensures i == k + 1 { assert i > 0 && lines[i] == rest[i - 1]; }
    }
  }

  lemma {:induction false} OnlyStarting(prefix: string, lines: seq<string>, line: string)
    requires prefix <= line
    ensures Starting(prefix, lines) == [line] <==> Carries(lines, prefix, line)
  {
    if lines != [] {
      var first, rest := lines[0], lines[1..];
      assert lines == [first] + rest;
      hide Carries, NoneHas;
      if prefix <= first {
        StartsNone(prefix, rest);
        CarriedFirst(first, rest, prefix, line);
        var more := Starting(prefix, rest);
        assert Starting(prefix, lines) == [first] + more;
        assert [first] + more == [line] ==> ([first] + more)[0] == line && |more| == 0;
        assert more == [] ==> [first] + more == [first];
      } else {
        OnlyStarting(prefix, rest, line);
        CarriedLater(first, rest, prefix, line);
        assert Starting(prefix, lines) == Starting(prefix, rest);
      }
    }
  }

  ghost predicate WithoutLineEnds(lines: seq<string>) {
    forall i :: 0 <= i < |lines| ==> '\n' !in lines[i] && '\r' !in lines[i]
  }

  /** A unit file is taken for the program's own exactly when its one description line and its one
      marker line are the program's. */
  lemma UnitManagedExactly(lines: seq<string>)
    requires WithoutLineEnds(lines)
    ensures ManagedUnit(Terminated(lines)) <==>
            Carries(lines, "Description=", "Description=" + UNIT_DESCRIPTION)
            && Carries(lines, "X-DevHatch-Managed=", UNIT_MARKER)
  {
    LinesOfTerminated(lines);
    MarkerBegins();
    hide Lines, Starting, Terminated, WithoutLineEnds;
    OnlyStarting("Description=", lines, "Description=" + UNIT_DESCRIPTION);
    OnlyStarting("X-DevHatch-Managed=", lines, UNIT_MARKER);
  }

  lemma MarkerBegins()
    ensures "X-DevHatch-Managed=" <= UNIT_MARKER
  {
  }

  /** An environment file is taken for the program's own exactly when its one schema line is. */
  lemma EnvironmentManagedExactly(lines: seq<string>)
    requires WithoutLineEnds(lines)
    ensures ManagedContent(Terminated(lines)) <==> Carries(lines, ENV_SCHEMA_NAME + "=", ENV_SCHEMA)
  {
    LinesOfTerminated(lines);
    SchemaText();
    hide Lines, Starting, Terminated, WithoutLineEnds;
    OnlyStarting(ENV_SCHEMA_NAME + "=", lines, ENV_SCHEMA);
  }

  /** What publication, capture and rollback refuse to touch: anything but a missing file, and a
      regular file with safe attributes, of at most 128 KiB, whose lines mark it as the program's. */
  lemma ForeignExactly(lines: seq<string>, safe: bool)
    requires WithoutLineEnds(lines)
    ensures ForeignUnit(Text(Terminated(lines), safe)) <==>
            !(safe && Utf8Size(Terminated(lines)) <= 131072
              && Carries(lines, "Description=", "Description=" + UNIT_DESCRIPTION)
              && Carries(lines, "X-DevHatch-Managed=", UNIT_MARKER))
    ensures ForeignEnvironment(Text(Terminated(lines), safe)) <==>
            !(safe && Utf8Size(Terminated(lines)) <= 131072 && Carries(lines, ENV_SCHEMA_NAME + "=", ENV_SCHEMA))
    ensures !ForeignUnit(NoFile) && ForeignUnit(Unreadable) && ForeignUnit(Fixed)
    ensures !ForeignEnvironment(NoFile) && ForeignEnvironment(Unreadable) && ForeignEnvironment(Fixed)
  {
    UnitManagedExactly(lines);
    EnvironmentManagedExactly(lines);
    hide ManagedUnit, ManagedContent, Carries;
  }

  /** What stands at `current`: a link that the user owns into an existing release directory with a
      name of 64 hexadecimal digits, such a link whose release is missing or misnamed, or something
      that is not the program's. */
  lemma CurrentExactly(current: LinkNode, releases: Releases, target: Target)
    ensures InspectCurrent(current, releases) == Managed(target) <==>
            && current == Link(target, true) && target.ReleaseTarget?
            && |target.name| == 64 && (forall c :: c in target.name ==> c in "0123456789abcdefABCDEF")
            && Get(releases, target.name) != None && releases[target.name] != None
    ensures InspectCurrent(current, releases) in {Managed(target), ManagedInvalid(target)} <==>
            current == Link(target, true) && target.ReleaseTarget?
    ensures InspectCurrent(current, releases) == Missing <==> current == NoLink
  {
    if current.Link? && current.target.ReleaseTarget? {
      var name := current.target.name;
      forall c: char ensures
        ('0' <= c <= '9' || 'a' <= c <= 'f' || 'A' <= c <= 'F') <==> c in "0123456789abcdefABCDEF"
      {
        HexDigits(c);
      }
      assert HexName(name) <==> |name| == 64 && forall c :: c in name ==> c in "0123456789abcdefABCDEF";
    }
  }

  lemma HexDigits(c: char)
    ensures ('0' <= c <= '9' || 'a' <= c <= 'f' || 'A' <= c <= 'F') <==> c in "0123456789abcdefABCDEF"
  {
    var i := if '0' <= c <= '9' then c as int - '0' as int
             else if 'a' <= c <= 'f' then c as int - 'a' as int + 10 else c as int - 'A' as int + 16;
    if '0' <= c <= '9' || 'a' <= c <= 'f' || 'A' <= c <= 'F' { assert "0123456789abcdefABCDEF"[i] == c; }
  }

  const OWN_SERVICE := "[Service]\n" + "ExecStart=/bin/true\n"

  lemma OwnServiceIsForeign()
    ensures ForeignUnit(Text(OWN_SERVICE, true))
  {
    var lines := ["[Service]", "ExecStart=/bin/true"];
    assert Terminated(lines[1..]) == "ExecStart=/bin/true\n" by { assert lines[1..][1..] == []; }
    assert Terminated(lines) == OWN_SERVICE;
    assert WithoutLineEnds(lines);
    assert lines[0][0] == '[' && lines[1][0] == 'E';
    hide Terminated;
    ForeignExactly(lines, true);
  }

  /** A user's own unit of that name: nothing is captured, published or rolled back over it. */
  method ForeignUnitIsLeftAlone(digest: Digest, expected: string, newEnvironment: string, newUnit: string,
                                copied: Release)
    returns (disk: Disk, captured: Option<Snapshot>, published: bool, restored: bool)
    requires Copy(copied) && expected != ".tmp-1"
    ensures fresh(disk) && captured == None && !published && !restored
    ensures disk.unit == Text(OWN_SERVICE, true) && disk.environment == NoFile
    ensures disk.current == NoLink && disk.releases == map[]
  {
    OwnServiceIsForeign();
    hide ForeignUnit, Copy, CanPublish;
    disk := new Disk(Text(OWN_SERVICE, true), NoFile, NoLink, map[], (n: nat) => false);
    captured := disk.Capture();
    published := disk.PublishInstall(digest, expected, newEnvironment, newUnit, ".tmp-1", copied, None);
    restored := disk.RestoreInstall(Snapshot(None, None, None));
  }
}
