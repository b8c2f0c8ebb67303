/**
 The text of the systemd unit: it always carries its two markers, and paths that the system
 accepts at all keep it within the limit up to which it is read back.
 */
module UnitFile {
  import opened Prelude
  import opened Strings
  import opened EnvironmentFile
  import opened Publication

  /** The paths that the unit names; `None` is one that is not UTF-8. */
  datatype Paths = Paths(binary: Option<string>, handoff: Option<string>, environment: Option<string>, cwd: string)

  /** validate_systemd_absolute_path. */
  predicate UnitPath(v: Option<string>) {
    v.Some? && ValidValue(v.value) && v.value != [] && v.value[0] == '/'
  }

  predicate PrintablePaths(p: Paths) {
    UnitPath(p.binary) && UnitPath(p.handoff) && UnitPath(p.environment) && UnitPath(Some(p.cwd))
  }

  function EscapedChar(c: char, dollars: bool): string {
    if c == ' ' then "\\x20"
    else if c == '\t' then "\\x09"
    else if c == '\\' then "\\\\"
    else if c == '"' then "\\\""
    else if c == '%' then "%%"
    else if c == '$' && dollars then "$$"
    else [c]
  }

  /** systemd_unit_word. */
  function Word(v: string, dollars: bool): string {
    if v == [] then [] else EscapedChar(v[0], dollars) + Word(v[1..], dollars)
  }

  const ENV_EXECUTABLE := "/usr/bin/env"
  const NETWORK := "network-online.target"

  function Head(): seq<string> {
    ["[Unit]", "Description=" + UNIT_DESCRIPTION, UNIT_MARKER, "After=" + NETWORK, "Wants=" + NETWORK, "",
     "[Service]", "Type=exec", "UMask=0077"]
  }

  /** The variables that the unit takes from the service. */
  function Unset(): string {
    "BYTE_API_API_KEY" + (" DEVHATCH_ADMIN_PASSWORD" + (" DEVHATCH_ADMIN_PASSWORD" + "_FILE"))
  }

  /** ENV_EXECUTABLE, the server, an option and its path. */
  function Command(start: string, first: string, option: string, second: string): string {
    start + (ENV_EXECUTABLE + (" " + (Word(first, true) + (" \"--systemd" + (option + ("\" " + Word(second, true)))))))
  }

  /** The lines that name paths, and the one between them. */
  function Middle(p: Paths): seq<string>
    requires PrintablePaths(p)
  {
    ["EnvironmentFile=" + Word(p.environment.value, false),
     "UnsetEnvironment=" + Unset(),
     "WorkingDirectory=" + Word(p.cwd, false),
     Command("ExecStartPre=", p.binary.value, "-handoff-wait", p.handoff.value),
     Command("ExecStart=", p.binary.value, "-launch", p.environment.value)]
  }

  function Tail(): seq<string> {
    ["Restart=always", "RestartSec=2s", "KillMode=mixed", "TimeoutStartSec=120s", "TimeoutStopSec=45s", "",
     "[Install]", "WantedBy=default.target"]
  }

  function Terminated(lines: seq<string>): string {
    if lines == [] then [] else lines[0] + "\n" + Terminated(lines[1..])
  }

  function UnitText(p: Paths): Result<string, ()> {
    if PrintablePaths(p) then Ok(Terminated(Head() + Middle(p) + Tail())) else Err(())
  }

  // ----- The lines of the text -----

  lemma ValidConcat(a: string, b: string)
    requires ValidValue(a) && ValidValue(b)
    ensures ValidValue(a + b)
  {
  }

  lemma {:induction false} WordValid(v: string, dollars: bool)
    requires ValidValue(v)
    ensures ValidValue(Word(v, dollars))
  {
    if v != [] {
      WordValid(v[1..], dollars);
      assert v[0] in v && ValidValue(EscapedChar(v[0], dollars));
      ValidConcat(EscapedChar(v[0], dollars), Word(v[1..], dollars));
    }
  }

  ghost predicate AllValid(lines: seq<string>) {
    forall i :: 0 <= i < |lines| ==> ValidValue(lines[i])
  }

  lemma AllValidConcat(a: seq<string>, b: seq<string>)
    requires AllValid(a) && AllValid(b)
    ensures AllValid(a + b)
  {
  }

  lemma {:induction false} LinesOfTerminated(lines: seq<string>)
    requires forall i :: 0 <= i < |lines| ==> '\n' !in lines[i] && '\r' !in lines[i]
    ensures Lines(Terminated(lines)) == lines
  {
    if lines != [] {
      var rest := Terminated(lines[1..]);
      LinesOfTerminated(lines[1..]);
      SplitOnceAt(lines[0], '\n', rest);
      assert lines[0] + "\n" + rest == lines[0] + ['\n'] + rest;
      assert lines[0] != [] ==> lines[0][|lines[0]| - 1] in lines[0];
      assert lines == [lines[0]] + lines[1..];
    }
  }

  lemma DescriptionValid()
    ensures ValidValue(UNIT_DESCRIPTION) && ValidValue("Description=")
  {
    var a, b := "DevHatch user supervisor", " managed installation";
    assert ValidValue(a) && ValidValue(b);
    ValidConcat(a, b);
  }

  lemma MarkerValid()
    ensures ValidValue(UNIT_MARKER)
  {
  }

  lemma NetworkValid()
    ensures ValidValue(NETWORK) && ValidValue("After=") && ValidValue("Wants=")
  {
  }

  lemma SectionsValid()
    ensures ValidValue("[Unit]") && ValidValue("[Service]") && ValidValue("Type=exec") && ValidValue("UMask=0077")
    ensures ValidValue("")
  {
  }

  lemma HeadValid()
    ensures AllValid(Head())
  {
    DescriptionValid();
    MarkerValid();
    NetworkValid();
    SectionsValid();
    hide ValidValue;
    ValidConcat("Description=", UNIT_DESCRIPTION);
    ValidConcat("After=", NETWORK);
    ValidConcat("Wants=", NETWORK);
  }

  lemma ServiceValid()
    ensures ValidValue("Restart=always") && ValidValue("RestartSec=2s") && ValidValue("KillMode=mixed")
  {
  }

  lemma TimeoutsValid()
    ensures ValidValue("TimeoutStartSec=120s") && ValidValue("TimeoutStopSec=45s")
  {
  }

  lemma InstallValid()
    ensures ValidValue("") && ValidValue("[Install]") && ValidValue("WantedBy=default.target")
  {
  }

  lemma TailValid()
    ensures AllValid(Tail())
  {
    ServiceValid();
    TimeoutsValid();
    InstallValid();
    hide ValidValue;
  }

  lemma PasswordValid()
    ensures ValidValue(" DEVHATCH_ADMIN_PASSWORD")
  {
  }

  lemma VariablesValid()
    ensures ValidValue("BYTE_API_API_KEY") && ValidValue(" DEVHATCH_ADMIN_PASSWORD") && ValidValue("_FILE")
  {
    PasswordValid();
  }

  lemma UnsetStartValid()
    ensures ValidValue("UnsetEnvironment=")
  {
  }

  lemma UnsetValid()
    ensures ValidValue(Unset()) && ValidValue("UnsetEnvironment=")
  {
    UnsetStartValid();
    VariablesValid();
    hide ValidValue;
    var a, b, c := "BYTE_API_API_KEY", " DEVHATCH_ADMIN_PASSWORD", "_FILE";
    ValidConcat(b, c);
    ValidConcat(b, b + c);
    ValidConcat(a, b + (b + c));
  }

  lemma StartsValid()
    ensures ValidValue("EnvironmentFile=") && ValidValue("WorkingDirectory=")
  {
  }

  lemma ExecsValid()
    ensures ValidValue("ExecStartPre=") && ValidValue("ExecStart=")
  {
  }

  lemma OptionsValid()
    ensures ValidValue("-handoff-wait") && ValidValue("-launch")
  {
  }

  lemma JoinsValid()
    ensures ValidValue(ENV_EXECUTABLE) && ValidValue(" \"--systemd") && ValidValue("\" ") && ValidValue(" ")
  {
  }

  lemma CommandValid(start: string, first: string, option: string, second: string)
    requires ValidValue(start) && ValidValue(first) && ValidValue(option) && ValidValue(second)
    ensures ValidValue(Command(start, first, option, second))
  {
    JoinsValid();
    WordValid(first, true);
    WordValid(second, true);
    hide ValidValue, Word;
    var a := "\" " + Word(second, true);
    ValidConcat("\" ", Word(second, true));
    ValidConcat(option, a);
    ValidConcat(" \"--systemd", option + a);
    ValidConcat(Word(first, true), " \"--systemd" + (option + a));
    ValidConcat(" ", Word(first, true) + (" \"--systemd" + (option + a)));
    ValidConcat(ENV_EXECUTABLE, " " + (Word(first, true) + (" \"--systemd" + (option + a))));
    ValidConcat(start, ENV_EXECUTABLE + (" " + (Word(first, true) + (" \"--systemd" + (option + a)))));
  }

  lemma MiddleValid(p: Paths)
    requires PrintablePaths(p)
    ensures AllValid(Middle(p))
  {
    StartsValid();
    ExecsValid();
    OptionsValid();
    UnsetValid();
    hide Word, ValidValue, Unset, Command;
    WordValid(p.environment.value, false);
    ValidConcat("EnvironmentFile=", Word(p.environment.value, false));
    ValidConcat("UnsetEnvironment=", Unset());
    WordValid(p.cwd, false);
    ValidConcat("WorkingDirectory=", Word(p.cwd, false));
    CommandValid("ExecStartPre=", p.binary.value, "-handoff-wait", p.handoff.value);
    CommandValid("ExecStart=", p.binary.value, "-launch", p.environment.value);
  }

  // ----- The markers -----

  lemma NothingStarts(prefix: string)
    ensures Starting(prefix, []) == []
  {
  }

  lemma StartingFirst(prefix: string, lines: seq<string>)
    requires lines != []
    ensures Starting(prefix, lines) == Starting(prefix, [lines[0]]) + Starting(prefix, lines[1..])
  {
    assert [lines[0]][1..] == [];
  }

  lemma {:induction false} StartingConcat(prefix: string, a: seq<string>, b: seq<string>)
    ensures Starting(prefix, a + b) == Starting(prefix, a) + Starting(prefix, b)
  {
    hide Starting;
    if a == [] {
      assert a + b == b;
      NothingStarts(prefix);
    } else {
      StartingConcat(prefix, a[1..], b);
      StartingFirst(prefix, a);
      StartingFirst(prefix, a + b);
      assert (a + b)[1..] == a[1..] + b && (a + b)[0] == a[0];
      Associative(Starting(prefix, [a[0]]), Starting(prefix, a[1..]), Starting(prefix, b));
    }
  }

  lemma {:induction false} NoneStart(prefix: string, lines: seq<string>)
    requires prefix != [] && forall i :: 0 <= i < |lines| ==> lines[i] == [] || lines[i][0] != prefix[0]
    ensures Starting(prefix, lines) == []
  {
    if lines != [] {
      NoneStart(prefix, lines[1..]);
    }
  }

  lemma {:induction false} OneStarts(prefix: string, lines: seq<string>, k: nat)
    requires k < |lines| && prefix != [] && prefix <= lines[k]
    requires forall i :: 0 <= i < |lines| && i != k ==> lines[i] == [] || lines[i][0] != prefix[0]
    ensures Starting(prefix, lines) == [lines[k]]
  {
    assert lines == lines[..k] + ([lines[k]] + lines[k + 1..]);
    StartingConcat(prefix, lines[..k], [lines[k]] + lines[k + 1..]);
    NoneStart(prefix, lines[..k]);
    StartingConcat(prefix, [lines[k]], lines[k + 1..]);
    NoneStart(prefix, lines[k + 1..]);
    assert [lines[k]][1..] == [];
  }

  /** Whatever the paths, the text is recognised as the managed unit. */
  lemma UnitManaged(p: Paths)
    requires PrintablePaths(p)
    ensures ManagedUnit(UnitText(p).value)
  {
    hide Word;
    HeadValid();
    MiddleValid(p);
    TailValid();
    AllValidConcat(Head(), Middle(p));
    AllValidConcat(Head() + Middle(p), Tail());
    var lines := Head() + Middle(p) + Tail();
    LinesOfTerminated(lines);
    DescriptionOnce(p);
    MarkerOnce(p);
  }

  lemma DescriptionOnce(p: Paths)
    requires PrintablePaths(p)
    ensures Starting("Description=", Head() + Middle(p) + Tail()) == ["Description=" + UNIT_DESCRIPTION]
  {
    hide Word, Starting;
    StartingConcat("Description=", Head() + Middle(p), Tail());
    StartingConcat("Description=", Head(), Middle(p));
    OneStarts("Description=", Head(), 1);
    NoneStart("Description=", Middle(p));
    NoneStart("Description=", Tail());
  }

  lemma MarkerOnce(p: Paths)
    requires PrintablePaths(p)
    ensures Starting("X-DevHatch-Managed=", Head() + Middle(p) + Tail()) == [UNIT_MARKER]
  {
    hide Word, Starting;
    StartingConcat("X-DevHatch-Managed=", Head() + Middle(p), Tail());
    StartingConcat("X-DevHatch-Managed=", Head(), Middle(p));
    OneStarts("X-DevHatch-Managed=", Head(), 2);
    NoneStart("X-DevHatch-Managed=", Middle(p));
    NoneStart("X-DevHatch-Managed=", Tail());
  }

  // ----- The length -----

  /** No path that Linux resolves is longer. */
  const PATH_MAX := 4096

  predicate PathsFit(p: Paths)
    requires PrintablePaths(p)
  {
    && Utf8Size(p.binary.value) <= PATH_MAX && Utf8Size(p.handoff.value) <= PATH_MAX
    && Utf8Size(p.environment.value) <= PATH_MAX && Utf8Size(p.cwd) <= PATH_MAX
  }

  lemma {:induction false} SizeConcat(a: string, b: string)
    ensures Utf8Size(a + b) == Utf8Size(a) + Utf8Size(b)
  {
    if a == [] {
      assert a + b == b;
    } else {
      SizeConcat(a[1..], b);
      assert (a + b)[1..] == a[1..] + b;
    }
  }

  lemma {:induction false} SizeAtMost(s: string)
    ensures Utf8Size(s) <= 4 * |s|
  {
    if s != [] { SizeAtMost(s[1..]); }
  }

  lemma {:induction false} WordSize(v: string, dollars: bool)
    ensures Utf8Size(Word(v, dollars)) <= 4 * Utf8Size(v)
  {
    if v != [] {
      WordSize(v[1..], dollars);
      EscapedSize(v[0], dollars);
      SizeConcat(EscapedChar(v[0], dollars), Word(v[1..], dollars));
    }
  }

  lemma EscapedSize(c: char, dollars: bool)
    ensures Utf8Size(EscapedChar(c, dollars)) <= 4 * CharSize(c)
  {
    var e := EscapedChar(c, dollars);
    if e == [c] {
      assert e[1..] == [];
    } else {
      var p, q := e[..2], e[2..];
      assert e == p + q;
      SizeConcat(p, q);
      assert Utf8Size(p) == 2 by { assert p[1..][1..] == []; }
      assert Utf8Size(q) <= 2 by { if q != [] { assert q[1..][1..] == []; } }
    }
  }

  lemma OneLine(line: string, rest: seq<string>)
    ensures Utf8Size(Terminated([line] + rest)) == Utf8Size(line) + 1 + Utf8Size(Terminated(rest))
  {
    assert ([line] + rest)[1..] == rest;
    SizeConcat(line + "\n", Terminated(rest));
    SizeConcat(line, "\n");
    assert "\n"[1..] == [];
  }

  lemma NothingTerminated()
    ensures Utf8Size(Terminated([])) == 0
  {
  }

  lemma {:induction false} TerminatedSize(lines: seq<string>, bound: nat)
    requires forall i :: 0 <= i < |lines| ==> Utf8Size(lines[i]) <= bound
    ensures Utf8Size(Terminated(lines)) <= |lines| * (bound + 1)
  {
    NothingTerminated();
    hide Utf8Size, Terminated;
    if lines != [] {
      TerminatedSize(lines[1..], bound);
      OneLine(lines[0], lines[1..]);
      assert lines == [lines[0]] + lines[1..];
      assert (|lines| - 1) * (bound + 1) + (bound + 1) == |lines| * (bound + 1);
    }
  }

  lemma {:induction false} TerminatedConcat(a: seq<string>, b: seq<string>)
    ensures Terminated(a + b) == Terminated(a) + Terminated(b)
  {
    if a == [] {
      assert a + b == b;
    } else {
      TerminatedConcat(a[1..], b);
      assert (a + b)[1..] == a[1..] + b;
      Associative(a[0] + "\n", Terminated(a[1..]), Terminated(b));
    }
  }

  lemma PathLine(start: string, v: string, dollars: bool)
    requires Utf8Size(v) <= PATH_MAX && |start| <= 30
    ensures Utf8Size(start + Word(v, dollars)) <= 4 * PATH_MAX + 120
  {
    SizeConcat(start, Word(v, dollars));
    SizeAtMost(start);
    WordSize(v, dollars);
  }

  lemma CommandLine(start: string, first: string, option: string, second: string)
    requires Utf8Size(first) <= PATH_MAX && Utf8Size(second) <= PATH_MAX && |start| <= 15 && |option| <= 15
    ensures Utf8Size(Command(start, first, option, second)) <= 8 * PATH_MAX + 240
  {
    WordSize(first, true);
    WordSize(second, true);
    SizeAtMost(start);
    SizeAtMost(option);
    SizeAtMost("\" ");
    SizeAtMost(" \"--systemd");
    SizeAtMost(" ");
    SizeAtMost(ENV_EXECUTABLE);
    hide Utf8Size, Word;
    var a := "\" " + Word(second, true);
    SizeConcat("\" ", Word(second, true));
    SizeConcat(option, a);
    SizeConcat(" \"--systemd", option + a);
    SizeConcat(Word(first, true), " \"--systemd" + (option + a));
    SizeConcat(" ", Word(first, true) + (" \"--systemd" + (option + a)));
    SizeConcat(ENV_EXECUTABLE, " " + (Word(first, true) + (" \"--systemd" + (option + a))));
    SizeConcat(start, ENV_EXECUTABLE + (" " + (Word(first, true) + (" \"--systemd" + (option + a)))));
  }

  lemma HeadSize()
    ensures Utf8Size(Terminated(Head())) <= 9 * 241
  {
    forall i | 0 <= i < |Head()| ensures Utf8Size(Head()[i]) <= 240 {
      assert |Head()[i]| <= 60;
      SizeAtMost(Head()[i]);
    }
    TerminatedSize(Head(), 240);
  }

  lemma TailSize()
    ensures Utf8Size(Terminated(Tail())) <= 8 * 101
  {
    forall i | 0 <= i < |Tail()| ensures Utf8Size(Tail()[i]) <= 100 {
      assert |Tail()[i]| <= 25;
      SizeAtMost(Tail()[i]);
    }
    TerminatedSize(Tail(), 100);
  }

  lemma MiddleSize(p: Paths)
    requires PrintablePaths(p) && PathsFit(p)
    ensures Utf8Size(Terminated(Middle(p))) <= 24 * PATH_MAX + 1200
  {
    hide Word, Utf8Size, Terminated, Command;
    var m := Middle(p);
    PathLine("EnvironmentFile=", p.environment.value, false);
    PathLine("WorkingDirectory=", p.cwd, false);
    CommandLine("ExecStartPre=", p.binary.value, "-handoff-wait", p.handoff.value);
    CommandLine("ExecStart=", p.binary.value, "-launch", p.environment.value);
    SizeAtMost(m[1]);
    assert |m[1]| <= 100;
    assert m == [m[0]] + ([m[1]] + ([m[2]] + ([m[3]] + ([m[4]] + []))));
    OneLine(m[0], [m[1]] + ([m[2]] + ([m[3]] + ([m[4]] + []))));
    OneLine(m[1], [m[2]] + ([m[3]] + ([m[4]] + [])));
    OneLine(m[2], [m[3]] + ([m[4]] + []));
    OneLine(m[3], [m[4]] + []);
    OneLine(m[4], []);
    NothingTerminated();
  }

  /** Paths that Linux resolves keep the text within the limit. */
  lemma UnitFits(p: Paths)
    requires PrintablePaths(p) && PathsFit(p)
    ensures Utf8Size(UnitText(p).value) <= READ_LIMIT
  {
    hide Utf8Size, Terminated, Head, Middle, Tail;
    HeadSize();
    MiddleSize(p);
    TailSize();
    TerminatedConcat(Head() + Middle(p), Tail());
    TerminatedConcat(Head(), Middle(p));
    SizeConcat(Terminated(Head()) + Terminated(Middle(p)), Terminated(Tail()));
    SizeConcat(Terminated(Head()), Terminated(Middle(p)));
  }

  /** What is written as the unit is recognised when it is read back, exactly if it fits the limit,
      which it does when its paths are such that Linux resolves them. */
  lemma UnitIsAccepted(p: Paths)
    requires PrintablePaths(p)
    ensures AcceptedUnit(FileNode.Text(UnitText(p).value, true)) <==> Utf8Size(UnitText(p).value) <= READ_LIMIT
    ensures PathsFit(p) ==> AcceptedUnit(FileNode.Text(UnitText(p).value, true))
  {
    hide ManagedUnit, Utf8Size, UnitText;
    UnitManaged(p);
    if PathsFit(p) { UnitFits(p); }
  }
}
