/**
 Which path stands where in the systemd unit, read back from its text.
 */
module UnitPaths {
  import opened Prelude
  import opened Strings
  import opened EnvironmentFile
  import opened Publication
  import opened UnitFile
  import opened ManagedFiles

  /** What systemd makes of a word: it undoes the escapes, doubled specifiers and doubled dollars. */
  function Unworded(word: string, dollars: bool): Option<string> {
    if word == [] then Some([])
    else if word[0] == '\\' then
      if "\\x20" <= word then Prepended(" ", Unworded(word[4..], dollars))
      else if "\\x09" <= word then Prepended("\t", Unworded(word[4..], dollars))
      else if "\\\\" <= word then Prepended("\\", Unworded(word[2..], dollars))
      else if "\\\"" <= word then Prepended("\"", Unworded(word[2..], dollars))
      else None
    else if word[0] == '%' then
      if "%%" <= word then Prepended("%", Unworded(word[2..], dollars)) else None
    else if word[0] == '$' && dollars then
      if "$$" <= word then Prepended("$", Unworded(word[2..], dollars)) else None
    else if word[0] == ' ' || word[0] == '\t' || word[0] == '"' then None
    else Prepended([word[0]], Unworded(word[1..], dollars))
  }

  lemma UnwordOne(c: char, rest: string, dollars: bool)
    ensures Unworded(EscapedChar(c, dollars) + rest, dollars) == Prepended([c], Unworded(rest, dollars))
  {
    var e := EscapedChar(c, dollars);
    var word := e + rest;
    assert word[|e|..] == rest;
    assert e <= word;
    assert word[0] == e[0] && (|e| > 1 ==> word[1] == e[1]) && (|e| > 2 ==> word[2] == e[2] && word[3] == e[3]);
    assert "\\x20" <= word ==> word[1] == 'x' && word[2] == '2';
    assert "\\x09" <= word ==> word[1] == 'x' && word[2] == '0';
    assert "\\\\" <= word ==> word[1] == '\\';
  }

  /** Escaping can be undone, and leaves nothing at which a command line is split. */
  lemma {:induction false} WordReadsBack(v: string, dollars: bool)
    ensures Unworded(Word(v, dollars), dollars) == Some(v)
    ensures ' ' !in Word(v, dollars) && '\t' !in Word(v, dollars)
  {
    if v != [] {
      WordReadsBack(v[1..], dollars);
      UnwordOne(v[0], Word(v[1..], dollars), dollars);
      assert v == [v[0]] + v[1..];
    }
  }

  /** The words of a command line. */
  lemma CommandWords(start: string, first: string, option: string, second: string)
    requires ' ' !in start && ' ' !in option
    ensures SplitAll(Command(start, first, option, second), ' ') ==
              [start + ENV_EXECUTABLE, Word(first, true), "\"--systemd" + option + "\"", Word(second, true)]
  {
    WordReadsBack(first, true);
    WordReadsBack(second, true);
    NoSpaces();
    hide Word, SplitAll;
    var a, b, c, d := start + ENV_EXECUTABLE, Word(first, true), "\"--systemd" + option + "\"", Word(second, true);
    assert Command(start, first, option, second) == a + [' '] + (b + [' '] + (c + [' '] + d)) by {
      assert " \"--systemd" == [' '] + "\"--systemd" && "\" " == "\"" + [' '];
    }
    SplitAllAt(a, ' ', b + [' '] + (c + [' '] + d));
    SplitAllAt(b, ' ', c + [' '] + d);
    SplitAllAt(c, ' ', d);
    NoSplit(d, ' ');
  }

  lemma NoSpaces()
    ensures ' ' !in ENV_EXECUTABLE && ' ' !in "\"--systemd" && ' ' !in "\""
  {
  }

  /** A command line that runs one path with one option and another path. */
  ghost predicate Runs(line: string, start: string, first: string, option: string, second: string) {
    exists a, b :: SplitAll(line, ' ') == [start + ENV_EXECUTABLE, a, option, b]
      && Unworded(a, true) == Some(first) && Unworded(b, true) == Some(second)
  }

  /** The only line with the prefix sets the path. */
  ghost predicate Names(lines: seq<string>, prefix: string, path: string) {
    exists word :: Carries(lines, prefix, prefix + word) && Unworded(word, false) == Some(path)
  }

  lemma OtherAt(prefix: string, line: string, n: nat)
    requires n < |prefix| && (n < |line| ==> line[n] != prefix[n])
    ensures !(prefix <= line)
  {
  }

  /** Of the lines around those with paths none begins like one of them. */
  lemma AroundDiffers(i: nat)
    ensures i < |Head()| ==> Head()[i] == "" || Head()[i][0] != 'E'
    ensures i < |Tail()| ==> Tail()[i] == "" || Tail()[i][0] != 'E'
    ensures i < |Head()| ==> |Head()[i]| < 2 || Head()[i][0] != 'W' || Head()[i][1] != 'o'
    ensures i < |Tail()| ==> |Tail()[i]| < 2 || Tail()[i][0] != 'W' || Tail()[i][1] != 'o'
  {
  }

  /** The lines with paths differ in these characters. */
  lemma MiddleStarts(p: Paths)
    requires PrintablePaths(p)
    ensures var m := Middle(p);
            && |m[0]| > 9 && |m[1]| > 9 && |m[2]| > 9 && |m[3]| > 9 && |m[4]| > 9
            && m[0][1] == 'n' && m[1][0] == 'U' && m[2][0] == 'W' && m[3][1] == 'x' && m[4][1] == 'x'
            && m[3][9] == 'P' && m[4][9] == '='
  {
    hide Word;
  }

  lemma PlacedAt(p: Paths, prefix: string, k: nat)
    requires PrintablePaths(p) && k < 5 && |prefix| > 1
    requires prefix[0] == 'E' || (prefix[0] == 'W' && prefix[1] == 'o')
    requires forall i :: 0 <= i < 5 && i != k ==> !(prefix <= Middle(p)[i])
    requires prefix <= Middle(p)[k]
    ensures Carries(Head() + Middle(p) + Tail(), prefix, Middle(p)[k])
  {
    var lines := Head() + Middle(p) + Tail();
    assert lines[9 + k] == Middle(p)[k];
    forall i | 0 <= i < |lines| && prefix <= lines[i] ensures i == 9 + k {
      assert lines[i][0] == prefix[0] && lines[i][1] == prefix[1];
      if i < 9 { AroundDiffers(i); } else if i >= 14 { AroundDiffers(i - 14); }
      else { assert lines[i] == Middle(p)[i - 9]; }
    }
  }

  lemma EnvironmentPlaced(p: Paths)
    requires PrintablePaths(p)
    ensures Names(Head() + Middle(p) + Tail(), "EnvironmentFile=", p.environment.value)
  {
    WordReadsBack(p.environment.value, false);
    hide Word, Unworded, Command;
    MiddleStarts(p);
    var prefix := "EnvironmentFile=";
    forall i | 1 <= i < 5 ensures !(prefix <= Middle(p)[i]) { OtherAt(prefix, Middle(p)[i], if i < 3 then 0 else 1); }
    PlacedAt(p, prefix, 0);
  }

  lemma DirectoryPlaced(p: Paths)
    requires PrintablePaths(p)
    ensures Names(Head() + Middle(p) + Tail(), "WorkingDirectory=", p.cwd)
  {
    WordReadsBack(p.cwd, false);
    hide Word, Unworded;
    PlacedAt(p, "WorkingDirectory=", 2);
  }

  lemma WaitPlaced(p: Paths)
    requires PrintablePaths(p)
    ensures exists line :: Carries(Head() + Middle(p) + Tail(), "ExecStartPre=", line)
              && Runs(line, "ExecStartPre=", p.binary.value, "\"--systemd" + "-handoff-wait" + "\"", p.handoff.value)
  {
    hide Word, Unworded;
    MiddleStarts(p);
    var prefix := "ExecStartPre=";
    forall i | 0 <= i < 5 && i != 3 ensures !(prefix <= Middle(p)[i]) {
      OtherAt(prefix, Middle(p)[i], if i == 0 then 1 else if i == 4 then 9 else 0);
    }
    PlacedAt(p, prefix, 3);
    WordReadsBack(p.binary.value, true);
    WordReadsBack(p.handoff.value, true);
    CommandWords("ExecStartPre=", p.binary.value, "-handoff-wait", p.handoff.value);
  }

  lemma LaunchPlaced(p: Paths)
    requires PrintablePaths(p)
    ensures exists line :: Carries(Head() + Middle(p) + Tail(), "ExecStart=", line)
              && Runs(line, "ExecStart=", p.binary.value, "\"--systemd" + "-launch" + "\"", p.environment.value)
  {
    hide Word, Unworded;
    MiddleStarts(p);
    var prefix := "ExecStart=";
    forall i | 0 <= i < 4 ensures !(prefix <= Middle(p)[i]) {
      OtherAt(prefix, Middle(p)[i], if i == 0 then 1 else if i == 3 then 9 else 0);
    }
    PlacedAt(p, prefix, 4);
    WordReadsBack(p.binary.value, true);
    WordReadsBack(p.environment.value, true);
    CommandWords("ExecStart=", p.binary.value, "-launch", p.environment.value);
  }

  /** The unit sets each path once and where it belongs: the environment file, the working directory,
      and the server binary with the handoff path before the start and with the environment at it. */
  lemma UnitNamesPaths(p: Paths)
    requires PrintablePaths(p)
    ensures var lines := Lines(UnitText(p).value);
            && Names(lines, "EnvironmentFile=", p.environment.value)
            && Names(lines, "WorkingDirectory=", p.cwd)
            && (exists line :: Carries(lines, "ExecStartPre=", line)
                  && Runs(line, "ExecStartPre=", p.binary.value, "\"--systemd" + "-handoff-wait" + "\"",
                          p.handoff.value))
            && (exists line :: Carries(lines, "ExecStart=", line)
                  && Runs(line, "ExecStart=", p.binary.value, "\"--systemd" + "-launch" + "\"", p.environment.value))
  {
    HeadValid();
    MiddleValid(p);
    TailValid();
    AllValidConcat(Head(), Middle(p));
    AllValidConcat(Head() + Middle(p), Tail());
    hide Head, Middle, Tail;
    LinesOfTerminated(Head() + Middle(p) + Tail());
    EnvironmentPlaced(p);
    DirectoryPlaced(p);
    WaitPlaced(p);
    LaunchPlaced(p);
    hide Runs, Names, Carries, Lines, Terminated;
  }

  /** No unit is printed exactly when one of the four paths is not UTF-8, does not begin with a slash,
      or contains NUL, a line feed or a carriage return. */
  lemma UnitRefusedExactly(p: Paths)
    ensures UnitText(p).Err? <==>
            exists v :: v in {p.binary, p.handoff, p.environment, Some(p.cwd)}
              && (v.None? || !("/" <= v.value) || exists c :: c in v.value && c in "\0\n\r")
  {
    forall v: Option<string> ensures UnitPath(v) <==>
      v.Some? && "/" <= v.value && forall c :: c in v.value ==> c !in "\0\n\r"
    {
      PathExactly(v);
    }
    assert p.binary in {p.binary, p.handoff, p.environment, Some(p.cwd)};
    assert p.handoff in {p.binary, p.handoff, p.environment, Some(p.cwd)};
    assert p.environment in {p.binary, p.handoff, p.environment, Some(p.cwd)};
    assert Some(p.cwd) in {p.binary, p.handoff, p.environment, Some(p.cwd)};
    hide UnitPath;
  }

  lemma PathExactly(v: Option<string>)
    ensures UnitPath(v) <==> v.Some? && "/" <= v.value && forall c :: c in v.value ==> c !in "\0\n\r"
  {
  }

  /** Four paths of at most 4096 bytes keep the text within 128 KiB. */
  lemma ShortPathsFit(p: Paths)
    requires PrintablePaths(p)
    requires Utf8Size(p.binary.value) <= 4096 && Utf8Size(p.handoff.value) <= 4096
    requires Utf8Size(p.environment.value) <= 4096 && Utf8Size(p.cwd) <= 4096
    ensures Utf8Size(UnitText(p).value) <= 131072
  {
    UnitFits(p);
  }
}
