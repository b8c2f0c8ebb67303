/**
 The managed environment file: printing the supervisor's environment in systemd quoting and
 parsing it back through the allowlist.
 */
module EnvironmentFile {
  import opened Prelude
  import opened Sorting
  import opened Strings

  const ENV_SCHEMA_NAME := "DEVHATCH_SUPERVISOR_SCHEMA"
  const ENV_SCHEMA := "DEVHATCH_SUPERVISOR_SCHEMA=\"1\""

  const REQUIRED_ENVIRONMENT: seq<string> := [
    "HOME", "XDG_CONFIG_HOME", "XDG_RUNTIME_DIR", "DBUS_SESSION_BUS_ADDRESS", "PATH", "SHELL",
    "DEVHATCH_BIND", "DEVHATCH_DATA_DIR", "DEVHATCH_WEB_DIST", "DEVHATCH_CWD", "BYTE_API_API_KEY_FILE"]

  const OPTIONAL_ENVIRONMENT: seq<string> := [
    "DEVHATCH_PUBLIC_ORIGIN", "DEVHATCH_IMPORT_ROOTS", "DEVHATCH_OPEN_DESIGN_URL",
    "DEVHATCH_OPENDESIGN_PUBLIC_URL", "CODEX_HOME", "TRAE_HOME", "TRAECLI_HOME",
    "PI_CODING_AGENT_DIR", "PI_CODING_AGENT_SESSION_DIR", "SKILLINK_HOME", "SSH_AUTH_SOCK",
    "HTTP_PROXY", "HTTPS_PROXY", "NO_PROXY", "http_proxy", "https_proxy", "no_proxy",
    "SKILLINK_GIT_TIMEOUT_SECS", "SKILLINK_GIT_CONCURRENCY", "SKILLINK_GIT_SHALLOW"]

  // ----- Values: quoting and unquoting -----

  predicate ValidValue(v: string) {
    '\0' !in v && '\n' !in v && '\r' !in v
  }

  /** str::replace of one character. */
  function ReplaceChar(s: string, c: char, replacement: string): string {
    if s == [] then [] else (if s[0] == c then replacement else [s[0]]) + ReplaceChar(s[1..], c, replacement)
  }

  function Quote(v: string): Result<string, ()> {
    if ValidValue(v) then Ok("\"" + ReplaceChar(ReplaceChar(v, '\\', "\\\\"), '"', "\\\"") + "\"") else Err(())
  }

  /** Both replacements in one pass. */
  function Escaped(v: string): string {
    if v == [] then []
    else (if v[0] == '\\' then "\\\\" else if v[0] == '"' then "\\\"" else [v[0]]) + Escaped(v[1..])
  }

  lemma {:induction false} ReplaceSplits(a: string, b: string, c: char, replacement: string)
    ensures ReplaceChar(a + b, c, replacement) == ReplaceChar(a, c, replacement) + ReplaceChar(b, c, replacement)
  {
    if a == [] {
      assert a + b == b;
    } else {
      var head := if a[0] == c then replacement else [a[0]];
      ReplaceSplits(a[1..], b, c, replacement);
      assert (a + b)[0] == a[0] && (a + b)[1..] == a[1..] + b;
      Associative(head, ReplaceChar(a[1..], c, replacement), ReplaceChar(b, c, replacement));
    }
  }

  lemma {:induction false} TwoPassesEscape(v: string)
    ensures ReplaceChar(ReplaceChar(v, '\\', "\\\\"), '"', "\\\"") == Escaped(v)
  {
    if v != [] {
      var head := if v[0] == '\\' then "\\\\" else [v[0]];
      TwoPassesEscape(v[1..]);
      ReplaceSplits(head, ReplaceChar(v[1..], '\\', "\\\\"), '"', "\\\"");
      assert head[1..] == if v[0] == '\\' then "\\" else [];
      assert "\\"[1..] == [];
    }
  }

  /** What the parser's character loop makes of the text between the quotes. */
  function Unescaped(s: string): Option<string> {
    if s == [] then Some([])
    else if s[0] == '\\' then
      if |s| == 1 || (s[1] != '\\' && s[1] != '"') then None
      else Prepended([s[1]], Unescaped(s[2..]))
    else if s[0] == '"' then None
    else Prepended([s[0]], Unescaped(s[1..]))
  }

  lemma {:induction false} UnescapeEscaped(v: string)
    ensures Unescaped(Escaped(v)) == Some(v)
  {
    if v != [] {
      UnescapeEscaped(v[1..]);
      var e := Escaped(v);
      if v[0] == '\\' || v[0] == '"' { assert e[2..] == Escaped(v[1..]); } else { assert e[1..] == Escaped(v[1..]); }
      assert [v[0]] + v[1..] == v;
    }
  }

  lemma {:induction false} EscapeUnescaped(s: string)
    requires Unescaped(s).Some?
    ensures Escaped(Unescaped(s).value) == s
  {
    if s != [] {
      var n := if s[0] == '\\' then 2 else 1;
      EscapeUnescaped(s[n..]);
      var v := Unescaped(s).value;
      assert v[1..] == Unescaped(s[n..]).value;
      assert s == s[..n] + s[n..];
      if n == 2 { assert s[..2] == [s[0], s[1]]; } else { assert s[..1] == [s[0]]; }
    }
  }

  /** What an accepted encoded value denotes. */
  function Unquoted(encoded: string): Option<string> {
    if |encoded| < 2 || encoded[0] != '"' || encoded[|encoded| - 1] != '"' then None
    else match Unescaped(encoded[1..|encoded| - 1])
      case None => None
      case Some(v) => if ValidValue(v) then Some(v) else None
  }

  function Prepended(a: string, rest: Option<string>): Option<string> {
    match rest case None => None case Some(r) => Some(a + r)
  }

  lemma PrependedTwice(a: string, b: string, rest: Option<string>)
    ensures Prepended(a, Prepended(b, rest)) == Prepended(a + b, rest)
  {
    if rest.Some? { assert a + (b + rest.value) == (a + b) + rest.value; }
  }

  method ParseValue(encoded: string) returns (r: Result<string, ()>)
    ensures r.Ok? <==> Unquoted(encoded).Some?
    ensures r.Ok? ==> r.value == Unquoted(encoded).value
  {
    if encoded == [] || encoded[0] != '"' { return Err(()); }
    var stripped := encoded[1..];
    if stripped == [] || stripped[|stripped| - 1] != '"' { return Err(()); }
    var characters := stripped[..|stripped| - 1];
    assert characters == encoded[1..|encoded| - 1];
    var decoded: string := [];
    var i := 0;
    assert characters[0..] == characters && forall r: string :: [] + r == r;
    while i < |characters|
      invariant i <= |characters|
      invariant Unescaped(characters) == Prepended(decoded, Unescaped(characters[i..]))
    {
      var character := characters[i];
      i := i + 1;
      PrependedTwice(decoded, if character == '\\' && i < |characters| then [characters[i]] else [character],
                     if character == '\\' && i < |characters|
                       then Unescaped(characters[i + 1..]) else Unescaped(characters[i..]));
      if character == '\\' {
        if i == |characters| || (characters[i] != '\\' && characters[i] != '"') { return Err(()); }
        assert characters[i - 1..][2..] == characters[i + 1..];
        decoded := decoded + [characters[i]];
        i := i + 1;
      } else if character == '"' {
        return Err(());
      } else {
        assert characters[i - 1..][1..] == characters[i..];
        decoded := decoded + [character];
      }
    }
    assert decoded + [] == decoded && characters[i..] == [];
    if !ValidValue(decoded) { return Err(()); }
    return Ok(decoded);
  }

  /** Quoting and unquoting are two-sided inverses: between the values without NUL, CR and LF and
      the encoded texts that the parser accepts. */
  lemma QuoteUnquote(v: string, e: string)
    ensures Quote(v) == Ok(e) <==> Unquoted(e) == Some(v)
  {
    TwoPassesEscape(v);
    var body := Escaped(v);
    var quoted := "\"" + body + "\"";
    assert quoted[1..|quoted| - 1] == body;
    UnescapeEscaped(v);
    if Unquoted(e) == Some(v) {
      var inner := e[1..|e| - 1];
      EscapeUnescaped(inner);
      assert e == [e[0]] + inner + [e[|e| - 1]];
    }
  }

  // ----- The file -----

  datatype Context = Context(home: string, configHome: string, runtimeDir: string, busAddress: string,
                             path: string, shell: string, bind: string,
                             dataDir: Option<string>, webDist: Option<string>, cwd: string,
                             optional: map<string, string>)

  datatype Entry = Entry(name: string, value: string)

  /** The optional variables the context has, in allowlist order. */
  function OptionalEntries(optional: map<string, string>, names: seq<string>): seq<Entry> {
    if names == [] then []
    else
      var rest := OptionalEntries(optional, names[..|names| - 1]);
      var name := names[|names| - 1];
      if name in optional then rest + [Entry(name, optional[name])] else rest
  }

  /** The entries in file order. */
  function Entries(c: Context, keyFile: string): seq<Entry>
    requires c.dataDir.Some? && c.webDist.Some?
  {
    [Entry("HOME", c.home), Entry("XDG_CONFIG_HOME", c.configHome), Entry("XDG_RUNTIME_DIR", c.runtimeDir),
     Entry("DBUS_SESSION_BUS_ADDRESS", c.busAddress), Entry("PATH", c.path), Entry("SHELL", c.shell),
     Entry("DEVHATCH_BIND", c.bind), Entry("DEVHATCH_DATA_DIR", c.dataDir.value),
     Entry("DEVHATCH_WEB_DIST", c.webDist.value), Entry("DEVHATCH_CWD", c.cwd)]
    + OptionalEntries(c.optional, OPTIONAL_ENVIRONMENT) + [Entry("BYTE_API_API_KEY_FILE", keyFile)]
  }

  predicate ValidEntries(entries: seq<Entry>) {
    forall e :: e in entries ==> ValidValue(e.value)
  }

  function Line(e: Entry): string
    requires ValidValue(e.value)
  {
    e.name + "=" + Quote(e.value).value
  }

  function Rendered(entries: seq<Entry>): string
    requires ValidEntries(entries)
  {
    if entries == [] then []
    else Rendered(entries[..|entries| - 1]) + Line(entries[|entries| - 1]) + "\n"
  }

  method CollectOptional(optional: map<string, string>) returns (entries: seq<Entry>)
    ensures entries == OptionalEntries(optional, OPTIONAL_ENVIRONMENT)
  {
    entries := [];
    for i := 0 to |OPTIONAL_ENVIRONMENT|
      invariant entries == OptionalEntries(optional, OPTIONAL_ENVIRONMENT[..i])
    {
      var name := OPTIONAL_ENVIRONMENT[i];
      assert OPTIONAL_ENVIRONMENT[..i + 1][..i] == OPTIONAL_ENVIRONMENT[..i];
      if name in optional { entries := entries + [Entry(name, optional[name])]; }
    }
    assert OPTIONAL_ENVIRONMENT[..|OPTIONAL_ENVIRONMENT|] == OPTIONAL_ENVIRONMENT;
  }

  /** Prints the file; a path that is not UTF-8 (`None`) or a forbidden character is an error. */
  method PrintEnvironment(c: Context, keyFile: string) returns (r: Result<string, ()>)
    ensures r.Ok? <==> c.dataDir.Some? && c.webDist.Some? && ValidEntries(Entries(c, keyFile))
    ensures r.Ok? ==> r.value == ENV_SCHEMA + "\n" + Rendered(Entries(c, keyFile))
  {
    if c.dataDir.None? || c.webDist.None? { return Err(()); }
    var values := [Entry("HOME", c.home), Entry("XDG_CONFIG_HOME", c.configHome),
                   Entry("XDG_RUNTIME_DIR", c.runtimeDir), Entry("DBUS_SESSION_BUS_ADDRESS", c.busAddress),
                   Entry("PATH", c.path), Entry("SHELL", c.shell), Entry("DEVHATCH_BIND", c.bind),
                   Entry("DEVHATCH_DATA_DIR", c.dataDir.value), Entry("DEVHATCH_WEB_DIST", c.webDist.value),
                   Entry("DEVHATCH_CWD", c.cwd)];
    var optional := CollectOptional(c.optional);
    values := values + optional;
    values := values + [Entry("BYTE_API_API_KEY_FILE", keyFile)];
    assert values == Entries(c, keyFile);
    r := PrintEntries(values);
  }

  method PrintEntries(values: seq<Entry>) returns (r: Result<string, ()>)
    ensures r.Ok? <==> ValidEntries(values)
    ensures r.Ok? ==> r.value == ENV_SCHEMA + "\n" + Rendered(values)
  {
    var content := ENV_SCHEMA;
    content := content + "\n";
    ghost var start := content;
    assert start + [] == content;
    for i := 0 to |values|
      invariant ValidEntries(values[..i]) && content == start + Rendered(values[..i])
    {
      var e := values[i];
      assert e in values && values[..i + 1][..i] == values[..i];
      assert values[..i + 1] == values[..i] + [e];
      var quoted := Quote(e.value);
      if quoted.Err? { return Err(()); }
      content := content + e.name;
      content := content + "=";
      content := content + quoted.value;
      content := content + "\n";
      assert content == start + (Rendered(values[..i]) + Line(e) + "\n");
    }
    assert values[..|values|] == values;
    return Ok(content);
  }

  // ----- The parser -----

  /** str::lines: terminated by LF or CRLF. */
  function Lines(s: string): seq<string>
    decreases |s|
  {
    if s == [] then []
    else match SplitOnce(s, '\n')
      case None => [s]
      case Some((line, rest)) =>
        SplitOnceShorter(s, '\n');
        [if line != [] && line[|line| - 1] == '\r' then line[..|line| - 1] else line] + Lines(rest)
  }

  lemma SplitOnceShorter(s: string, c: char)
    ensures SplitOnce(s, c).Some? ==> |SplitOnce(s, c).value.1| < |s|
  {
  }

  predicate AllowedBy(required: seq<string>, optional: seq<string>, name: string) {
    name in required || name in optional
  }

  predicate Allowed(name: string) {
    AllowedBy(REQUIRED_ENVIRONMENT, OPTIONAL_ENVIRONMENT, name)
  }

  datatype Reading = Reading(values: map<string, string>, schema: bool)

  /** One line: None rejects the file. */
  function ReadLine(state: Reading, line: string): Option<Reading> {
    match SplitOnce(line, '=')
    case None => None
    case Some((name, encoded)) =>
      if name == ENV_SCHEMA_NAME then
        if state.schema || encoded != "\"1\"" then None else Some(state.(schema := true))
      else if !Allowed(name) then None
      else match Unquoted(encoded)
        case None => None
        case Some(value) => if name in state.values then None else Some(state.(values := state.values[name := value]))
  }

  function ReadLines(state: Reading, lines: seq<string>): Option<Reading>
    decreases |lines|
  {
    if lines == [] then Some(state)
    else match ReadLine(state, lines[0])
      case None => None
      case Some(next) => ReadLines(next, lines[1..])
  }

  predicate Complete(state: Reading) {
    state.schema && forall name :: name in REQUIRED_ENVIRONMENT ==> name in state.values
  }

  /** Parses the file; `pathsValid` is the check of path values against the file system. */
  method ParseEnvironment(content: string, pathsValid: map<string, string> -> bool)
    returns (r: Result<map<string, string>, ()>)
    ensures forall values :: r == Ok(values) <==>
              && ReadLines(Reading(map[], false), Lines(content)) == Some(Reading(values, true))
              && Complete(Reading(values, true)) && pathsValid(values)
  {
    var lines := Lines(content);
    var values: map<string, string>, schema := map[], false;
    for i := 0 to |lines|
      invariant ReadLines(Reading(map[], false), lines) == ReadLines(Reading(values, schema), lines[i..])
    {
      var line := lines[i];
      assert lines[i..][0] == line && lines[i..][1..] == lines[i + 1..];
      var parts := SplitOnce(line, '=');
      if parts.None? { return Err(()); }
      var name, encoded := parts.value.0, parts.value.1;
      if name == ENV_SCHEMA_NAME {
        if schema || encoded != "\"1\"" { return Err(()); }
        schema := true;
        continue;
      }
      if !Allowed(name) { return Err(()); }
      var value := ParseValue(encoded);
      if value.Err? || name in values { return Err(()); }
      values := values[name := value.value];
    }
    if !Complete(Reading(values, schema)) || !pathsValid(values) { return Err(()); }
    return Ok(values);
  }

  // ----- Round trip -----

  function Values(entries: seq<Entry>): map<string, string> {
    if entries == [] then map[]
      else Values(entries[..|entries| - 1])[entries[|entries| - 1].name := entries[|entries| - 1].value]
  }

  ghost predicate PlainNames(entries: seq<Entry>) {
    forall e :: e in entries ==> Allowed(e.name) && '=' !in e.name && '\n' !in e.name && e.name != ENV_SCHEMA_NAME
  }

  ghost predicate NamesDistinct(entries: seq<Entry>) {
    forall i, j :: 0 <= i < j < |entries| ==> entries[i].name != entries[j].name
  }

  lemma {:induction false} EscapedHasNoLineEnd(v: string)
    requires ValidValue(v)
    ensures '\n' !in Escaped(v) && '\r' !in Escaped(v)
  {
    if v != [] { EscapedHasNoLineEnd(v[1..]); }
  }

  lemma LineShape(e: Entry)
    requires ValidValue(e.value) && '\n' !in e.name
    ensures '\n' !in Line(e) && Line(e) != [] && Line(e)[|Line(e)| - 1] == '"'
  {
    TwoPassesEscape(e.value);
    EscapedHasNoLineEnd(e.value);
  }

  lemma FirstLine(line: string, rest: string)
    requires '\n' !in line && line != [] && line[|line| - 1] == '"'
    ensures Lines(line + "\n" + rest) == [line] + Lines(rest)
  {
    SplitOnceAt(line, '\n', rest);
    assert line + "\n" + rest == line + ['\n'] + rest;
  }

  function LineSeq(entries: seq<Entry>): (r: seq<string>)
    requires ValidEntries(entries)
    ensures |r| == |entries|
    ensures forall i :: 0 <= i < |r| ==> ValidValue(entries[i].value) && r[i] == Line(entries[i])
  {
    if entries == [] then []
    else
      assert forall e :: e in entries[1..] ==> e in entries;
      [Line(entries[0])] + LineSeq(entries[1..])
  }

  lemma {:induction false} RenderedFirst(entries: seq<Entry>)
    requires ValidEntries(entries) && entries != []
    ensures ValidEntries(entries[1..])
    ensures Rendered(entries) == Line(entries[0]) + "\n" + Rendered(entries[1..])
    decreases |entries|
  {
    var n := |entries|;
    if n == 1 {
      assert entries[..0] == [] && entries[1..] == [];
    } else {
      var front, last, tail := entries[..n - 1], entries[n - 1], entries[1..];
      RenderedFirst(front);
      assert front[1..] == tail[..n - 2] && tail[n - 2] == last;
      assert Rendered(tail) == Rendered(front[1..]) + Line(last) + "\n";
      Regroup(Line(entries[0]) + "\n", Rendered(front[1..]), Line(last), "\n");
    }
  }

  lemma Regroup(a: string, b: string, c: string, d: string)
    ensures a + b + c + d == a + (b + c + d)
  {
  }

  lemma {:induction false} RenderedLines(entries: seq<Entry>)
    requires ValidEntries(entries) && PlainNames(entries)
    ensures Lines(Rendered(entries)) == LineSeq(entries)
    decreases |entries|
  {
    if entries != [] {
      RenderedFirst(entries);
      assert entries[0] in entries && forall e :: e in entries[1..] ==> e in entries;
      LineShape(entries[0]);
      FirstLine(Line(entries[0]), Rendered(entries[1..]));
      RenderedLines(entries[1..]);
    }
  }

  lemma ReadOneLine(state: Reading, e: Entry)
    requires ValidValue(e.value) && Allowed(e.name) && '=' !in e.name && e.name != ENV_SCHEMA_NAME
    requires e.name !in state.values
    ensures ReadLine(state, Line(e)) == Some(state.(values := state.values[e.name := e.value]))
  {
    var quoted := Quote(e.value).value;
    assert Line(e) == e.name + ['='] + quoted;
    SplitOnceAt(e.name, '=', quoted);
    QuoteUnquote(e.value, quoted);
  }

  lemma ReadNextLine(state: Reading, entries: seq<Entry>, done: nat)
    requires ValidEntries(entries) && PlainNames(entries) && NamesDistinct(entries) && done < |entries|
    requires state.values == Values(entries[..done])
    ensures ReadLines(state, LineSeq(entries)[done..]) ==
              ReadLines(state.(values := Values(entries[..done + 1])), LineSeq(entries)[done + 1..])
  {
    var e, rest := entries[done], LineSeq(entries)[done..];
    assert e in entries;
    NameIsNew(entries, done);
    ReadOneLine(state, e);
    assert rest[0] == Line(e) && rest[1..] == LineSeq(entries)[done + 1..];
    assert entries[..done + 1][..done] == entries[..done];
  }

  lemma {:induction false} ReadRendered(state: Reading, entries: seq<Entry>, done: nat)
    requires ValidEntries(entries) && PlainNames(entries) && NamesDistinct(entries) && done <= |entries|
    requires state.values == Values(entries[..done])
    ensures ReadLines(state, LineSeq(entries)[done..]) == Some(state.(values := Values(entries)))
    decreases |entries| - done
  {
    if done == |entries| {
      assert entries[..done] == entries && LineSeq(entries)[done..] == [];
    } else {
      ReadNextLine(state, entries, done);
      ReadRendered(state.(values := Values(entries[..done + 1])), entries, done + 1);
    }
  }

  lemma NameIsNew(entries: seq<Entry>, done: nat)
    requires NamesDistinct(entries) && done < |entries|
    ensures entries[done].name !in Values(entries[..done])
  {
    ValuesKeys(entries[..done]);
    forall x | x in entries[..done] ensures x.name != entries[done].name {
      var i :| 0 <= i < done && entries[i] == x;
    }
  }

  lemma {:induction false} ValuesKeys(entries: seq<Entry>)
    ensures forall name :: name in Values(entries) <==> exists e :: e in entries && e.name == name
    decreases |entries|
  {
    if entries != [] {
      var front, last := entries[..|entries| - 1], entries[|entries| - 1];
      ValuesKeys(front);
      assert entries == front + [last];
    }
  }

  predicate PlainName(name: string) {
    '=' !in name && '\n' !in name && name != ENV_SCHEMA_NAME
  }

  /** What the round trip needs of the two lists of names. */
  ghost predicate Allowlist(required: seq<string>, optional: seq<string>) {
    && |required| == 11 && Distinct(required) && Distinct(optional)
    && (forall i, j :: 0 <= i < |required| && 0 <= j < |optional| ==> required[i] != optional[j])
    && (forall i :: 0 <= i < |required| ==> PlainName(required[i]))
    && (forall i :: 0 <= i < |optional| ==> PlainName(optional[i]))
  }

  lemma RequiredDistinct()
    ensures Distinct(REQUIRED_ENVIRONMENT)
  {
  }

  lemma RequiredPlain(i: nat)
    requires i < |REQUIRED_ENVIRONMENT|
    ensures PlainName(REQUIRED_ENVIRONMENT[i])
  {
    if i < 4 { RequiredPlain0(i); } else if i < 8 { RequiredPlain4(i); } else { RequiredPlain8(i); }
  }

  lemma RequiredPlain0(i: nat)
    requires i < 4
    ensures PlainName(REQUIRED_ENVIRONMENT[i])
  {
  }

  lemma RequiredPlain4(i: nat)
    requires 4 <= i < 8
    ensures PlainName(REQUIRED_ENVIRONMENT[i])
  {
  }

  lemma RequiredPlain8(i: nat)
    requires 8 <= i < |REQUIRED_ENVIRONMENT|
    ensures PlainName(REQUIRED_ENVIRONMENT[i])
  {
  }

  lemma OptionalDistinct()
    ensures Distinct(OPTIONAL_ENVIRONMENT)
  {
    // The length and the second character tell any two of the names apart.
    forall i, j | 0 <= i < j < |OPTIONAL_ENVIRONMENT| ensures OPTIONAL_ENVIRONMENT[i] != OPTIONAL_ENVIRONMENT[j] {
      var a, b := OPTIONAL_ENVIRONMENT[i], OPTIONAL_ENVIRONMENT[j];
      assert |a| != |b| || a[1] != b[1];
    }
  }

  lemma OptionalPlain(i: nat)
    requires i < |OPTIONAL_ENVIRONMENT|
    ensures PlainName(OPTIONAL_ENVIRONMENT[i])
  {
    if i < 5 { OptionalPlain0(i); } else if i < 10 { OptionalPlain5(i); }
    else if i < 15 { OptionalPlain10(i); } else { OptionalPlain15(i); }
  }

  lemma OptionalPlain0(i: nat)
    requires i < 5
    ensures PlainName(OPTIONAL_ENVIRONMENT[i])
  {
  }

  lemma OptionalPlain5(i: nat)
    requires 5 <= i < 10
    ensures PlainName(OPTIONAL_ENVIRONMENT[i])
  {
  }

  lemma OptionalPlain10(i: nat)
    requires 10 <= i < 15
    ensures PlainName(OPTIONAL_ENVIRONMENT[i])
  {
  }

  lemma OptionalPlain15(i: nat)
    requires 15 <= i < |OPTIONAL_ENVIRONMENT|
    ensures PlainName(OPTIONAL_ENVIRONMENT[i])
  {
  }

  lemma RequiredNotOptional()
    ensures forall i, j :: 0 <= i < |REQUIRED_ENVIRONMENT| && 0 <= j < |OPTIONAL_ENVIRONMENT| ==>
              REQUIRED_ENVIRONMENT[i] != OPTIONAL_ENVIRONMENT[j]
  {
  }

  lemma NamesFit()
    ensures Allowlist(REQUIRED_ENVIRONMENT, OPTIONAL_ENVIRONMENT)
  {
    RequiredDistinct();
    OptionalDistinct();
    RequiredNotOptional();
    forall i | 0 <= i < |REQUIRED_ENVIRONMENT| ensures PlainName(REQUIRED_ENVIRONMENT[i]) { RequiredPlain(i); }
    forall i | 0 <= i < |OPTIONAL_ENVIRONMENT| ensures PlainName(OPTIONAL_ENVIRONMENT[i]) { OptionalPlain(i); }
  }

  lemma {:induction false} OptionalEntriesOf(optional: map<string, string>, names: seq<string>)
    requires Distinct(names)
    ensures NamesDistinct(OptionalEntries(optional, names))
    ensures forall e :: e in OptionalEntries(optional, names) <==>
            e.name in names && e.name in optional && optional[e.name] == e.value
    decreases |names|
  {
    if names != [] {
      var front, last := names[..|names| - 1], names[|names| - 1];
      OptionalEntriesOf(optional, front);
      assert names == front + [last];
      var entries := OptionalEntries(optional, names);
      forall i, j | 0 <= i < j < |entries| ensures entries[i].name != entries[j].name {
        if j == |OptionalEntries(optional, front)| { assert entries[i] in OptionalEntries(optional, front); }
      }
    }
  }

  ghost predicate NamesOf(entries: seq<Entry>, names: seq<string>) {
    |entries| == |names| && forall i :: 0 <= i < |names| ==> entries[i].name == names[i]
  }

  /** The shape of the printed list: ten required entries, optional ones, the last required one. */
  ghost predicate Shape(entries: seq<Entry>, required: seq<string>, names: seq<string>, optional: map<string, string>) {
    && Allowlist(required, names)
    && |entries| == 11 + |OptionalEntries(optional, names)|
    && NamesOf(entries[..10], required[..10])
    && entries[10..|entries| - 1] == OptionalEntries(optional, names)
    && entries[|entries| - 1].name == required[10]
  }

  lemma EntriesShape(c: Context, keyFile: string)
    requires c.dataDir.Some? && c.webDist.Some?
    ensures Shape(Entries(c, keyFile), REQUIRED_ENVIRONMENT, OPTIONAL_ENVIRONMENT, c.optional)
  {
    NamesFit();
    var entries, optional := Entries(c, keyFile), OptionalEntries(c.optional, OPTIONAL_ENVIRONMENT);
    assert entries[10..|entries| - 1] == optional;
  }

  lemma NameAt(entries: seq<Entry>, required: seq<string>, names: seq<string>, optional: map<string, string>, i: nat)
    requires Shape(entries, required, names, optional) && i < |entries|
    ensures if 10 <= i < |entries| - 1
            then entries[i] == OptionalEntries(optional, names)[i - 10] && entries[i].name in names
              && entries[i].name !in required
            else entries[i].name == required[if i < 10 then i else 10] && entries[i].name !in names
  {
    OptionalEntriesOf(optional, names);
    if 10 <= i < |entries| - 1 {
      assert entries[10..|entries| - 1][i - 10] == entries[i];
      assert entries[i] in OptionalEntries(optional, names);
    } else if i < 10 {
      assert entries[..10][i] == entries[i];
    }
  }

  lemma ShapePlain(entries: seq<Entry>, required: seq<string>, names: seq<string>, optional: map<string, string>)
    requires Shape(entries, required, names, optional)
    ensures NamesDistinct(entries)
    ensures forall e :: e in entries ==> AllowedBy(required, names, e.name) && PlainName(e.name)
  {
    OptionalEntriesOf(optional, names);
    forall i, j | 0 <= i < j < |entries| ensures entries[i].name != entries[j].name {
      NameAt(entries, required, names, optional, i);
      NameAt(entries, required, names, optional, j);
    }
    forall e | e in entries ensures AllowedBy(required, names, e.name) && PlainName(e.name) {
      var i :| 0 <= i < |entries| && entries[i] == e;
      NameAt(entries, required, names, optional, i);
    }
  }

  lemma ShapeValues(entries: seq<Entry>, required: seq<string>, names: seq<string>, optional: map<string, string>,
                    name: string)
    requires Shape(entries, required, names, optional)
    ensures name in Values(entries) <==> name in required || (name in names && name in optional)
    ensures name in names && name in optional ==> name in Values(entries) && Values(entries)[name] == optional[name]
  {
    ValuesKeys(entries);
    ShapePlain(entries, required, names, optional);
    OptionalEntriesOf(optional, names);
    if name in Values(entries) {
      var e :| e in entries && e.name == name;
      var i :| 0 <= i < |entries| && entries[i] == e;
      NameAt(entries, required, names, optional, i);
      if 10 <= i < |entries| - 1 { assert e in OptionalEntries(optional, names); }
    }
    if name in required {
      var k :| 0 <= k < |required| && required[k] == name;
      var i := if k < 10 then k else |entries| - 1;
      NameAt(entries, required, names, optional, i);
      assert entries[i] in entries;
    }
    if name in names && name in optional {
      var e := Entry(name, optional[name]);
      assert e in entries[10..|entries| - 1];
      ValueOf(entries, e);
    }
  }

  /** The values the file is printed from, as a map. */
  function Supplied(c: Context, keyFile: string): map<string, string>
    requires c.dataDir.Some? && c.webDist.Some?
  {
    Values(Entries(c, keyFile))
  }

  /** What the context supplies: the eleven required variables, and those optional variables of
      the allowlist that it has. */
  lemma SuppliedExactly(c: Context, keyFile: string, name: string)
    requires c.dataDir.Some? && c.webDist.Some?
    ensures name in Supplied(c, keyFile) <==>
            name in REQUIRED_ENVIRONMENT || (name in OPTIONAL_ENVIRONMENT && name in c.optional)
    ensures name in OPTIONAL_ENVIRONMENT && name in c.optional ==>
              name in Supplied(c, keyFile) && Supplied(c, keyFile)[name] == c.optional[name]
  {
    EntriesShape(c, keyFile);
    ShapeValues(Entries(c, keyFile), REQUIRED_ENVIRONMENT, OPTIONAL_ENVIRONMENT, c.optional, name);
  }

  /** Each required variable has the value of its context field. */
  lemma RequiredExactly(c: Context, keyFile: string, e: Entry)
    requires c.dataDir.Some? && c.webDist.Some?
    requires e in [Entry("HOME", c.home), Entry("XDG_CONFIG_HOME", c.configHome),
                   Entry("XDG_RUNTIME_DIR", c.runtimeDir),
                   Entry("DBUS_SESSION_BUS_ADDRESS", c.busAddress), Entry("PATH", c.path), Entry("SHELL", c.shell),
                   Entry("DEVHATCH_BIND", c.bind), Entry("DEVHATCH_DATA_DIR", c.dataDir.value),
                   Entry("DEVHATCH_WEB_DIST", c.webDist.value), Entry("DEVHATCH_CWD", c.cwd),
                   Entry("BYTE_API_API_KEY_FILE", keyFile)]
    ensures e.name in Supplied(c, keyFile) && Supplied(c, keyFile)[e.name] == e.value
  {
    EntriesShape(c, keyFile);
    ShapePlain(Entries(c, keyFile), REQUIRED_ENVIRONMENT, OPTIONAL_ENVIRONMENT, c.optional);
    EntryPresent(c, keyFile, e);
    ValueOf(Entries(c, keyFile), e);
  }

  lemma EntryPresent(c: Context, keyFile: string, e: Entry)
    requires c.dataDir.Some? && c.webDist.Some?
    requires e in [Entry("HOME", c.home), Entry("XDG_CONFIG_HOME", c.configHome),
                   Entry("XDG_RUNTIME_DIR", c.runtimeDir),
                   Entry("DBUS_SESSION_BUS_ADDRESS", c.busAddress), Entry("PATH", c.path), Entry("SHELL", c.shell),
                   Entry("DEVHATCH_BIND", c.bind), Entry("DEVHATCH_DATA_DIR", c.dataDir.value),
                   Entry("DEVHATCH_WEB_DIST", c.webDist.value), Entry("DEVHATCH_CWD", c.cwd),
                   Entry("BYTE_API_API_KEY_FILE", keyFile)]
    ensures e in Entries(c, keyFile)
  {
  }

  lemma {:induction false} ValueOf(entries: seq<Entry>, e: Entry)
    requires NamesDistinct(entries) && e in entries
    ensures e.name in Values(entries) && Values(entries)[e.name] == e.value
    decreases |entries|
  {
    var front, last := entries[..|entries| - 1], entries[|entries| - 1];
    assert entries == front + [last];
    if e != last {
      assert e in front;
      ValueOf(front, e);
      var i :| 0 <= i < |front| && front[i] == e;
      assert entries[i].name != entries[|entries| - 1].name;
    }
  }

  /** Parsing what was printed gives back exactly the supplied map, subject only to the path check,
      and the printed file carries the managed marker. */
  lemma PrintParse(c: Context, keyFile: string, content: string)
    requires c.dataDir.Some? && c.webDist.Some? && ValidEntries(Entries(c, keyFile))
    requires content == ENV_SCHEMA + "\n" + Rendered(Entries(c, keyFile))
    ensures ReadLines(Reading(map[], false), Lines(content)) == Some(Reading(Supplied(c, keyFile), true))
    ensures Complete(Reading(Supplied(c, keyFile), true)) && ManagedContent(content)
  {
    var entries := Entries(c, keyFile);
    EntriesShape(c, keyFile);
    ShapePlain(entries, REQUIRED_ENVIRONMENT, OPTIONAL_ENVIRONMENT, c.optional);
    EntriesReadBack(entries, content);
    forall name | name in REQUIRED_ENVIRONMENT
      ensures name in Supplied(c, keyFile)
    {
      SuppliedExactly(c, keyFile, name);
    }
    AcceptedIsManaged(content, Supplied(c, keyFile));
  }

  lemma EntriesReadBack(entries: seq<Entry>, content: string)
    requires ValidEntries(entries) && PlainNames(entries) && NamesDistinct(entries)
    requires content == ENV_SCHEMA + "\n" + Rendered(entries)
    ensures ReadLines(Reading(map[], false), Lines(content)) == Some(Reading(Values(entries), true))
  {
    SchemaLine();
    FirstLine(ENV_SCHEMA, Rendered(entries));
    RenderedLines(entries);
    var lines := Lines(content);
    assert lines[0] == ENV_SCHEMA && lines[1..] == LineSeq(entries)[0..];
    assert entries[..0] == [];
    ReadRendered(Reading(map[], true), entries, 0);
  }

  lemma SchemaLine()
    ensures '\n' !in ENV_SCHEMA && ENV_SCHEMA != [] && ENV_SCHEMA[|ENV_SCHEMA| - 1] == '"'
    ensures ReadLine(Reading(map[], false), ENV_SCHEMA) == Some(Reading(map[], true))
  {
    SchemaText();
    SchemaParts(ENV_SCHEMA, ENV_SCHEMA_NAME, "\"1\"");
  }

  lemma SchemaParts(line: string, name: string, encoded: string)
    requires line == name + ['='] + encoded && '=' !in name
    requires name == ENV_SCHEMA_NAME && encoded == "\"1\""
    ensures ReadLine(Reading(map[], false), line) == Some(Reading(map[], true))
  {
    SplitOnceAt(name, '=', encoded);
  }

  lemma SchemaText()
    ensures ENV_SCHEMA == ENV_SCHEMA_NAME + ['='] + "\"1\""
    ensures '=' !in ENV_SCHEMA_NAME && '\n' !in ENV_SCHEMA && ENV_SCHEMA[|ENV_SCHEMA| - 1] == '"'
  {
  }

  // ----- The marker by which a file is recognised as managed -----

  /** The lines with a prefix. */
  function Starting(prefix: string, lines: seq<string>): seq<string> {
    if lines == [] then []
    else (if prefix <= lines[0] then [lines[0]] else []) + Starting(prefix, lines[1..])
  }

  /** managed_environment_content: the schema line occurs exactly once. */
  predicate ManagedContent(content: string) {
    Starting(ENV_SCHEMA_NAME + "=", Lines(content)) == [ENV_SCHEMA]
  }

  lemma SchemaLineName(line: string, prefix: string)
    requires prefix == ENV_SCHEMA_NAME + "=" && '=' !in ENV_SCHEMA_NAME
    ensures prefix <= line <==> SplitOnce(line, '=').Some? && SplitOnce(line, '=').value.0 == ENV_SCHEMA_NAME
  {
    if prefix <= line {
      var rest := line[|prefix|..];
      assert line == ENV_SCHEMA_NAME + ['='] + rest;
      SplitOnceAt(ENV_SCHEMA_NAME, '=', rest);
    }
    if SplitOnce(line, '=').Some? { SplitOnceParts(line, '='); }
  }

  lemma {:induction false} ReadSchemaLines(state: Reading, lines: seq<string>)
    requires ReadLines(state, lines).Some?
    ensures state.schema ==> ReadLines(state, lines).value.schema
    ensures Starting(ENV_SCHEMA_NAME + "=", lines) ==
            if ReadLines(state, lines).value.schema && !state.schema then [ENV_SCHEMA] else []
    decreases |lines|
  {
    if lines != [] {
      var line := lines[0];
      SchemaText();
      SchemaLineName(line, ENV_SCHEMA_NAME + "=");
      SplitOnceParts(line, '=');
      ReadSchemaLines(ReadLine(state, line).value, lines[1..]);
    }
  }

  /** Every file that the parser accepts is recognised as managed. */
  lemma AcceptedIsManaged(content: string, values: map<string, string>)
    requires ReadLines(Reading(map[], false), Lines(content)) == Some(Reading(values, true))
    ensures ManagedContent(content)
  {
    ReadSchemaLines(Reading(map[], false), Lines(content));
  }
}
