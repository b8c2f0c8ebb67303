/**
 Which environment files the parser accepts: those that the printer could have written, but for the
 order of their lines.
 */
module EnvironmentGrammar {
  import opened Prelude
  import opened Sorting
  import opened Strings
  import opened EnvironmentFile

  /** The line gives the variable, which the allowlist has, this value in the printer's quoting. */
  ghost predicate Sets(line: string, name: string, value: string) {
    Allowed(name) && Quote(value).Ok? && line == name + "=" + Quote(value).value
  }

  lemma AllowedNamesPlain(name: string)
    requires Allowed(name)
    ensures '=' !in name && name != ENV_SCHEMA_NAME
  {
    NamesFit();
  }

  lemma SetsSplits(line: string, name: string, value: string)
    ensures Sets(line, name, value) <==>
            Allowed(name) && SplitOnce(line, '=').Some? && SplitOnce(line, '=').value.0 == name
            && Unquoted(SplitOnce(line, '=').value.1) == Some(value)
  {
    if Allowed(name) { AllowedNamesPlain(name); }
    if Sets(line, name, value) {
      var quoted := Quote(value).value;
      assert line == name + ['='] + quoted;
      SplitOnceAt(name, '=', quoted);
      QuoteUnquote(value, quoted);
    }
    if SplitOnce(line, '=').Some? {
      SplitOnceParts(line, '=');
      QuoteUnquote(value, SplitOnce(line, '=').value.1);
    }
  }

  lemma SchemaSplits(line: string)
    ensures line == ENV_SCHEMA <==>
            SplitOnce(line, '=').Some? && SplitOnce(line, '=').value == (ENV_SCHEMA_NAME, "\"1\"")
  {
    SchemaText();
    hide *;
    SplitOnceAt(ENV_SCHEMA_NAME, '=', "\"1\"");
    if SplitOnce(line, '=').Some? { SplitOnceParts(line, '='); }
  }

  lemma SetsOnce(line: string, name: string, value: string, other: string, w: string)
    requires Sets(line, name, value)
    ensures line != ENV_SCHEMA && (Sets(line, other, w) ==> other == name && w == value)
  {
    SetsSplits(line, name, value);
    SetsSplits(line, other, w);
    SchemaSplits(line);
    AllowedNamesPlain(name);
  }

  /** One line is accepted exactly when it is the first schema line or the first to set a variable. */
  lemma ReadsLine(state: Reading, line: string, next: Reading)
    ensures ReadLine(state, line) == Some(next) <==>
            || (line == ENV_SCHEMA && !state.schema && next == state.(schema := true))
            || (exists name, value :: Sets(line, name, value) && name !in state.values
                                      && next == state.(values := state.values[name := value]))
  {
    hide ENV_SCHEMA_NAME, ENV_SCHEMA, REQUIRED_ENVIRONMENT, OPTIONAL_ENVIRONMENT, SplitOnce, Unquoted, Sets, AllowedBy;
    SchemaSplits(line);
    forall name, value ensures Sets(line, name, value) <==>
      Allowed(name) && SplitOnce(line, '=').Some? && SplitOnce(line, '=').value.0 == name
      && Unquoted(SplitOnce(line, '=').value.1) == Some(value)
    {
      SetsSplits(line, name, value);
    }
    forall name | Allowed(name) ensures name != ENV_SCHEMA_NAME { AllowedNamesPlain(name); }
  }

  ghost predicate SetsSome(line: string) {
    exists name, value :: Sets(line, name, value)
  }

  /** Each line is the schema line or sets a variable. */
  ghost predicate Grammatical(lines: seq<string>) {
    forall i :: 0 <= i < |lines| ==> lines[i] == ENV_SCHEMA || SetsSome(lines[i])
  }

  /** The schema line occurs once at most and no variable is set twice, nor what is there before. */
  ghost predicate OnceEach(state: Reading, lines: seq<string>) {
    && (forall i, j :: 0 <= i < j < |lines| ==> lines[i] != ENV_SCHEMA || lines[j] != ENV_SCHEMA)
    && (state.schema ==> ENV_SCHEMA !in lines)
    && (forall i, j, name, v, w :: 0 <= i < j < |lines| ==> !(Sets(lines[i], name, v) && Sets(lines[j], name, w)))
    && (forall i, name, v :: 0 <= i < |lines| && Sets(lines[i], name, v) ==> name !in state.values)
  }

  predicate Holds(values: map<string, string>, name: string, value: string) {
    name in values && values[name] == value
  }

  ghost predicate SetsIn(lines: seq<string>, name: string, value: string) {
    exists i :: 0 <= i < |lines| && Sets(lines[i], name, value)
  }

  /** The values read are those set, added to what is there before. */
  ghost predicate Gathers(state: Reading, lines: seq<string>, end: Reading) {
    && end.schema == (state.schema || ENV_SCHEMA in lines)
    && forall name, value ::
         Holds(end.values, name, value) <==> Holds(state.values, name, value) || SetsIn(lines, name, value)
  }

  lemma SameValues(a: map<string, string>, b: map<string, string>)
    requires forall name, value :: Holds(a, name, value) <==> Holds(b, name, value)
    ensures a == b
  {
    forall name ensures name in a <==> name in b && (name in a ==> a[name] == b[name]) {
      if name in a { assert Holds(a, name, a[name]); }
      if name in b { assert Holds(b, name, b[name]); }
    }
  }

  lemma GathersNothing(state: Reading, end: Reading)
    ensures Gathers(state, [], end) <==> state == end
  {
    hide Holds;
    if Gathers(state, [], end) {
      forall name, value ensures !SetsIn([], name, value) {}
      SameValues(end.values, state.values);
    }
  }

  /** The line is accepted in this state, and leads to the next. */
  ghost predicate Accepts(state: Reading, line: string, next: Reading) {
    || (line == ENV_SCHEMA && !state.schema && next == state.(schema := true))
    || (exists name, value :: Sets(line, name, value) && name !in state.values
                              && next == state.(values := state.values[name := value]))
  }

  lemma GrammaticalFirst(first: string, rest: seq<string>)
    ensures Grammatical([first] + rest) <==> (first == ENV_SCHEMA || SetsSome(first)) && Grammatical(rest)
  {
    hide Sets, SetsSome, ENV_SCHEMA;
    var lines := [first] + rest;
    assert lines[0] == first && forall i :: 0 <= i < |rest| ==> lines[i + 1] == rest[i];
  }

  /** No line of the rest is the schema line again, or sets what the first line sets. */
  ghost predicate NotAgain(first: string, rest: seq<string>) {
    && (first == ENV_SCHEMA ==> ENV_SCHEMA !in rest)
    && forall i, name, v, w :: 0 <= i < |rest| ==> !(Sets(first, name, v) && Sets(rest[i], name, w))
  }

  ghost predicate New(state: Reading, line: string) {
    (state.schema ==> line != ENV_SCHEMA) && forall name, v :: Sets(line, name, v) ==> name !in state.values
  }

  lemma OnceEachFirst(state: Reading, first: string, rest: seq<string>)
    ensures OnceEach(state, [first] + rest) <==>
            NotAgain(first, rest) && New(state, first) && OnceEach(state, rest)
  {
    hide Sets, ENV_SCHEMA;
    var lines := [first] + rest;
    assert lines[0] == first && forall i :: 0 <= i < |rest| ==> lines[i + 1] == rest[i];
    forall i, j | 0 <= i < j < |lines| ensures lines[j] == rest[j - 1] && (i > 0 ==> lines[i] == rest[i - 1]) {}
  }

  lemma SetsInFirst(first: string, rest: seq<string>, name: string, value: string)
    ensures SetsIn([first] + rest, name, value) <==> Sets(first, name, value) || SetsIn(rest, name, value)
  {
    hide Sets;
    var lines := [first] + rest;
    assert lines[0] == first && forall i :: 0 <= i < |rest| ==> lines[i + 1] == rest[i];
  }

  lemma GathersFirst(state: Reading, first: string, rest: seq<string>, next: Reading, end: Reading)
    requires Accepts(state, first, next)
    ensures Gathers(state, [first] + rest, end) <==> Gathers(next, rest, end)
  {
    hide Sets, ENV_SCHEMA, SetsIn, Holds;
    assert next.schema == (state.schema || first == ENV_SCHEMA) by { SetsNotSchema(first); }
    forall name, value
      ensures SetsIn([first] + rest, name, value) <==> Sets(first, name, value) || SetsIn(rest, name, value)
    {
      SetsInFirst(first, rest, name, value);
    }
    forall name, value
      ensures Holds(next.values, name, value) <==> Holds(state.values, name, value) || Sets(first, name, value)
    {
      AcceptedHolds(state, first, next, name, value);
    }
  }

  lemma SetsNotSchema(line: string)
    ensures SetsSome(line) ==> line != ENV_SCHEMA
  {
    if SetsSome(line) {
      var name, value :| Sets(line, name, value);
      SetsOnce(line, name, value, name, value);
    }
  }

  lemma AcceptedHolds(state: Reading, line: string, next: Reading, name: string, value: string)
    requires Accepts(state, line, next)
    ensures Holds(next.values, name, value) <==> Holds(state.values, name, value) || Sets(line, name, value)
  {
    hide Sets, ENV_SCHEMA;
    SetsNotSchema(line);
    if SetsSome(line) {
      var n, v :| Sets(line, n, v) && n !in state.values && next == state.(values := state.values[n := v]);
      SetsOnce(line, n, v, name, value);
    }
  }

  lemma NextOnce(state: Reading, first: string, rest: seq<string>, next: Reading)
    requires Accepts(state, first, next)
    ensures (first == ENV_SCHEMA || SetsSome(first)) && New(state, first)
    ensures OnceEach(next, rest) <==> NotAgain(first, rest) && OnceEach(state, rest)
  {
    hide Sets, ENV_SCHEMA;
    SetsNotSchema(first);
    if SetsSome(first) {
      var n, v :| Sets(first, n, v) && n !in state.values && next == state.(values := state.values[n := v]);
      forall name, w | Sets(first, name, w) ensures name == n { SetsOnce(first, n, v, name, w); }
    }
  }

  lemma RefusedLine(state: Reading, line: string)
    requires ReadLine(state, line).None?
    ensures !((line == ENV_SCHEMA || SetsSome(line)) && New(state, line))
  {
    hide ReadLine, Sets, ENV_SCHEMA;
    if line == ENV_SCHEMA {
      ReadsLine(state, line, state.(schema := true));
    } else if SetsSome(line) {
      var n, v :| Sets(line, n, v);
      ReadsLine(state, line, state.(values := state.values[n := v]));
    }
  }

  /** Whatever has been read before, the parser accepts exactly such lines, and reads exactly that. */
  lemma {:induction false} ReadsLines(state: Reading, lines: seq<string>, end: Reading)
    ensures ReadLines(state, lines) == Some(end) <==>
            Grammatical(lines) && OnceEach(state, lines) && Gathers(state, lines, end)
    decreases |lines|
  {
    hide ReadLine, Sets, ENV_SCHEMA, Gathers, OnceEach, Grammatical, NotAgain, New;
    if lines == [] {
      NothingToRead(state, end);
    } else {
      var first, rest := lines[0], lines[1..];
      assert lines == [first] + rest;
      GrammaticalFirst(first, rest);
      OnceEachFirst(state, first, rest);
      if ReadLine(state, first).Some? {
        var next := ReadLine(state, first).value;
        ReadsLine(state, first, next);
        NextOnce(state, first, rest, next);
        GathersFirst(state, first, rest, next, end);
        ReadsLines(next, rest, end);
      } else {
        RefusedLine(state, first);
      }
    }
  }

  lemma NothingToRead(state: Reading, end: Reading)
    ensures Grammatical([]) && OnceEach(state, [])
    ensures Gathers(state, [], end) <==> state == end
  {
    GathersNothing(state, end);
  }

  /** A file is accepted exactly when every line is the schema line or gives a variable of the
      allowlist a quoted value, the schema line occurs once, no variable is given two values, all
      required ones are given one, and the path check passes; the order of the lines is free. */
  lemma ParsesExactly(content: string, pathsValid: map<string, string> -> bool, values: map<string, string>,
                      r: Result<map<string, string>, ()>)
    requires r == Ok(values) <==>
             && ReadLines(Reading(map[], false), Lines(content)) == Some(Reading(values, true))
             && Complete(Reading(values, true)) && pathsValid(values)
    ensures var lines := Lines(content);
            r == Ok(values) <==>
            && Grammatical(lines)
            && (exists k :: 0 <= k < |lines| && lines[k] == ENV_SCHEMA
                            && forall i :: 0 <= i < |lines| && lines[i] == ENV_SCHEMA ==> i == k)
            && (forall i, j, name, v, w :: 0 <= i < j < |lines| ==>
                  !(Sets(lines[i], name, v) && Sets(lines[j], name, w)))
            && (forall name, value :: Holds(values, name, value) <==> SetsIn(lines, name, value))
            && (forall name :: name in REQUIRED_ENVIRONMENT ==> name in values) && pathsValid(values)
  {
    hide Sets, ENV_SCHEMA, REQUIRED_ENVIRONMENT, Grammatical, SetsIn;
    ReadsLines(Reading(map[], false), Lines(content), Reading(values, true));
  }

  /** A quotation mark and a backslash each get a backslash before them; the value is put in
      quotation marks. */
  lemma QuotedAsWritten()
    ensures Quote("a\"b\\c") == Ok("\"a\\\"b\\\\c\"")
  {
    var v := "a\"b\\c";
    TwoPassesEscape(v);
    assert v[1..] == "\"b\\c" && v[1..][1..] == "b\\c" && v[1..][1..][1..] == "\\c";
    assert "\\c"[1..] == "c" && "c"[1..] == "";
    assert Escaped("c") == "c";
    assert Escaped("\\c") == "\\\\c";
    assert Escaped("b\\c") == "b\\\\c" by { assert "b\\c"[1..] == "\\c"; }
    assert Escaped("\"b\\c") == "\\\"b\\\\c" by { assert "\"b\\c"[1..] == "b\\c"; }
    assert Escaped(v) == "a\\\"b\\\\c";
    assert ValidValue(v);
    assert "\"" + "a\\\"b\\\\c" + "\"" == "\"a\\\"b\\\\c\"";
  }
}
