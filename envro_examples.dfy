/** The crate's own test cases, and a few more files, worked through the model. */
module EnvroExamples {
  import opened Strings
  import opened Envro
  import opened EnvroProperties

  /** A text without line feeds is a file of one line. */
  lemma OneLineFile(fileName: Option<string>, text: string, env: Vars)
    requires text != [] && '\n' !in text
    ensures Load(fileName, Content(text), env) == Apply([ParseLine(text)], map[], env)
  {
    SplitUnseparated(text, '\n');
    assert Lines(text) == [text];
    assert Classify([text]) == [ParseLine(text)];
  }

  /** Three pieces joined by line feeds split back into those pieces. */
  lemma SplitThree(a: string, b: string, c: string)
    requires '\n' !in a && '\n' !in b && '\n' !in c
    ensures Split(a + "\n" + b + "\n" + c, '\n') == [a, b, c]
  {
    assert a + "\n" + b + "\n" + c == a + ['\n'] + (b + ['\n'] + c);
    SplitPair(b, '\n', c);
    SplitAfterPiece(a, '\n', b + ['\n'] + c);
    assert [a] + [b, c] == [a, b, c];
  }

  /** Three lines joined by line feeds are read back as those three lines. */
  lemma ThreeLineFile(fileName: Option<string>, a: string, b: string, c: string, env: Vars)
    requires '\n' !in a && '\n' !in b && '\n' !in c
    requires c != [] && !EndsWith(a, '\r') && !EndsWith(b, '\r')
    ensures Load(fileName, Content(a + "\n" + b + "\n" + c), env)
      == Apply([ParseLine(a), ParseLine(b), ParseLine(c)], map[], env)
  {
    SplitThree(a, b, c);
    LinesOfPieces(a + "\n" + b + "\n" + c, [a, b, c]);
    assert Classify([a, b, c]) == [ParseLine(a), ParseLine(b), ParseLine(c)];
  }

  /** A single accepted line. */
  lemma ApplyOne(o: LineOutcome, env: Vars)
    requires o.Entry?
    ensures Apply([o], map[], env) == Run(Ok(map[o.key := o.raw]), env[o.key := o.value])
  {
    assert [o][1..] == [];
  }

  /** A first line that is rejected. */
  lemma ApplyRejected(line: string, env: Vars)
    requires ParseLine(line) == Invalid(line)
    ensures Apply([ParseLine(line)], map[], env) == Run(Err(Parse(line)), env)
  {
  }

  /** An empty first line, then two accepted lines. */
  lemma ApplySkipThenTwo(o1: LineOutcome, o2: LineOutcome, env: Vars)
    requires o1.Entry? && o2.Entry?
    ensures Apply([Skip, o1, o2], map[], env)
      == Run(Ok(map[o1.key := o1.raw][o2.key := o2.raw]), env[o1.key := o1.value][o2.key := o2.value])
  {
    assert [Skip, o1, o2][1..] == [o1, o2];
    assert [o1, o2][1..] == [o2];
    assert [o2][1..] == [];
    var v1, e1 := map[o1.key := o1.raw], env[o1.key := o1.value];
    assert Apply([o2], v1, e1) == Run(Ok(v1[o2.key := o2.raw]), e1[o2.key := o2.value]);
    assert Apply([o1, o2], map[], env) == Apply([o2], v1, e1);
  }

  /** An empty line, an accepted line, a skipped line. */
  lemma ApplySkipOneSkip(o: LineOutcome, env: Vars)
    requires o.Entry?
    ensures Apply([Skip, o, Skip], map[], env) == Run(Ok(map[o.key := o.raw]), env[o.key := o.value])
  {
    assert [Skip, o, Skip][1..] == [o, Skip];
    assert [o, Skip][1..] == [Skip];
    assert [Skip][1..] == [];
    var v1, e1 := map[o.key := o.raw], env[o.key := o.value];
    assert Apply([Skip], v1, e1) == Run(Ok(v1), e1);
    assert Apply([o, Skip], map[], env) == Apply([Skip], v1, e1);
  }

  /** A value in quotes with no backslash in it loses just the quotes. */
  lemma QuotedPlain(inner: string)
    requires '\\' !in inner
    ensures Unquoted("\"" + inner + "\"") == inner
  {
    var raw := "\"" + inner + "\"";
    assert raw[0] == '"' && |raw| >= 2;
    assert raw[1..|raw| - 1] == inner;
    assert Unescape(inner) == inner;
  }

  /** A line that `lines` gives back whole and `trim` leaves alone. */
  predicate Plain(line: string) {
    && line != [] && '\n' !in line && !EndsWith(line, '\r')
    && !IsWhitespace(line[0]) && !IsWhitespace(line[|line| - 1])
  }

  /** An accepted assignment whose key is not a comment. */
  predicate PlainAssignment(line: string, key: string, raw: string) {
    Plain(line) && Assignment(line, key, raw) && key[0] != '#'
  }

  /** An unpadded assignment line is accepted as it stands. */
  lemma AcceptedLine(line: string, key: string, raw: string)
    requires PlainAssignment(line, key, raw)
    ensures ParseLine(line) == Entry(key, raw, Unquoted(raw))
  {
    TrimmedAccepted(line, key, raw);
    UnpaddedLine(line);
  }

  /** An unpadded comment line is skipped. */
  lemma CommentLine(line: string)
    requires Plain(line) && IsComment(line)
    ensures ParseLine(line) == Skip
  {
    UnpaddedLine(line);
  }

  /** A file of one accepted line. */
  lemma OneAccepted(line: string, key: string, raw: string, env: Vars)
    requires PlainAssignment(line, key, raw)
    ensures Load(None, Content(line), env) == Run(Ok(map[key := raw]), env[key := Unquoted(raw)])
  {
    OneLineFile(None, line, env);
    AcceptedLine(line, key, raw);
    ApplyOne(ParseLine(line), env);
  }

  /** A file of one rejected line. */
  lemma OneRejected(line: string, env: Vars)
    requires Plain(line) && ParseTrimmed(line) == Invalid(line)
    ensures Load(None, Content(line), env) == Run(Err(Parse(line)), env)
  {
    OneLineFile(None, line, env);
    UnpaddedLine(line);
    ApplyRejected(line, env);
  }

  /** A file of an empty line and two accepted lines. */
  lemma BlankThenTwo(a: string, ka: string, ra: string, b: string, kb: string, rb: string, env: Vars)
    requires PlainAssignment(a, ka, ra) && PlainAssignment(b, kb, rb)
    ensures Load(None, Content("\n" + a + "\n" + b), env)
      == Run(Ok(map[ka := ra][kb := rb]), env[ka := Unquoted(ra)][kb := Unquoted(rb)])
  {
    assert "\n" + a + "\n" + b == "" + "\n" + a + "\n" + b;
    ThreeLineFile(None, "", a, b, env);
    AcceptedLine(a, ka, ra);
    AcceptedLine(b, kb, rb);
    ApplySkipThenTwo(ParseLine(a), ParseLine(b), env);
  }

  /** A file of an empty line, an accepted line and a comment. */
  lemma BlankThenComment(a: string, ka: string, ra: string, b: string, env: Vars)
    requires PlainAssignment(a, ka, ra) && Plain(b) && IsComment(b)
    ensures Load(None, Content("\n" + a + "\n" + b), env)
      == Run(Ok(map[ka := ra]), env[ka := Unquoted(ra)])
  {
    assert "\n" + a + "\n" + b == "" + "\n" + a + "\n" + b;
    ThreeLineFile(None, "", a, b, env);
    AcceptedLine(a, ka, ra);
    CommentLine(b);
    ApplySkipOneSkip(ParseLine(a), env);
  }

  /** `should_load_a_simple_dotenv_file`: after `load_dotenv_in_env_vars` writes
      the returned map over the environment, `VAR` is `value`. */
  lemma LoadsSimpleFile(env: Vars)
    ensures var run := Load(None, Content("VAR=value"), env);
      && run == Run(Ok(map["VAR" := "value"]), env["VAR" := "value"])
      && run.env + run.outcome.value == env["VAR" := "value"]
  {
    assert PlainAssignment("VAR=value", "VAR", "value");
    OneAccepted("VAR=value", "VAR", "value", env);
    OverrideSingle(env, "VAR", "value", "value");
  }

  /** Writing a one-pair map over an environment that already holds that key. */
  lemma OverrideSingle(env: Vars, key: string, v: string, w: string)
    ensures env[key := v] + map[key := w] == env[key := w]
  {
  }

  /** `should_handle_error_on_non_existing_dotenv_file` and its variant for an
      empty name: a file that cannot be read is reported by its name, and the
      environment is left as it was. */
  lemma ReportsUnreadableFile(name: string, env: Vars)
    ensures Load(Some(name), ReadFailed, env) == Run(Err(File(name)), env)
    ensures Load(None, ReadFailed, env) == Run(Err(File("unknow file name")), env)
  {
  }

  /** `should_handle_error_on_invalid_dotenv_line`. */
  lemma RejectsLineWithoutEquals(env: Vars)
    ensures Load(None, Content("VAR value"), env) == Run(Err(Parse("VAR value")), env)
  {
    var line := "VAR value";
    assert Plain(line) && !IsComment(line) && '=' !in line;
    MissingEqualsRejected(line);
    OneRejected(line, env);
  }

  /** `should_handle_error_on_invalid_dotenv_var`. */
  lemma RejectsEmptyKey(env: Vars)
    ensures Load(None, Content("=value"), env) == Run(Err(Parse("=value")), env)
  {
    var line := "=value";
    assert Plain(line) && StartsWith(line, '=');
    EmptyKeyRejected(line);
    OneRejected(line, env);
  }

  /** `should_handle_error_on_invalid_dotenv_value`. */
  lemma RejectsEmptyValue(env: Vars)
    ensures Load(None, Content("VAR="), env) == Run(Err(Parse("VAR=")), env)
  {
    var line := "VAR=";
    assert Plain(line) && !IsComment(line) && EndsWith(line, '=');
    EmptyValueRejected(line);
    OneRejected(line, env);
  }

  /** `should_handle_empty_lines`. */
  lemma SkipsEmptyLines(env: Vars)
    ensures Load(None, Content("\n" + "VAR=1" + "\n" + "VAR1=asd"), env)
      == Run(Ok(map["VAR" := "1"]["VAR1" := "asd"]), env["VAR" := "1"]["VAR1" := "asd"])
  {
    var a, b := "VAR=1", "VAR1=asd";
    assert PlainAssignment(a, "VAR", "1") && PlainAssignment(b, "VAR1", "asd");
    BlankThenTwo(a, "VAR", "1", b, "VAR1", "asd", env);
  }

  /** `should_handle_comment_lines`: the commented assignment reaches neither the
      map nor the environment. */
  lemma SkipsCommentLines(env: Vars)
    requires "VAR1" !in env
    ensures var run := Load(None, Content("\n" + "VAR=1" + "\n" + "#VAR1=asd"), env);
      && run == Run(Ok(map["VAR" := "1"]), env["VAR" := "1"])
      && "VAR1" !in run.env
  {
    var a, b := "VAR=1", "#VAR1=asd";
    assert PlainAssignment(a, "VAR", "1") && Plain(b) && IsComment(b);
    BlankThenComment(a, "VAR", "1", b, env);
  }

  /** The file of `should_handle_quoted_values`, before the values are worked out. */
  lemma QuotedFile(env: Vars)
    ensures Load(None, Content("\n" + "VAR1=\"1\"" + "\n" + "VAR2=\"Lorem ipsum \"ciao!\" \""), env)
      == Run(Ok(map["VAR1" := "\"1\""]["VAR2" := "\"Lorem ipsum \"ciao!\" \""]),
             env["VAR1" := Unquoted("\"1\"")]["VAR2" := Unquoted("\"Lorem ipsum \"ciao!\" \"")])
  {
    QuotedFileFirstLine();
    QuotedFileSecondLine();
    BlankThenTwo("VAR1=\"1\"", "VAR1", "\"1\"",
      "VAR2=\"Lorem ipsum \"ciao!\" \"", "VAR2", "\"Lorem ipsum \"ciao!\" \"", env);
  }

  /** The lines of `should_handle_quoted_values` are plain assignments. */
  lemma QuotedFileFirstLine()
    ensures PlainAssignment("VAR1=\"1\"", "VAR1", "\"1\"")
  {
  }

  lemma QuotedFileSecondLine()
    ensures PlainAssignment("VAR2=\"Lorem ipsum \"ciao!\" \"", "VAR2", "\"Lorem ipsum \"ciao!\" \"")
  {
    var line := "VAR2=\"Lorem ipsum \"ciao!\" \"";
    assert Plain(line);
    assert Assignment(line, "VAR2", "\"Lorem ipsum \"ciao!\" \"");
  }

  /** The values of `should_handle_quoted_values`. */
  lemma QuotedFileValues()
    ensures Unquoted("\"1\"") == "1"
    ensures Unquoted("\"Lorem ipsum \"ciao!\" \"") == "Lorem ipsum \"ciao!\" "
  {
    assert "\"1\"" == "\"" + "1" + "\"" && '\\' !in "1";
    assert "\"Lorem ipsum \"ciao!\" \"" == "\"" + "Lorem ipsum \"ciao!\" " + "\"";
    assert '\\' !in "Lorem ipsum \"ciao!\" ";
    QuotedPlain("1");
    QuotedPlain("Lorem ipsum \"ciao!\" ");
  }

  /** `should_handle_quoted_values`: the outer quotes go, the inner ones stay. */
  lemma UnquotesValues(env: Vars)
    ensures Load(None, Content("\n" + "VAR1=\"1\"" + "\n" + "VAR2=\"Lorem ipsum \"ciao!\" \""), env)
      == Run(Ok(map["VAR1" := "\"1\""]["VAR2" := "\"Lorem ipsum \"ciao!\" \""]),
             env["VAR1" := "1"]["VAR2" := "Lorem ipsum \"ciao!\" "])
  {
    QuotedFile(env);
    QuotedFileValues();
  }

  /** A quoted value reaches the environment without its quotes after
      `load_dotenv`, and with them once `load_dotenv_in_env_vars` writes the
      returned map over it. */
  lemma QuotesComeBack(env: Vars)
    ensures var run := Load(None, Content("VAR=\"x\""), env);
      && run == Run(Ok(map["VAR" := "\"x\""]), env["VAR" := "x"])
      && run.env + run.outcome.value == env["VAR" := "\"x\""]
  {
    QuotedLineFile(env);
    QuotedLineValue();
    OverrideSingle(env, "VAR", "x", "\"x\"");
  }

  /** The file of `QuotesComeBack`, before its value is worked out. */
  lemma QuotedLineFile(env: Vars)
    ensures Load(None, Content("VAR=\"x\""), env)
      == Run(Ok(map["VAR" := "\"x\""]), env["VAR" := Unquoted("\"x\"")])
  {
    assert PlainAssignment("VAR=\"x\"", "VAR", "\"x\"");
    OneAccepted("VAR=\"x\"", "VAR", "\"x\"", env);
  }

  /** The value of `QuotesComeBack`. */
  lemma QuotedLineValue()
    ensures Unquoted("\"x\"") == "x"
  {
    assert "\"x\"" == "\"" + "x" + "\"" && '\\' !in "x";
    QuotedPlain("x");
  }

  /** A connection string in quotes is still split at every `=` and rejected. */
  lemma RejectsEqualsInsideQuotes(env: Vars)
    ensures var line := "VAR" + "=" + "\"host" + "=" + "localhost;user=admin\"";
      Load(None, Content(line), env) == Run(Err(Parse(line)), env)
  {
    var line := "VAR" + "=" + "\"host" + "=" + "localhost;user=admin\"";
    assert Plain(line) && !IsComment(line);
    TwoSeparators("VAR", "\"host", "localhost;user=admin\"");
    ExtraEqualsRejected(line);
    OneRejected(line, env);
  }

  /** A file of one line whose value is a lone `"`. */
  lemma OnePanics(line: string, key: string, env: Vars)
    requires Plain(line) && line == key + "=\""
    requires key != [] && key[0] != '#' && '=' !in key
    ensures Load(None, Content(line), env) == Run(Panicked, env)
  {
    OneLineFile(None, line, env);
    LoneQuotePanics(line, key);
    UnpaddedLine(line);
    assert [ParseLine(line)][1..] == [];
  }

  /** A value that is one `"` panics instead of giving a `Parse` error. */
  lemma LoneQuoteValuePanics(env: Vars)
    ensures Load(None, Content("VAR=\""), env) == Run(Panicked, env)
  {
    assert Plain("VAR=\"") && "VAR=\"" == "VAR" + "=\"" && '=' !in "VAR";
    OnePanics("VAR=\"", "VAR", env);
  }

  /** Two `=` between three pieces are counted. */
  lemma TwoSeparators(a: string, b: string, c: string)
    ensures Count(a + "=" + b + "=" + c, '=') >= 2
  {
    var eq := "=";
    assert Count(eq, '=') == 1 by { assert eq[1..] == []; }
    CountConcat(a + eq + b + eq, c, '=');
    CountConcat(a + eq + b, eq, '=');
    CountConcat(a + eq, b, '=');
    CountConcat(a, eq, '=');
  }
}
