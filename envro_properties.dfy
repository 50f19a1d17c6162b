/** What the loader promises about one line, about a whole file, and about the
    two entry points, stated over the functions of `Envro`. */
module EnvroProperties {
  import opened Strings
  import opened Envro

  // ---------------------------------------------------------------------------
  // One line. A non-empty line goes through `ParseTrimmed(Trim(line))`.

  /** Every `key=raw` text the rules admit is accepted, with that key and raw value. */
  lemma TrimmedAccepted(trimmed: string, key: string, raw: string)
    requires Assignment(trimmed, key, raw)
    requires key[0] != '#'
    ensures ParseTrimmed(trimmed) == Entry(key, raw, Unquoted(raw))
  {
    SplitPair(key, '=', raw);
    assert trimmed[0] == key[0];
  }

  /** A line with no whitespace at either end is parsed as it stands. */
  lemma UnpaddedLine(line: string)
    requires line != [] && !IsWhitespace(line[0]) && !IsWhitespace(line[|line| - 1])
    ensures ParseLine(line) == ParseTrimmed(line)
  {
    TrimUnpadded(line);
  }

  /** What one iteration of the loop does with a line: it is skipped exactly when
      it is empty or a comment once trimmed; otherwise the trimmed text is rejected
      as it stands or accepted as an assignment with its unquoted value. */
  lemma ParseLineOutcome(line: string)
    ensures var o := ParseLine(line);
      && (o.Skip? <==> line == [] || IsComment(Trim(line)))
      && (o.Invalid? ==> o.line == Trim(line))
      && (o.Entry? ==> Assignment(Trim(line), o.key, o.raw) && o.value == Unquoted(o.raw))
  {
  }

  /** A line that is not empty but only whitespace trims to `""` and is rejected
      with that empty text: the emptiness test runs before the trim. */
  lemma WhitespaceLineRejected(line: string)
    requires line != [] && AllWhitespace(line)
    ensures ParseLine(line) == Invalid([])
  {
    assert Trim(line) == [];
    assert Split([], '=') == [[]];
  }

  /** A text without `=` is rejected. */
  lemma MissingEqualsRejected(trimmed: string)
    requires !IsComment(trimmed) && '=' !in trimmed
    ensures ParseTrimmed(trimmed) == Invalid(trimmed)
  {
  }

  /** A text with two or more `=` is rejected, even when they sit inside quotes. */
  lemma ExtraEqualsRejected(trimmed: string)
    requires !IsComment(trimmed) && Count(trimmed, '=') >= 2
    ensures ParseTrimmed(trimmed) == Invalid(trimmed)
  {
  }

  /** An empty key (`=value`) is rejected. */
  lemma EmptyKeyRejected(trimmed: string)
    requires StartsWith(trimmed, '=')
    ensures ParseTrimmed(trimmed) == Invalid(trimmed)
  {
  }

  /** An empty value (`VAR=`) is rejected. */
  lemma EmptyValueRejected(trimmed: string)
    requires !IsComment(trimmed) && EndsWith(trimmed, '=')
    ensures ParseTrimmed(trimmed) == Invalid(trimmed)
  {
  }

  /** A value that opens with `"` but does not close with one is rejected. */
  lemma UnterminatedQuoteRejected(trimmed: string, key: string, raw: string)
    requires trimmed == key + "=" + raw
    requires key != [] && key[0] != '#' && '=' !in key && '=' !in raw
    requires StartsWith(raw, '"') && !EndsWith(raw, '"')
    ensures ParseTrimmed(trimmed) == Invalid(trimmed)
  {
    SplitPair(key, '=', raw);
    assert trimmed[0] == key[0];
  }

  /** A value that is a single `"` both opens and closes a quote, and slicing
      between the two quotes panics. */
  lemma LoneQuotePanics(trimmed: string, key: string)
    requires trimmed == key + "=\""
    requires key != [] && key[0] != '#' && '=' !in key
    ensures ParseTrimmed(trimmed) == Panic(key)
  {
    var quote := "\"";
    SplitPair(key, '=', quote);
    assert trimmed == key + ['='] + quote;
    assert trimmed[0] == key[0];
  }

  /** The quoted, escaped form of a text free of `=` is a well-formed quoted value
      whose unquoted form is the text. */
  lemma QuotedRaw(t: string)
    requires '=' !in t
    ensures var raw := "\"" + Escape(t) + "\"";
      && '=' !in raw && |raw| >= 2 && StartsWith(raw, '"') && EndsWith(raw, '"')
      && Unquoted(raw) == t
  {
    var e := Escape(t);
    var raw := "\"" + e + "\"";
    assert '=' !in e;
    assert forall c :: c in raw ==> c == '"' || c in e;
    assert raw[1..|raw| - 1] == e;
    UnescapeEscape(t);
  }

  /** Quoting and escaping round-trips: the line `key="<Escape(t)>"` reaches the
      environment as `t`, while the map keeps the quoted text. */
  lemma QuotedValueRoundTrip(key: string, t: string)
    requires key != [] && key[0] != '#' && !IsWhitespace(key[0])
    requires '=' !in key && '=' !in t
    ensures var raw := "\"" + Escape(t) + "\"";
      ParseLine(key + "=" + raw) == Entry(key, raw, t)
  {
    var raw := "\"" + Escape(t) + "\"";
    var line := key + "=" + raw;
    QuotedRaw(t);
    assert line[0] == key[0] && line[|line| - 1] == '"';
    TrimmedAccepted(line, key, raw);
    UnpaddedLine(line);
  }

  // ---------------------------------------------------------------------------
  // A whole file, as the sequence of what happens to each line

  /** The loop goes past this line. */
  predicate Accepted(o: LineOutcome) {
    o.Skip? || o.Entry?
  }

  /** The line assigns `key`. */
  predicate Assigns(o: LineOutcome, key: string) {
    o.Entry? && o.key == key
  }

  /** The index of the last line that assigns `key`, if any. */
  function LastAssignment(steps: seq<LineOutcome>, key: string): (last: Option<nat>)
    ensures last.None? <==> forall i :: 0 <= i < |steps| ==> !Assigns(steps[i], key)
    ensures last.Some? ==>
      && last.value < |steps| && Assigns(steps[last.value], key)
      && forall j :: last.value < j < |steps| ==> !Assigns(steps[j], key)
    decreases |steps|
  {
    if steps == [] then None
    else if Assigns(steps[|steps| - 1], key) then Some(|steps| - 1)
    else
      var init := steps[..|steps| - 1];
      assert forall i :: 0 <= i < |init| ==> init[i] == steps[i];
      LastAssignment(init, key)
  }

  /** The outcome of the last line that assigns `key`, if any. */
  function LastEntry(steps: seq<LineOutcome>, key: string): (e: Option<LineOutcome>)
    ensures e.Some? ==> e.value.Entry? && e.value.key == key
  {
    match LastAssignment(steps, key)
    case None => None
    case Some(i) => Some(steps[i])
  }

  /** Looking at the first line apart: the last line that assigns `key` is in the
      rest of the file if the rest has one, and otherwise it is the first line. */
  lemma {:induction false} LastEntryCons(o: LineOutcome, rest: seq<LineOutcome>, key: string)
    ensures LastEntry([o] + rest, key) ==
      if LastEntry(rest, key).Some? then LastEntry(rest, key)
      else if Assigns(o, key) then Some(o)
      else None
    decreases |rest|
  {
    var all := [o] + rest;
    if rest != [] {
      assert all[..|all| - 1] == [o] + rest[..|rest| - 1];
      assert all[|all| - 1] == rest[|rest| - 1];
      LastEntryCons(o, rest[..|rest| - 1], key);
      var init := rest[..|rest| - 1];
      assert forall i :: 0 <= i < |init| ==> init[i] == rest[i];
    } else {
      assert all == [o];
    }
  }

  /** `key` has the same presence and value in both maps. */
  predicate SameAt(a: Vars, b: Vars, key: string) {
    (key in a <==> key in b) && (key in a ==> a[key] == b[key])
  }

  /** The file parses exactly when every line is skipped or accepted. */
  lemma {:induction false} SucceedsIffAllAccepted(steps: seq<LineOutcome>, vars: Vars, env: Vars)
    ensures Apply(steps, vars, env).outcome.Ok?
      <==> forall i :: 0 <= i < |steps| ==> Accepted(steps[i])
    decreases |steps|
  {
    if steps != [] {
      assert forall i :: 1 <= i < |steps| ==> steps[1..][i - 1] == steps[i];
      match steps[0]
      case Skip => SucceedsIffAllAccepted(steps[1..], vars, env);
      case Entry(key, raw, value) => SucceedsIffAllAccepted(steps[1..], vars[key := raw], env[key := value]);
      case Invalid(_) =>
      case Panic(_) =>
    }
  }

  /** Parsing stops at the first line that is not accepted: that line decides the
      error (a `Parse` error carrying its trimmed text, or the panic), no map is
      returned, and the environment keeps every write the lines before it made. */
  lemma {:induction false} StopsAtFirstRejection(steps: seq<LineOutcome>, n: nat, vars: Vars, env: Vars)
    requires n < |steps|
    requires forall i :: 0 <= i < n ==> Accepted(steps[i])
    requires !Accepted(steps[n])
    ensures Apply(steps[..n], vars, env).outcome.Ok?
    ensures Apply(steps, vars, env) == Run(
      if steps[n].Invalid? then Err(Parse(steps[n].line)) else Panicked,
      Apply(steps[..n], vars, env).env)
    decreases n
  {
    if n > 0 {
      assert steps[..n][1..] == steps[1..][..n - 1];
      assert forall i :: 0 <= i < n - 1 ==> steps[1..][i] == steps[i + 1];
      assert Accepted(steps[0]);
      match steps[0]
      case Skip => StopsAtFirstRejection(steps[1..], n - 1, vars, env);
      case Entry(key, raw, value) => StopsAtFirstRejection(steps[1..], n - 1, vars[key := raw], env[key := value]);
    }
  }

  /** After a successful parse, the map holds every key some line assigns, bound to
      the raw value (quotes kept) of the last such line, and the environment holds
      the unquoted value of that same line; a key no line assigns is as it was. */
  lemma {:induction false} ParsedKey(steps: seq<LineOutcome>, vars: Vars, env: Vars, key: string)
    ensures var run := Apply(steps, vars, env);
      run.outcome.Ok? ==>
        match LastEntry(steps, key)
        case Some(e) =>
          key in run.outcome.value && run.outcome.value[key] == e.raw
          && key in run.env && run.env[key] == e.value
        case None =>
          SameAt(run.outcome.value, vars, key) && SameAt(run.env, env, key)
    decreases |steps|
  {
    if steps != [] {
      assert [steps[0]] + steps[1..] == steps;
      LastEntryCons(steps[0], steps[1..], key);
      match steps[0]
      case Skip => ParsedKey(steps[1..], vars, env, key);
      case Entry(k, raw, value) => ParsedKey(steps[1..], vars[k := raw], env[k := value], key);
      case Invalid(_) =>
      case Panic(_) =>
    }
  }

  /** Whatever the outcome, the environment changes only at keys that some line
      assigns. */
  lemma {:induction false} OnlyAssignedKeysWritten(steps: seq<LineOutcome>, vars: Vars, env: Vars, key: string)
    requires forall i :: 0 <= i < |steps| ==> !Assigns(steps[i], key)
    ensures SameAt(Apply(steps, vars, env).env, env, key)
    decreases |steps|
  {
    if steps != [] {
      assert forall i :: 1 <= i < |steps| ==> steps[1..][i - 1] == steps[i];
      assert !Assigns(steps[0], key);
      match steps[0]
      case Skip => OnlyAssignedKeysWritten(steps[1..], vars, env, key);
      case Entry(k, raw, value) => OnlyAssignedKeysWritten(steps[1..], vars[k := raw], env[k := value], key);
      case Invalid(_) =>
      case Panic(_) =>
    }
  }

  // ---------------------------------------------------------------------------
  // The two entry points

  /** `load_dotenv` on readable text: the returned map has exactly the keys the
      lines assign, each bound to its last raw value; the environment gets the
      unquoted value of that line; every other key of the environment is kept. */
  lemma LoadedKey(fileName: Option<string>, text: string, env: Vars, key: string)
    ensures var run := Load(fileName, Content(text), env);
      run.outcome.Ok? ==>
        match LastEntry(Classify(Lines(text)), key)
        case Some(e) =>
          && key in run.outcome.value && run.outcome.value[key] == e.raw
          && key in run.env && run.env[key] == e.value
        case None =>
          key !in run.outcome.value && SameAt(run.env, env, key)
  {
    ParsedKey(Classify(Lines(text)), map[], env, key);
  }

  /** `load_dotenv_in_env_vars` writes the map back over the environment, so each
      assigned key ends up with its raw value, quotes included, undoing the
      unquoting `load_dotenv` did; the keys no line assigns are untouched. */
  lemma InjectedKey(fileName: Option<string>, text: string, env: Vars, key: string)
    ensures var run := Load(fileName, Content(text), env);
      run.outcome.Ok? ==>
        var final := run.env + run.outcome.value;
        match LastEntry(Classify(Lines(text)), key)
        case Some(e) => key in final && final[key] == e.raw
        case None => SameAt(final, env, key)
  {
    ParsedKey(Classify(Lines(text)), map[], env, key);
  }
}
