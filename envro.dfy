/** The envro crate (src/lib.rs): `load_dotenv` reads a `.env` file, parses it line
    by line into a map and writes every accepted pair into the process environment;
    `load_dotenv_in_env_vars` then writes the returned map into the environment
    again, overriding. The process environment is the `env` field of `Process`. */
module Envro {
  import opened Strings

  datatype Option<T> = None | Some(value: T)

  /** `EnvroError`; the `io::Error` carried by `File` is not modelled. */
  datatype EnvroError = File(file: string) | Parse(line: string)

  /** How a call ends: a value, an `EnvroError`, or the panic of the `unwrap` on
      the slice `get(1..0)` of a value that is a lone `"`. */
  datatype Outcome<T> = Ok(value: T) | Err(error: EnvroError) | Panicked

  /** What `fs::read_to_string` gives back: the text, or a failure. */
  datatype FileRead = Content(text: string) | ReadFailed

  /** `EnvroVars`, and also the process environment. */
  type Vars = map<string, string>

  /** What the loop body of `load_dotenv` does with one line: skip it, accept
      `key=raw` (storing `raw` in the map and `value` in the environment), reject
      it with the trimmed text, or panic on a value that is a lone `"`. */
  datatype LineOutcome =
    | Skip
    | Entry(key: string, raw: string, value: string)
    | Invalid(line: string)
    | Panic(key: string)

  /** The name `File` reports when the path is not valid UTF-8 (spelled as in the crate). */
  const UnknownFileName: string := "unknow file name"

  function FileLabel(fileName: Option<string>): (reported: string) {
    match fileName
    case Some(name) => name
    case None => UnknownFileName
  }

  predicate IsComment(trimmed: string) {
    StartsWith(trimmed, '#')
  }

  /** `trimmed` is `key=raw` with a non-empty key and a non-empty value, neither
      holding `=`, and a value that opens with `"` also closes with one and is
      longer than that one character. */
  predicate Assignment(trimmed: string, key: string, raw: string) {
    && trimmed == key + "=" + raw
    && key != [] && raw != []
    && '=' !in key && '=' !in raw
    && (StartsWith(raw, '"') ==> |raw| >= 2 && EndsWith(raw, '"'))
  }

  /** The value that reaches the environment: a quoted value loses its outer
      quotes and has every `\"` turned into `"`; any other value is kept. */
  function Unquoted(raw: string): (value: string)
    ensures |value| <= |raw|
    ensures !StartsWith(raw, '"') ==> value == raw
    ensures StartsWith(raw, '"') && |raw| >= 2 ==> |value| <= |raw| - 2
  {
    if StartsWith(raw, '"') && |raw| >= 2 then Unescape(raw[1..|raw| - 1]) else raw
  }

  /** What the loop body does with a line once it is known to be non-empty and
      has been trimmed: comments are skipped, then the text is split on every `=`. */
  function ParseTrimmed(trimmed: string): (o: LineOutcome)
    ensures o.Skip? <==> IsComment(trimmed)
    ensures o.Invalid? ==> o.line == trimmed
    ensures o.Entry? ==> Assignment(trimmed, o.key, o.raw) && o.value == Unquoted(o.raw)
    ensures o.Panic? ==> trimmed == o.key + "=\"" && o.key != [] && '=' !in o.key
  {
    if IsComment(trimmed) then Skip
    else
      var v := Split(trimmed, '=');
      if |v| != 2 || |v[0]| < 1 || |v[1]| < 1 then Invalid(trimmed)
      else
        JoinSplit(trimmed, '=');
        JoinCons(v[0], [v[1]], '=');
        assert v == [v[0]] + [v[1]];
        assert trimmed == v[0] + "=" + v[1];
        if StartsWith(v[1], '"') then
          if !EndsWith(v[1], '"') then Invalid(trimmed)
          else if |v[1]| < 2 then Panic(v[0])
          else Entry(v[0], v[1], Unescape(v[1][1..|v[1]| - 1]))
        else Entry(v[0], v[1], v[1])
  }

  /** One iteration of the loop in `load_dotenv`, as a value: the emptiness test
      looks at the line before it is trimmed. */
  function ParseLine(line: string): (o: LineOutcome)
  {
    if |line| < 1 then Skip else ParseTrimmed(Trim(line))
  }

  /** The state of one run of `load_dotenv`: how it ended and the environment after it. */
  datatype Run = Run(outcome: Outcome<Vars>, env: Vars)

  /** What the loop body does with each line, line by line. */
  function Classify(lines: seq<string>): (outcomes: seq<LineOutcome>)
    ensures |outcomes| == |lines|
    ensures forall i :: 0 <= i < |lines| ==> outcomes[i] == ParseLine(lines[i])
  {
    seq(|lines|, i requires 0 <= i < |lines| => ParseLine(lines[i]))
  }

  /** The loop of `load_dotenv` over the outcomes of the remaining lines, with the
      map built so far in `vars` and the environment so far in `env`: it goes on
      past skipped and accepted lines and stops at the first other one. */
  function Apply(steps: seq<LineOutcome>, vars: Vars, env: Vars): (run: Run)
    ensures run.outcome.Ok? ==> vars.Keys <= run.outcome.value.Keys
    ensures run.outcome.Err? ==> run.outcome.error.Parse?
    decreases |steps|
  {
    if steps == [] then Run(Ok(vars), env)
    else
      match steps[0]
      case Skip => Apply(steps[1..], vars, env)
      case Entry(key, raw, value) => Apply(steps[1..], vars[key := raw], env[key := value])
      case Invalid(trimmed) => Run(Err(Parse(trimmed)), env)
      case Panic(_) => Run(Panicked, env)
  }

  /** `load_dotenv` as a whole, from the result of reading the file. */
  function Load(fileName: Option<string>, read: FileRead, env: Vars): (run: Run)
    ensures run.outcome.Err? && run.outcome.error.File? <==> read.ReadFailed?
    ensures read.ReadFailed? ==> run.env == env && run.outcome.error.file == FileLabel(fileName)
  {
    match read
    case ReadFailed => Run(Err(File(FileLabel(fileName))), env)
    case Content(text) => Apply(Classify(Lines(text)), map[], env)
  }

  /** Writing one more pending pair is the same as overriding with one pair fewer pending. */
  lemma OverrideOne(base: Vars, vars: Vars, pending: set<string>, key: string)
    requires key in pending && pending <= vars.Keys
    ensures (base + (vars - pending))[key := vars[key]] == base + (vars - (pending - {key}))
  {
  }

  /** The process whose environment the loader writes to. */
  class Process {
    var env: Vars

    constructor (initial: Vars)
      ensures env == initial
    {
      env := initial;
    }

    /** `load_dotenv`. */
    method LoadDotenv(fileName: Option<string>, read: FileRead) returns (r: Outcome<Vars>)
      modifies this
      ensures Run(r, env) == Load(fileName, read, old(env))
    {
      var fileContent;
      match read {
        case ReadFailed =>
          return Err(File(FileLabel(fileName)));
        case Content(text) =>
          fileContent := text;
      }

      var vars: Vars := map[];
      var lines := Lines(fileContent);
      ghost var steps := Classify(lines);
      var i := 0;
      while i < |lines|
        invariant 0 <= i <= |lines|
        invariant Apply(steps, map[], old(env)) == Apply(steps[i..], vars, env)
      {
        var line := lines[i];
        assert steps[i..][0] == ParseLine(line);
        assert steps[i..][1..] == steps[i + 1..];
        i := i + 1;
        if |line| < 1 {
          continue;
        }

        line := Trim(line);

        // comment line
        if StartsWith(line, '#') {
          continue;
        }

        var v := Split(line, '=');

        if |v| != 2 || |v[0]| < 1 || |v[1]| < 1 {
          return Err(Parse(line));
        }

        var value := v[1];

        // values with quotes
        if StartsWith(value, '"') {
          if !EndsWith(value, '"') {
            return Err(Parse(line));
          }
          if |v[1]| < 2 {
            // `v[1].get(1..0)` is `None` and the `unwrap` panics
            return Panicked;
          }
          value := Unescape(v[1][1..|v[1]| - 1]);
        }

        vars := vars[v[0] := v[1]];
        env := env[v[0] := value];
      }

      r := Ok(vars);
    }

    /** `load_dotenv_in_env_vars`: any failure of `load_dotenv` is passed on;
        otherwise every pair of the returned map is written to the environment. */
    method LoadDotenvInEnvVars(fileName: Option<string>, read: FileRead) returns (r: Outcome<()>)
      modifies this
      ensures var run := Load(fileName, read, old(env));
        match run.outcome
        case Ok(vars) => r == Ok(()) && env == run.env + vars
        case Err(e) => r == Err(e) && env == run.env
        case Panicked => r == Panicked && env == run.env
    {
      var loaded := LoadDotenv(fileName, read);
      match loaded {
        case Err(e) =>
          return Err(e);
        case Panicked =>
          return Panicked;
        case Ok(vars) =>
          SetAll(vars);
          r := Ok(());
      }
    }

    /** The loop `for (key, value) in vars { env::set_var(key, value) }`: each pair
        overrides the environment and no other key is touched. The keys of a map
        are distinct, so the order of the iteration does not change the result. */
    method SetAll(vars: Vars)
      modifies this
      ensures env == old(env) + vars
    {
      var pending := vars.Keys;
      while pending != {}
        invariant pending <= vars.Keys
        invariant env == old(env) + (vars - pending)
        decreases pending
      {
        var key :| key in pending;
        OverrideOne(old(env), vars, pending, key);
        env := env[key := vars[key]];
        pending := pending - {key};
      }
      assert vars - {} == vars;
    }
  }
}
