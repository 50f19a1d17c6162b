# envro, modelled in Dafny

envro is a small Rust crate that loads a `.env` file. Its `load_dotenv` reads the
file and walks it line by line:

- it skips empty lines and `#` comments;
- it splits every other (trimmed) line on `=`;
- it rejects a line that does not give exactly a non-empty key and a non-empty value;
- it strips one pair of outer double quotes and turns `\"` into `"`;
- it records `key -> raw value` in the returned map and writes `key -> unquoted value` into
  the process environment.

`load_dotenv_in_env_vars` calls `load_dotenv` and then writes every pair of the
returned map into the environment again, overriding.

The project has four modules:

- `Strings` (`strings.dfy`) models the few `str` operations the loader uses:
  - `trim`, with the full Unicode White_Space set that `char::is_whitespace` uses;
  - `lines`, which splits on `\n`, drops one `\r` before each `\n`, and has no empty last line;
  - `split(char)`;
  - `replace("\\\"", "\"")`.
- `Envro` (`envro.dfy`) has:
  - the data model: `EnvroError`, the map type `Vars`, and the result of reading the file;
  - `ParseTrimmed` / `ParseLine`, what one iteration of the loop does with a line;
  - `Apply` and `Load`, the whole loop as a function over what happens to each line;
  - the class `Process`, whose `env` field is the process environment. Its methods
    `LoadDotenv` and `LoadDotenvInEnvVars` are the two functions of the crate, written as
    loops that update `env` in place. Each is proved against `Load`.
- `EnvroProperties` (`envro_properties.dfy`) holds the properties:
  - which lines are accepted, rejected, skipped, or panic;
  - quoting round-trips;
  - the file succeeds exactly when every line is accepted;
  - parsing stops at the first bad line and keeps the earlier environment writes;
  - what the map and the environment hold for every key after each entry point.
- `EnvroExamples` (`envro_examples.dfy`) works the crate's own test files through the model.

The file read is an input to the model (`FileRead`: the text, or a failure). The
path's UTF-8 conversion is an input too: `Option<string>`, where `None` gives the
name `"unknow file name"`, spelled as in the crate.

Behaviours of the code worth noting:

- A line is split on every `=`, not only on the first one. So a value with an `=` in it
  is rejected, even inside quotes (`RejectsEqualsInsideQuotes`).
- Only the overriding behaviour exists. There is no policy that keeps values already
  present in the environment.
- The emptiness test runs before the trim. So a line of only whitespace is rejected
  with `Parse("")`, not skipped (`WhitespaceLineRejected`).
- The returned map keeps the raw value, quotes included. `load_dotenv_in_env_vars`
  therefore puts the quotes back into the environment (`InjectedKey`, `QuotesComeBack`).
- A value that is a lone `"` makes the crate panic (the `unwrap` of
  `get(1..0)`). The model makes this an explicit outcome, `Panicked`
  (`LoneQuotePanics`).

## Model

| member | source | states |
|---|---|---|
| `Strings.Trim` | src/lib.rs:49 | the result is empty exactly when the line is all whitespace, and otherwise neither starts nor ends with whitespace |
| `Strings.TrimOf` | src/lib.rs:49 | trimming removes exactly the whitespace margins: whitespace + body + whitespace trims to the body |
| `Strings.TrimUnpadded` | src/lib.rs:49 | a line with no whitespace at either end is left unchanged by trim |
| `Strings.Split` | src/lib.rs:56 | splitting on `=` gives one more piece than there are `=` in the line, and no piece contains `=` |
| `Strings.JoinSplit` | src/lib.rs:56 | joining the pieces with the separator gives back the line, so no character is lost or added by the split |
| `Strings.SplitUnseparated` | src/lib.rs:56 | a text without the separator splits into itself alone |
| `Strings.SplitPair` | src/lib.rs:56 | `a=b` with no `=` in `a` or `b` splits into exactly `[a, b]` |
| `Strings.SplitJoin` | src/lib.rs:56 | split undoes join when no piece holds the separator |
| `Strings.StripCr` | src/lib.rs:44 | `lines` removes one trailing `\r`, and only when there is one |
| `Strings.Lines` | src/lib.rs:44 | no line holds a line feed and an empty file has no lines; the lemmas below give the lines of every text written with all `\n` or all `\r\n` endings, with or without a final line ending |
| `Strings.LinesOfPieces` | src/lib.rs:44 | when no piece that a line feed ends has a trailing `\r` and the last piece is not empty, the lines are exactly the pieces between line feeds |
| `Strings.LinesJoin` | src/lib.rs:44 | lines free of line feeds, joined with `\n`, are read back unchanged when the last is not empty and no earlier one ends in `\r` |
| `Strings.LinesJoinTerminated` | src/lib.rs:44 | a line feed after the last line adds no line: lines none of which ends in `\r`, each followed by `\n`, are read back unchanged, an empty last one included |
| `Strings.LinesCrlf` | src/lib.rs:44 | with CRLF line endings and no line ending after a non-empty last line, the `\r` before each line feed is dropped, so the lines are read back unchanged whatever they end with |
| `Strings.LinesCrlfTerminated` | src/lib.rs:44 | the final line ending is optional for CRLF too: lines each followed by `\r\n` are read back unchanged, an empty last one included |
| `Strings.Unescape` | src/lib.rs:75 | the replacement never lengthens the text and changes nothing when there is no backslash |
| `Strings.UnescapeEscape` | src/lib.rs:75 | unescaping inverts escaping every `"` as `\"`, for every text |
| `Envro.Unquoted` | src/lib.rs:64-76 | the value is never longer than the raw text; a raw text not opening with `"` is kept as it is; a quoted one loses at least its two outer quotes |
| `EnvroProperties.ParseLineOutcome` | src/lib.rs:45-79 | a line is skipped exactly when it is empty or its trimmed text starts with `#`; a rejected line carries its trimmed text; an accepted line is a `key=raw` assignment of its trimmed text with the unquoted value |
| `Envro.Apply` | src/lib.rs:42-82 | on success the map keeps every key it started with; the only error the loop can raise is `Parse` |
| `Envro.Load` | src/lib.rs:31-83 | a `File` error happens exactly when the file cannot be read; it then carries the path's name, or `unknow file name`, and no variable is written; otherwise the loop `Apply` runs over `Classify(Lines(text))`, the per-line step `ParseLine` applied to each line of the file in order |
| `Envro.ParseTrimmed` | src/lib.rs:51-79 | a trimmed line is skipped exactly when it starts with `#`. A rejected line carries the trimmed text. An accepted line is `key=raw` with both parts non-empty and free of `=`, a quoted raw value closed and longer than one character, and the value is the unquoted raw value. The panic happens only for a value that is a lone `"` |
| `Envro.Process.LoadDotenv` | src/lib.rs:31-83 | the returned result and the new environment are those of `Load` on the old environment: a read failure gives `File(name)` and writes nothing; otherwise the loop runs over the lines, stopping at the first rejected line |
| `Envro.Process.LoadDotenvInEnvVars` | src/lib.rs:96-104 | an error or panic of `load_dotenv` is passed on, with only `load_dotenv`'s writes done; on success the environment is `load_dotenv`'s environment overridden by the returned map |
| `Envro.Process.SetAll` | src/lib.rs:99-101 | writing every pair of the map gives the old environment overridden by the map, whatever the iteration order |
| `EnvroProperties.TrimmedAccepted` | src/lib.rs:56-79 | every `key=raw` the rules admit, with a key not starting with `#`, is accepted with that key, that raw value and its unquoted value |
| `EnvroProperties.UnpaddedLine` | src/lib.rs:45-49 | a non-empty line with no whitespace at either end is parsed as it stands |
| `EnvroProperties.WhitespaceLineRejected` | src/lib.rs:45-62 | a non-empty line of only whitespace is rejected with the empty text |
| `EnvroProperties.MissingEqualsRejected` | src/lib.rs:56-62 | a non-comment line without `=` is rejected with its text |
| `EnvroProperties.ExtraEqualsRejected` | src/lib.rs:56-62 | a non-comment line with two or more `=` is rejected with its text |
| `EnvroProperties.EmptyKeyRejected` | src/lib.rs:58-62 | a line starting with `=` is rejected with its text |
| `EnvroProperties.EmptyValueRejected` | src/lib.rs:58-62 | a non-comment line ending with `=` is rejected with its text |
| `EnvroProperties.UnterminatedQuoteRejected` | src/lib.rs:67-72 | a value that opens with `"` but does not end with `"` is rejected with the trimmed line |
| `EnvroProperties.LoneQuotePanics` | src/lib.rs:67-74 | a value that is a single `"` reaches the panicking `unwrap` |
| `EnvroProperties.QuotedRaw` | src/lib.rs:67-75 | a text free of `=`, escaped and put in quotes, is a value the quote rules accept, and unquoting it gives the text back |
| `EnvroProperties.QuotedValueRoundTrip` | src/lib.rs:64-79 | for any text `t` free of `=`, the line `key="<t with every \" escaped>"` is accepted; the map gets the quoted text and the environment gets exactly `t` |
| `EnvroProperties.LastAssignment` | src/lib.rs:78 | the index found is the last line assigning the key, and none is found exactly when no line assigns it |
| `EnvroProperties.LastEntryCons` | src/lib.rs:44-80 | the last assignment of a key in a file is in the rest of the file if there is one there, else it is the first line |
| `EnvroProperties.SucceedsIffAllAccepted` | src/lib.rs:44-82 | the loop returns a map exactly when every line is skipped or accepted |
| `EnvroProperties.StopsAtFirstRejection` | src/lib.rs:59-61 | parsing stops at the first rejected line: that line decides the error (`Parse` with its text, or the panic); no map is returned; the environment keeps every write of the lines before it |
| `EnvroProperties.ParsedKey` | src/lib.rs:42-82 | after a successful parse, the map holds every assigned key with the raw value of its last assignment; the environment holds that line's unquoted value; keys no line assigns are unchanged in both |
| `EnvroProperties.OnlyAssignedKeysWritten` | src/lib.rs:79 | whatever the outcome, the environment changes only at keys some line assigns |
| `EnvroProperties.LoadedKey` | src/lib.rs:31-83 | on success `load_dotenv` returns exactly the assigned keys, each with its last raw value; it sets each in the environment to its unquoted value; it keeps every other key |
| `EnvroProperties.InjectedKey` | src/lib.rs:96-104 | on success `load_dotenv_in_env_vars` leaves each assigned key with its raw value, quotes included, and every other key as it was |
| `EnvroExamples.OneLineFile` | src/lib.rs:44 | a text without line feeds is a file of one line |
| `EnvroExamples.ThreeLineFile` | src/lib.rs:44 | three lines joined by line feeds are read back as those three lines |
| `EnvroExamples.LoadsSimpleFile` | src/lib.rs:112-122 | the file `VAR=value` yields the map `{VAR: value}` and, after injection, `VAR` is `value` |
| `EnvroExamples.ReportsUnreadableFile` | src/lib.rs:124-178 | an unreadable file is reported as `File` with its name (or `unknow file name`), and the environment is unchanged |
| `EnvroExamples.RejectsLineWithoutEquals` | src/lib.rs:180-193 | the file `VAR value` fails with `Parse("VAR value")` |
| `EnvroExamples.RejectsEmptyKey` | src/lib.rs:195-208 | the file `=value` fails with `Parse("=value")` |
| `EnvroExamples.RejectsEmptyValue` | src/lib.rs:210-223 | the file `VAR=` fails with `Parse("VAR=")` |
| `EnvroExamples.SkipsEmptyLines` | src/lib.rs:225-237 | a leading empty line is skipped and `VAR`, `VAR1` are set to `1`, `asd` |
| `EnvroExamples.SkipsCommentLines` | src/lib.rs:239-251 | a commented `#VAR1=asd` sets nothing, while `VAR` is set to `1` |
| `EnvroExamples.UnquotesValues` | src/lib.rs:253-265 | quoted values reach the environment without their outer quotes, with inner quotes kept, while the map keeps them quoted |
| `EnvroExamples.QuotesComeBack` | src/lib.rs:96-104 | a quoted value set unquoted by `load_dotenv` has its quotes back after `load_dotenv_in_env_vars` |
| `EnvroExamples.RejectsEqualsInsideQuotes` | src/lib.rs:56-62 | `VAR="host=localhost;user=admin"` is rejected, because the line splits into more than two parts |
| `EnvroExamples.LoneQuoteValuePanics` | src/lib.rs:74 | the file `VAR="` panics |

## Left out

- File I/O: `fs::read_to_string` becomes an input, either the text or a failure. Reading invalid UTF-8 is one more failure.
- The `io::Error` inside `EnvroError::File`, and the `Display` texts of the errors. The messages depend on the operating system.
- The process environment is a map field of `Process`. Races between threads on the real process-wide environment are not modelled.
- The panics of `env::set_var` are not modelled. It panics on a key that is empty, contains `=` or contains NUL, and on a value with NUL. The loader only lets through keys that are non-empty and free of `=`, so only NUL could reach it.
- The iteration order of the `HashMap` in `load_dotenv_in_env_vars` is not modelled. Map keys are distinct, so the order does not change the final environment (`SetAll`).
- `Strings.Lines` follows the current `str::lines`. Older Rust releases also dropped a bare `\r` at the very end of the text; the model keeps it, as current releases do.
- `Strings.Lines`: no lemma states the lines of a text that mixes `\n` and `\r\n` endings; only the definition fixes them.
- Strings are sequences of Unicode scalar values, not UTF-8 bytes. Every character the loader tests is ASCII, so byte and character views agree on every decision. `line.len() < 1` holds exactly for the empty line in both.
- example/src/main.rs only calls the library and prints its result. It is not part of this model.
