# A verified model of a small Rust shell's pure core

The shell reads a line, splits it into a command word and arguments, looks
the word up in an index of builtins and executables, and dispatches it. This
project models the parts of that pipeline that do no I/O, as pure Dafny
functions with proved contracts:

- `Text` (text.dfy): the string helpers the Rust code takes from the
  standard library. These are `trim` (Unicode `White_Space`, written out by
  code point), `split_once` on one character, `replace` of a character by a
  string, and `join("")`.
- `ArgsParser` (args_parser.dfy): the escape-aware tokenizer of
  src/args_parser.rs. It is a state record (`reading`, `quote`, `buffer`,
  `arguments`) with a one-character `Step`, a `Run` that consumes a
  backslash and its successor as one escape, and `Finish`, which flushes the
  last buffer. A `while`-loop method `Parse` mirrors the Rust loop. It is
  proved equal to the functional definition and to emit no empty token.
- `LegacyArgsParser` (legacy_args_parser.dfy): the older tokenizer that
  src/shell.rs declares and `parse_cmd` actually uses. It has no escapes and
  has the `continue` quirk when a quote closes.
- `Capabilities` (capabilities.rs → capabilities.dfy), covering:
  - the builtin set;
  - the collector fold that builds the name → location map under the
    `/usr/bin` precedence rule, over an arbitrary arrival order of scan
    results;
  - the membership queries, `get_location`, and the pure results of `echo`,
    `exit` and `type_`;
  - the path string `cd` builds before touching the filesystem.
- `ShellCommandText` (shell_command.dfy): `ShellCommand::parse` of
  src/shell_command.rs, where the arguments are one string.
- `Shell` (shell.dfy): `Shell::new`, `parse_cmd`, the routing and history of
  `execute`, and `ShellCommand` with a list of tokens.

The Rust files disagree on two types. `ExecutionResult` has no payload in
src/shell.rs and carries an optional output in src/capabilities.rs.
`ShellCommand.arguments` is a `String` in src/shell_command.rs and a
`Vec<String>` in src/shell.rs. Each module keeps its own file's version.

The collector is a fold over an arbitrary sequence of `(name, location)`
pairs. Every property of the fold holds for every sequence, and so for
every interleaving of the scanning threads. Its partner is a reference
definition, `Winner`: the first privileged location to arrive if there is
one, otherwise the last location to arrive. `CollectIsWinner` proves the
fold equal to it for every name.

In three places the code does something a reader may not expect; the model
follows the code:

- `parse_cmd` tokenizes with the `ArgsParser` declared in src/shell.rs, not
  the one in src/args_parser.rs. So backslashes are not escapes on the
  shell's own path. `LegacyArgsParser.BackslashDiverges` and
  `LegacyArgsParser.QuotedSpaceDiverges` pin down where the two tokenizers
  part. `LegacyArgsParser.TokenizersAgree` proves them equal on text with no
  quote and no backslash.
- A quoted region that closes with exactly one space in its buffer is
  dropped, like an empty one, because of the `arg != " "` test. In the older
  tokenizer that single space is not cleared either: it stays in the buffer
  and starts the next token.
- `parse_cmd` reports an unknown command with the whole trimmed line, not
  only the command word: `"ls -l: command not found"`.

## Model

| member | source | states |
|---|---|---|
| Text.TrimStart | src/shell.rs:107 | the result is a suffix of the input, everything dropped is whitespace, and it is empty or starts with a non-blank |
| Text.TrimEnd | src/shell.rs:107 | the result is a prefix of the input, everything dropped is whitespace, and it is empty or ends with a non-blank |
| Text.Trim | src/shell.rs:107 | the result has no leading or trailing whitespace and is no longer than the input |
| Text.TrimIsInfix | src/shell.rs:107 | trimming removes characters only at the two ends: the result is a contiguous slice of the input |
| Text.TrimKeepsTrimmed | src/shell.rs:107 | a string with non-blank ends is its own trim |
| Text.SplitOnce | src/shell.rs:108 | None exactly when the separator is absent; otherwise the input is `before + [sep] + after` with no separator before the split |
| Text.SplitOnceUnique | src/shell.rs:108 | the converse: splitting `a + [sep] + b` with no separator in `a` gives back exactly `(a, b)` |
| Text.Replace | src/capabilities.rs:122-127 | the empty string stays empty; a one-character string becomes the substitute when it is the replaced character and is kept otherwise; a string without the character is unchanged; a character is in the result exactly when it was in the input and is not the replaced one, or the replaced one occurred and the character is in the substitute |
| Text.ReplaceAppend | src/capabilities.rs:122-127 | replacement distributes over concatenation, so with the one-character cases it fixes the result piece by piece, in order |
| Text.Join | src/capabilities.rs:98-102 | joining one part gives that part; joining none gives the empty string |
| Text.JoinAppend | src/capabilities.rs:98-102 | joining with no separator distributes over concatenation of the part lists |
| ArgsParser.Tokenize | src/args_parser.rs:10-87 | no input yields an empty token |
| ArgsParser.Finish | src/args_parser.rs:83-85 | flushing the last buffer adds no empty token to tokens that had none |
| ArgsParser.Step | src/args_parser.rs:34-79 | one character adds at most one token, never removes one, and never adds an empty one |
| ArgsParser.Run | src/args_parser.rs:25-81 | the emitted tokens only grow as input is consumed |
| ArgsParser.Parse | src/args_parser.rs:20-87 | the index loop (advancing by two on an escape, one otherwise) terminates and returns exactly the tokens of the functional definition, none of them empty |
| ArgsParser.NoEmptyTokens | src/args_parser.rs:38-47 | no input yields an empty token |
| ArgsParser.RunAppend | src/args_parser.rs:25-33 | tokenizing a concatenation runs the second part from the state the first part left, unless the first part ends in a dangling backslash |
| ArgsParser.EscapeIsVerbatim | src/args_parser.rs:29-33 | a backslash and its successor append the successor to the buffer, in every state, quoted or not |
| ArgsParser.TrailingBackslashIsLiteral | src/args_parser.rs:29 | a backslash that ends the input is appended to the buffer as an ordinary character |
| ArgsParser.RunRespectsEquivalence | src/args_parser.rs:34-59 | outside a quoted region the remembered quote type never changes the tokens |
| ArgsParser.TokenizeAfter | src/args_parser.rs:83-85 | from a state with an empty buffer outside quotes, the result is the tokens already emitted followed by the tokens of the rest |
| ArgsParser.NewlineSeparates | src/args_parser.rs:69-74 | an unquoted newline splits the input into two independently tokenized halves |
| ArgsParser.QuotedIsLiteral | src/args_parser.rs:48-50 | inside a quoted region every character except the closing quote and a backslash is appended verbatim (spaces, newlines and the other quote included) |
| ArgsParser.OpeningQuoteFlushes | src/args_parser.rs:51-57 | opening a quote emits a non-empty buffer as its own token (a lone space included), empties the buffer and does not keep the quote |
| ArgsParser.QuotedToken | src/args_parser.rs:35-47 | a closed quoted region is one token holding its content, except that empty content or a single space emits nothing; tokenizing then continues independently |
| ArgsParser.UnterminatedQuote | src/args_parser.rs:83-85 | an unterminated quote is no error: its content is the last token |
| ArgsParser.TokensJoinToCollapsedInput | src/args_parser.rs:60-68 | for text with no quote, backslash or newline, joining the tokens gives the text with every run of spaces collapsed to one space, as given by an independent reference definition |
| ArgsParser.SpacesAfterSpaceAddNothing | src/args_parser.rs:60-68 | once the buffer ends in a space, further unquoted spaces change nothing |
| ArgsParser.WordIsLiteral | src/args_parser.rs:75-78 | characters other than quotes, backslash, space and newline are appended to the buffer verbatim |
| ArgsParser.SeparatorLeadsNextToken | src/args_parser.rs:60-68 | a run of spaces between two words ends the first token and leaves exactly one space at the head of the next |
| ArgsParser.EscapeInsideWord | src/args_parser.rs:29-33 | a word with one escaped character inside it is a single token with that character in place of the backslash pair |
| ArgsParser.EscapedSpacesAreKept | src/args_parser.rs:29-33 | each escaped space lands in the buffer, whatever the buffer ends in |
| ArgsParser.EscapedSpacesJoinWords | src/args_parser.rs:29-33 | escaped spaces between two words give one token that keeps every one of those spaces |
| ArgsParser.EscapedSpaceAbsorbsSpaces | src/args_parser.rs:61-67 | after an escaped space, a run of unquoted spaces adds nothing: `a\ ` followed by spaces and `b` is the one token `a b` |
| ArgsParser.ExampleQuotedSpaces | src/args_parser.rs:48-50 | `"foo   bar"` is the single token `foo   bar` |
| ArgsParser.ExampleEmptyQuotes | src/args_parser.rs:38-46 | `""` and `''` produce no token |
| ArgsParser.ExampleEscapedBackslash | src/args_parser.rs:29-33 | `hello\\world` is the token `hello\world` |
| ArgsParser.EscapesAroundWord | src/args_parser.rs:29-33 | a word between two escaped characters is one token: the first character, the word, the second character |
| ArgsParser.ExampleEscapedQuotes | src/args_parser.rs:29-33 | `\'hello\'` is the token `'hello'` |
| ArgsParser.ExampleEscapedSpaces | src/args_parser.rs:29-33 | `foo\ \ \ bar` is the single token `foo   bar`, so it joins to that text |
| ArgsParser.ExampleEscapedThenPlainSpaces | src/args_parser.rs:61-67 | `foo\` followed by five spaces and `bar` is the single token `foo bar` |
| ArgsParser.ExampleSeparatorSpace | src/args_parser.rs:60-68 | `a  b` is the tokens `a` and ` b` |
| LegacyArgsParser.LegacyRun | src/shell.rs:42-89 | the emitted tokens only grow as input is consumed |
| LegacyArgsParser.LegacyTokenize | src/shell.rs:39-94 | no input yields an empty token |
| LegacyArgsParser.LegacyStep | src/shell.rs:43-88 | one character adds at most one token, never removes one, and never adds an empty one |
| LegacyArgsParser.LegacyNoEmptyTokens | src/shell.rs:42-93 | the older tokenizer never emits an empty token either |
| LegacyArgsParser.LegacyRunAppend | src/shell.rs:42-89 | with no lookahead, tokenizing a concatenation always continues from the state the first part left |
| LegacyArgsParser.LegacyRespectsEquivalence | src/shell.rs:44-68 | outside a quoted region the remembered quote type never changes the tokens |
| LegacyArgsParser.LegacyTokenizeAfter | src/shell.rs:90-93 | from a state with an empty buffer outside quotes, the result is the emitted tokens followed by the tokens of the rest |
| LegacyArgsParser.LegacyQuotedIsLiteral | src/shell.rs:45-59 | inside a quoted region every character other than the closing quote, backslash included, is appended verbatim |
| LegacyArgsParser.LegacyWordIsLiteral | src/shell.rs:84-87 | outside a quoted region every character other than a quote, a space or a newline, backslash included, is appended to the buffer verbatim |
| LegacyArgsParser.LegacyQuotedToken | src/shell.rs:45-56 | a closed quoted region is one token holding its content; empty content emits nothing; a single space emits nothing and stays in the buffer in front of what follows |
| LegacyArgsParser.TokenizersAgree | src/shell.rs:39-94 | on text with no quote and no backslash the older and newer tokenizers give the same tokens |
| LegacyArgsParser.QuotedSpaceDiverges | src/shell.rs:54 | `' 'a` is ` a` for the older tokenizer and `a` for the newer one |
| LegacyArgsParser.BackslashDiverges | src/shell.rs:84-87 | `a\ b` is `a\` and ` b` for the older tokenizer and `a b` for the newer one |
| LegacyArgsParser.LegacyKeepsBackslash | src/shell.rs:84-87 | the older tokenizer keeps a backslash and splits at the space after it |
| LegacyArgsParser.EscapedSpaceJoins | src/args_parser.rs:29-33 | the newer tokenizer drops the backslash and keeps the space it escapes |
| Capabilities.Insert | src/capabilities.rs:52-57 | one collector step adds the name; an entry at a `/usr/bin` location is kept; any other entry takes the new location; other names are untouched |
| Capabilities.Collect | src/capabilities.rs:52-57 | the indexed names are exactly the names that arrived, and every indexed location arrived with its name |
| Capabilities.CollectIsWinner | src/capabilities.rs:52-57 | for every name, the fold gives the first `/usr/bin` location that arrived for it if there is one, otherwise the last one |
| Capabilities.PrivilegedIsNeverReplaced | src/capabilities.rs:53-55 | a `/usr/bin` entry survives every later arrival |
| Capabilities.LaterArrivalOverwrites | src/capabilities.rs:56 | any other entry is overwritten by the next pair with the same name |
| Capabilities.ArrivalOrderIrrelevant | src/capabilities.rs:52-57 | any two orders of the same pairs index the same names; a name with a `/usr/bin` location resolves to one; a name with exactly one `/usr/bin` location resolves to it in every order |
| Capabilities.PrivilegedWins | src/capabilities.rs:52-57 | a name for which some `/usr/bin` location arrived resolves to one of those locations |
| Capabilities.New | src/capabilities.rs:62-76 | the builtin names are exactly echo, exit, type, pwd and cd, and the indexed names are those of the scan |
| Capabilities.NewQueries | src/capabilities.rs:78-95 | on a fresh index: builtin means one of the five names; executable means the name arrived; known means either; `get_location` gives the winning location or an error for an unindexed name |
| Capabilities.IsExecutable | src/capabilities.rs:78-80 | true exactly when `get_location` succeeds |
| Capabilities.IsExecOrBuiltin | src/capabilities.rs:82-84 | true exactly when the name is a builtin or `get_location` succeeds |
| Capabilities.IsBuiltin | src/capabilities.rs:93-95 | on the builtin set, true exactly for echo, exit, type, pwd and cd |
| Capabilities.GetLocation | src/capabilities.rs:86-91 | succeeds exactly for indexed names, with the indexed location |
| Capabilities.Echo | src/capabilities.rs:97-105 | always continues with output; no arguments print the empty string; one argument prints itself |
| Capabilities.EchoConcatenates | src/capabilities.rs:97-105 | echo inserts no separator: the output for `a + b` is the output for `a` followed by the output for `b` |
| Capabilities.EchoCollapsesSpaces | src/capabilities.rs:97-105 | echoing the tokens of plain text prints that text with runs of spaces collapsed |
| Capabilities.ExitCommand | src/capabilities.rs:162-164 | always `EXIT` |
| Capabilities.TypeMessage | src/capabilities.rs:166-178 | `: not found` without arguments; a builtin is reported as a builtin before any executable lookup; an indexed executable with its location; anything else as not found |
| Capabilities.Type | src/capabilities.rs:166-183 | continues with no output and prints the message |
| Capabilities.CdTarget | src/capabilities.rs:116-127 | no argument means the home directory; a path not starting with `~` is used as is; one starting with `~` is the home value followed by the rest of the argument with every `~` replaced by the home value, and has no `~` left when the home value has none |
| Capabilities.CdTargetSettles | src/capabilities.rs:116-127 | when the home value has no `~`, the path is settled: building the path again from it gives it back |
| ShellCommandText.StripNewlines | src/shell_command.rs:9 | no newline remains; a line without newlines is unchanged; a lone newline becomes empty and any other single character is kept |
| ShellCommandText.StripNewlinesAppend | src/shell_command.rs:9 | stripping distributes over concatenation, so with the one-character cases it removes exactly the newlines and keeps every other character in order |
| ShellCommandText.Parse | src/shell_command.rs:8-21 | neither part holds a newline; with a space, the command has no space and `command + " " + arguments` rebuilds the stripped line; without one, the command is the stripped line and the arguments are empty |
| ShellCommandText.ParseJoined | src/shell_command.rs:10-14 | the converse round trip: parsing `command + " " + arguments` with a space-free command gives back both parts |
| Shell.New | src/shell.rs:98-104 | a new shell keeps the search path, has an empty history and the five builtins, and indexes exactly the names of the scan |
| Shell.ParseCmd | src/shell.rs:106-128 | a success names a known command with no space that starts the trimmed line; a failure quotes the trimmed line; for a line without a space, success happens exactly when the line is a known name, with no arguments |
| Shell.ParseCmdWithSpace | src/shell.rs:118-127 | on a trimmed line with a space, the command is the text before the first space; an unknown one fails quoting the whole line; a known one gets the older tokenizer's tokens of the rest |
| Shell.KnownWordLine | src/shell.rs:106-128 | a line made of a known word, a space and text ending in a non-blank parses to that word and the tokens of the text |
| Shell.EchoLine | src/shell.rs:106-128 | `echo` followed by plain text parses to the echo command, and echoing its tokens prints the text with runs of spaces collapsed |
| Shell.Route | src/shell.rs:183-196 | no handler exactly for unknown names; a known builtin name gets its own builtin handler, any other known name the external runner |
| Shell.Execute | src/shell.rs:182-201 | an unknown name fails with `<name>: command not found` and leaves the shell unchanged; a known one is appended to the history; a builtin reports `EXIT` for `exit` and `CONTIUE` otherwise; a known non-builtin continues when the runner succeeds and fails with the runner's error text otherwise; `EXIT` comes exactly from a known `exit` |
| Shell.BuiltinsWin | src/shell.rs:189-196 | a builtin name is handled in-process whatever executables are indexed, one of the same name included, and whatever the external runner would do |
| Shell.TypeAgreesWithRoute | src/shell.rs:183-196 | `type` reports a builtin, a location, or not found exactly as `execute` would route the name |
| Shell.ExecuteAll | src/shell.rs:182-201 | running commands never changes the index or the search path |
| Shell.HistoryRecordsAccepted | src/shell.rs:198 | over any sequence of commands the history grows by exactly the accepted ones, once each and in order |

## Left out

- The directory scan itself (splitting PATH, `read_dir`, the executable-bit
  test, the three-directory chunks, the threads and the channel;
  src/capabilities.rs:20-50). It is filesystem and concurrency. The
  collector is modelled over an arbitrary sequence of pairs instead, which
  covers every interleaving.
- src/executables.rs: not used by the modelled code.
- `run_executable` (src/shell.rs:156-180): spawning a process and decoding
  its output are foreign calls. Its outcome is a parameter of
  `Shell.Execute`, of type `RunOutcome`: success stands for its
  `Ok(CONTIUE)`, failure carries the error text.
- `Shell::run` (src/shell.rs:130-154) and src/main.rs: the stdin/stdout
  read-eval loop.
- `pwd` and the filesystem half of `cd` (current directory, `canonicalize`,
  `set_current_dir`; src/capabilities.rs:107-113 and 129-159): ambient
  process state. The HOME value is a parameter of `CdTarget`, so the panic
  for a missing HOME is not modelled.
- Every `println!`: printed text is returned as a string where it is the
  result (`TypeMessage`), and dropped otherwise. This includes the extra
  not-found line `parse_cmd` prints before returning its error
  (src/shell.rs:119).
- DirEntry paths are strings. The case where a path is not valid UTF-8
  (`to_str` failing, read as "" by the precedence test and as an error by
  `get_location`) is not modelled.
- The unused parser fields `index` and `outside_string_space`.
- Shell.Execute: a builtin's result is reported as `EXIT` for `exit` and
  `CONTIUE` otherwise. This is as src/shell.rs types it, so echo's output
  and the builtin handlers' own effects are not carried through `execute`.
  They are stated on the `Capabilities` handlers.
