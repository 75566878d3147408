/** `Shell` of src/shell.rs: splitting an input line into a command and its
    tokens (`parse_cmd`), routing a command to a builtin handler or to the
    external runner (`execute`), and the history of executed commands.

    In this file a command's arguments are a list of tokens, and the result
    of running a command is `EXIT` or `CONTIUE` with no payload. */
module Shell {
  import opened Wrappers
  import opened Text
  import opened ArgsParser
  import opened LegacyArgsParser
  import Capabilities

  datatype ShellCommand = ShellCommand(command: string, arguments: seq<string>)

  datatype ExecutionResult = Exit | Continue

  datatype Shell = Shell(path: string, capabilities: Capabilities.Capabilities, executed: seq<ShellCommand>)

  /** What `run_executable` reports: `Ok(CONTIUE)` once the program ran,
      or the error text when it could not be spawned. */
  type RunOutcome = Result<Unit, string>

  /** Where `execute` sends a known command. */
  datatype Handler = Builtin(name: string) | External

  /** `Shell::new`, given what the directory scan of `path` delivered. */
  function New(path: string, scan: seq<(string, string)>): (sh: Shell)
    ensures sh.path == path && sh.executed == []
    ensures sh.capabilities.commands == Capabilities.Builtins
    ensures sh.capabilities.executables.Keys == Capabilities.Names(scan)
  {
    Shell(path, Capabilities.New(scan), [])
  }

  predicate Known(sh: Shell, name: string) {
    Capabilities.IsExecOrBuiltin(sh.capabilities, name)
  }

  function NotFound(text: string): string {
    text + ": command not found"
  }

  /** `parse_cmd`: the trimmed line's first word must be a builtin or an
      indexed executable; the rest of the line, if any, goes through the
      tokenizer declared in src/shell.rs. */
  function ParseCmd(sh: Shell, input: string): (r: Result<ShellCommand, string>)
    ensures r.Success? ==> Known(sh, r.value.command) && ' ' !in r.value.command
    ensures r.Success? ==> r.value.command <= Trim(input)
    ensures r.Failure? ==> r.error == NotFound(Trim(input))
    ensures ' ' !in Trim(input) ==>
              (r.Success? <==> Known(sh, Trim(input)))
              && (r.Success? ==> r.value == ShellCommand(Trim(input), []))
  {
    var text := Trim(input);
    match SplitOnce(text, ' ')
    case None =>
      TrimKeepsTrimmed(text);
      if !Known(sh, Trim(text)) then Failure(NotFound(text))
      else Success(ShellCommand(text, []))
    case Some((cmd, args)) =>
      if !Known(sh, cmd) then Failure(NotFound(text))
      else Success(ShellCommand(cmd, LegacyTokenize(args)))
  }

  /** A trimmed line with a space: the command is the word before the first
      space, an unknown word is reported with the whole line, and a known
      word gets the tokens of everything after that space. */
  lemma ParseCmdWithSpace(sh: Shell, input: string, cmd: string, rest: string)
    requires Trim(input) == cmd + " " + rest && ' ' !in cmd
    ensures ParseCmd(sh, input)
         == if Known(sh, cmd) then Success(ShellCommand(cmd, LegacyTokenize(rest)))
            else Failure(NotFound(cmd + " " + rest))
  {
    assert cmd + " " + rest == cmd + [' '] + rest;
    SplitOnceUnique(cmd, ' ', rest);
  }

  /** The `match` of `execute`: unknown names have no handler; the five
      builtin names go to their handler; every other known name goes to the
      external runner. */
  function Route(caps: Capabilities.Capabilities, name: string): (h: Option<Handler>)
    ensures h.None? <==> !Capabilities.IsExecOrBuiltin(caps, name)
    ensures Capabilities.IsExecOrBuiltin(caps, name) ==>
              h == Some(if name in Capabilities.Builtins then Builtin(name) else External)
  {
    if !Capabilities.IsBuiltin(caps, name) && !Capabilities.IsExecutable(caps, name) then None
    else if name in Capabilities.Builtins then Some(Builtin(name))
    else Some(External)
  }

  /** `execute`. The outcome of running an external program is a parameter
      (process spawning is outside the model); builtin handlers report
      `EXIT` for `exit` and `CONTIUE` otherwise. A known command is appended
      to the history, an unknown one leaves the shell untouched. */
  function Execute(sh: Shell, cmd: ShellCommand, external: RunOutcome)
    : (r: (Shell, Result<ExecutionResult, string>))
    ensures !Known(sh, cmd.command) ==> r == (sh, Failure(NotFound(cmd.command)))
    ensures Known(sh, cmd.command) ==>
              r.0 == sh.(executed := sh.executed + [cmd])
    ensures Known(sh, cmd.command) && cmd.command in Capabilities.Builtins ==>
              r.1 == Success(if cmd.command == "exit" then Exit else Continue)
    ensures Known(sh, cmd.command) && cmd.command !in Capabilities.Builtins ==>
              r.1 == (if external.Success? then Success(Continue) else Failure(external.error))
    ensures r.1 == Success(Exit) <==> Known(sh, cmd.command) && cmd.command == "exit"
  {
    match Route(sh.capabilities, cmd.command)
    case None => (sh, Failure(NotFound(cmd.command)))
    case Some(h) =>
      var res := match h
        case Builtin(name) => Success(if name == "exit" then Exit else Continue)
        case External =>
          match external
          case Success(_) => Success(Continue)
          case Failure(e) => Failure(e);
      (sh.(executed := sh.executed + [cmd]), res)
  }

  /** Builtins win: with the standard builtin set, a builtin name is handled
      in-process whatever executables are indexed (one of the same name
      included) and whatever the external runner would have done. */
  lemma BuiltinsWin(sh: Shell, cmd: ShellCommand, m: map<string, string>,
                    e1: RunOutcome, e2: RunOutcome)
    requires sh.capabilities.commands == Capabilities.Builtins
    requires cmd.command in Capabilities.Builtins
    ensures Execute(sh, cmd, e1).1 == Success(if cmd.command == "exit" then Exit else Continue)
    ensures Execute(sh, cmd, e1).1
         == Execute(sh.(capabilities := sh.capabilities.(executables := m)), cmd, e2).1
  {
  }

  /** `type` describes exactly what `execute` would do with the name. */
  lemma TypeAgreesWithRoute(caps: Capabilities.Capabilities, name: string)
    requires caps.commands == Capabilities.Builtins
    ensures Route(caps, name) == Some(Builtin(name)) ==>
              Capabilities.TypeMessage(caps, [name]) == name + " is a shell builtin"
    ensures Route(caps, name) == Some(External) ==>
              Capabilities.TypeMessage(caps, [name]) == name + " is " + caps.executables[name]
    ensures Route(caps, name).None? <==>
              Capabilities.TypeMessage(caps, [name]) == name + ": not found"
  {
    var msg := Capabilities.TypeMessage(caps, [name]);
    if Route(caps, name).Some? {
      assert msg[|name|] == ' ';
      assert (name + ": not found")[|name|] == ':';
    }
  }

  /** A sequence of `execute` calls, each with the external outcome it
      would see. */
  function ExecuteAll(sh: Shell, cmds: seq<(ShellCommand, RunOutcome)>): (r: Shell)
    ensures r.capabilities == sh.capabilities && r.path == sh.path
    decreases |cmds|
  {
    if cmds == [] then sh else ExecuteAll(Execute(sh, cmds[0].0, cmds[0].1).0, cmds[1..])
  }

  /** The commands among `cmds` that pass the known-name check, in order. */
  function Accepted(sh: Shell, cmds: seq<(ShellCommand, RunOutcome)>): seq<ShellCommand>
    decreases |cmds|
  {
    if cmds == [] then []
    else (if Known(sh, cmds[0].0.command) then [cmds[0].0] else []) + Accepted(sh, cmds[1..])
  }

  /** The history grows by every accepted command, exactly once and in
      order, and by nothing else. */
  lemma {:induction false} HistoryRecordsAccepted(sh: Shell, cmds: seq<(ShellCommand, RunOutcome)>)
    ensures ExecuteAll(sh, cmds).executed == sh.executed + Accepted(sh, cmds)
    decreases |cmds|
  {
    if cmds != [] {
      var next := Execute(sh, cmds[0].0, cmds[0].1).0;
      assert next.capabilities == sh.capabilities;
      assert Accepted(next, cmds[1..]) == Accepted(sh, cmds[1..]) by {
        AcceptedDependsOnCapabilities(next, sh, cmds[1..]);
      }
      HistoryRecordsAccepted(next, cmds[1..]);
    }
  }

  lemma {:induction false} AcceptedDependsOnCapabilities(a: Shell, b: Shell, cmds: seq<(ShellCommand, RunOutcome)>)
    requires a.capabilities == b.capabilities
    ensures Accepted(a, cmds) == Accepted(b, cmds)
    decreases |cmds|
  {
    if cmds != [] {
      AcceptedDependsOnCapabilities(a, b, cmds[1..]);
    }
  }

  /** From the input line to the printed text: `echo` followed by plain
      text prints that text with its runs of spaces collapsed. */
  lemma EchoLine(sh: Shell, s: string)
    requires Capabilities.IsBuiltin(sh.capabilities, "echo")
    requires Plain(s) && s != [] && !IsWhitespace(s[|s| - 1])
    ensures ParseCmd(sh, "echo" + " " + s) == Success(ShellCommand("echo", LegacyTokenize(s)))
    ensures Capabilities.Echo(LegacyTokenize(s)) == Capabilities.Continue(Some(CollapseSpaces(s)))
  {
    assert ' ' !in "echo" && !IsWhitespace("echo"[0]);
    KnownWordLine(sh, "echo", s);
    TokenizersAgree(s);
    Capabilities.EchoCollapsesSpaces(s);
  }

  /** A line that starts with a known word and ends in a non-blank
      character parses to that word and the tokens of the rest. */
  lemma KnownWordLine(sh: Shell, cmd: string, s: string)
    requires Known(sh, cmd) && ' ' !in cmd
    requires cmd != [] && !IsWhitespace(cmd[0])
    requires s != [] && !IsWhitespace(s[|s| - 1])
    ensures ParseCmd(sh, cmd + " " + s) == Success(ShellCommand(cmd, LegacyTokenize(s)))
  {
    var line := cmd + " " + s;
    SpacedLineIsTrimmed(cmd, s);
    ParseCmdWithSpace(sh, line, cmd, s);
  }

  lemma SpacedLineIsTrimmed(cmd: string, s: string)
    requires cmd != [] && !IsWhitespace(cmd[0])
    requires s != [] && !IsWhitespace(s[|s| - 1])
    ensures Trim(cmd + " " + s) == cmd + " " + s
  {
    var line := cmd + " " + s;
    assert line[0] == cmd[0];
    assert line[|line| - 1] == s[|s| - 1];
    TrimKeepsTrimmed(line);
  }
}
