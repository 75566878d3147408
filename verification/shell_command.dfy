/** `ShellCommand::parse` of src/shell_command.rs: the line without its
    newlines, split at the first space into a command word and the raw
    argument text. In this file the arguments are one unparsed string. */
module ShellCommandText {
  import opened Wrappers
  import opened Text

  datatype ShellCommand = ShellCommand(command: string, arguments: string)

  /** The line with every newline removed (`cmd.replace("\n", "")`). */
  function StripNewlines(line: string): (r: string)
    ensures '\n' !in r
    ensures '\n' !in line ==> r == line
    ensures |line| == 1 ==> r == (if line[0] == '\n' then [] else line)
  {
    Replace(line, '\n', [])
  }

  /** Stripping works piece by piece: together with the one-character case
      of `StripNewlines`' contract, this fixes every other character in
      place and in order. */
  lemma StripNewlinesAppend(a: string, b: string)
    ensures StripNewlines(a + b) == StripNewlines(a) + StripNewlines(b)
  {
    ReplaceAppend(a, b, '\n', []);
  }

  function Parse(line: string): (r: ShellCommand)
    ensures '\n' !in r.command && '\n' !in r.arguments
    ensures ' ' in StripNewlines(line) ==>
              ' ' !in r.command && r.command + " " + r.arguments == StripNewlines(line)
    ensures ' ' !in StripNewlines(line) ==>
              r.command == StripNewlines(line) && r.arguments == ""
  {
    var stripped := StripNewlines(line);
    match SplitOnce(stripped, ' ')
    case Some((command, arguments)) => ShellCommand(command, arguments)
    case None => ShellCommand(stripped, "")
  }

  /** The converse of the round trip in `Parse`'s contract: joining a
      space-free word and a newline-free argument text with one space and
      parsing the result gives both back unchanged. */
  lemma ParseJoined(command: string, arguments: string)
    requires ' ' !in command && '\n' !in command && '\n' !in arguments
    ensures Parse(command + " " + arguments) == ShellCommand(command, arguments)
  {
    var line := command + " " + arguments;
    assert '\n' !in line;
    assert line == command + [' '] + arguments;
    SplitOnceUnique(command, ' ', arguments);
  }
}
