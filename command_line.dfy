/**
 * `parse()` from end to end: the raw-key read loop fills the line buffer,
 * the leading spaces are stripped, and the split loop turns the line into
 * the NULL-terminated argument vector handed to `execvp`.
 */
module CommandLine {
  import opened Chars
  import opened Display
  import opened LineEdit
  import opened Lexer
  import opened Tokenizer
  import Editor

  /** What `parse()` returns: the argument vector, pointing into the stripped line. */
  datatype Command = Command(line: array<char>, args: array<Arg>, count: nat, overrun: bool)

  /**
   * Reads keys from `input` until a line is entered or the input ends, then
   * splits that line. Ctrl-C in MyShell ends the process (`exit(1)`), and
   * then there is no command.
   */
  method Parse(shell: Shell, input: seq<char>)
    returns (ops: seq<DisplayOp>, status: Status, consumed: nat, command: Option<Command>)
    ensures var r := Run(shell, EditLine([], 0), input);
      ops == r.ops && status == r.status && consumed == r.consumed
    ensures command.None? <==> status == Interrupted
    ensures status == Interrupted ==> shell == MyShell
    ensures command.Some? ==>
      var c, line := command.value, Run(shell, EditLine([], 0), input).line.text;
      && fresh(c.line) && fresh(c.args)
      && c.count < c.args.Length && c.args[c.count] == Null
      && Pointers(c.line[..], c.args[..])
      && Argv(c.line[..], c.args[..]) == Tokens(line).tokens
      && c.count == |Tokens(line).tokens|
      && c.overrun == Tokens(line).overrun
  {
    var editor := new Editor.LineEditor(shell);
    ops, status, consumed := editor.ReadLine(input);
    if status == Interrupted {
      command := None;
      return;
    }
    ghost var text := editor.Line().text;
    var line, len := StripLeadingSpaces(editor.data, editor.length);
    var args, count, overrun := Tokenize(line, len);
    command := Some(Command(line, args, count, overrun));
  }
}
