/**
 * The part of the prompt loop that consumes the parser: each line read is
 * marshalled into a fresh `Command`; a refused line sends the loop round
 * again, and an accepted one has its command type unwrapped and dispatched.
 */
module Prompt {
  import opened Text
  import opened Commands

  /** One line through `read_commands` up to the dispatch: `None` when the
      loop goes round again, otherwise the command type to dispatch on. The
      unwrap of the command type after a successful marshal cannot fail:
      `Marshal` promises the field is set whenever it reports `Ok`. */
  method ReadCommand(line: string) returns (selected: Option<CommandType>)
    ensures selected.None? <==> IsBlank(line)
    ensures selected.Some? ==> Parse(line) == Ok(selected.value)
  {
    var c := new Command();
    var r := c.Marshal(line);
    if r.Err? {
      return None;
    }
    var unwrapped := c.commandType.value;
    return Some(unwrapped);
  }
}
