/**
 * The command parser of the interactive prompt: a line typed by the user is
 * split into words, the first word (and for some commands the second) is
 * compared case-insensitively with a fixed table of keywords, and the
 * resulting command type is stored in a `Command` record.
 */
module Commands {
  import opened Text

  /** What a line asks the prompt to do. */
  datatype CommandType =
    | Help          // list all commands
    | Exit          // leave the program
    | Clear         // clear the screen
    | BecomeHost    // start announcing this peer over UDP
    | BecomeClient  // listen for announcements and remember the hosts seen
    | ListHosts     // list the hosts remembered so far
    | Start         // start the TCP server that accepts clients
    | Connect       // connect to a host
    | Disconnect    // disconnect from a host
    | Send          // start a sending session; declared but never parsed
    | Receive       // start a receiving session; declared but never parsed

  datatype Option<T> = None | Some(value: T)

  datatype Result<T> = Ok(value: T) | Err(error: string)

  /** The only error `marshal` reports. */
  const NoCommandProvided: string := "No command provided"

  /** The command type of a line whose words are `args` (at least one): the
      decision table of `marshal`. The first word selects the command; BECOME
      and LIST also look at the second word, START only asks that there is
      one, and everything unrecognised falls back to HELP. */
  function Classify(args: seq<string>): (ct: CommandType)
    requires |args| > 0
    ensures ct != Send && ct != Receive
    ensures ct == Exit <==> ToUpper(args[0]) == "EXIT"
    ensures ct == Clear <==> ToUpper(args[0]) == "CLEAR"
    ensures ct == Connect <==> ToUpper(args[0]) == "CONNECT"
    ensures ct == Disconnect <==> ToUpper(args[0]) == "DISCONNECT"
    ensures ct == BecomeHost <==>
      ToUpper(args[0]) == "BECOME" && |args| >= 2 && ToUpper(args[1]) == "HOST"
    ensures ct == BecomeClient <==>
      ToUpper(args[0]) == "BECOME" && |args| >= 2 && ToUpper(args[1]) == "CLIENT"
    ensures ct == ListHosts <==>
      ToUpper(args[0]) == "LIST" && |args| >= 2 && ToUpper(args[1]) == "HOSTS"
    ensures ct == Start <==> ToUpper(args[0]) == "START" && |args| >= 2
  {
    match ToUpper(args[0])
    case "HELP" => Help
    case "EXIT" => Exit
    case "CLEAR" => Clear
    case "BECOME" =>
      if |args| < 2 then Help
      else (
        match ToUpper(args[1])
        case "HOST" => BecomeHost
        case "CLIENT" => BecomeClient
        case _ => Help)
    case "LIST" =>
      if |args| < 2 then Help
      else (
        match ToUpper(args[1])
        case "HOSTS" => ListHosts
        case _ => Help)
    case "CONNECT" => Connect
    case "DISCONNECT" => Disconnect
    case "START" => if |args| < 2 then Help else Start
    case _ => Help
  }

  /** The outcome of marshalling `line`: an error exactly when the line holds
      no word, otherwise the command type of its words. */
  function Parse(line: string): (r: Result<CommandType>)
    ensures r.Err? <==> IsBlank(line)
    ensures r.Err? ==> r.error == NoCommandProvided
    ensures r.Ok? ==> r.value != Send && r.value != Receive
  {
    var args := SplitWhitespace(line);
    if |args| == 0 then Err(NoCommandProvided) else Ok(Classify(args))
  }

  /** The parsed command of a line (`Command`): its type once a line has been
      marshalled, and argument words that nothing fills in. */
  class Command {
    var commandType: Option<CommandType>
    var args: seq<string>

    /** `command::new()`: no command type yet, no arguments. */
    constructor ()
      ensures commandType == None && args == []
    {
      commandType := None;
      args := [];
    }

    /** `Command::marshal`: parse `s` and record its command type. A line with
        no word is refused and leaves the record as it was; any other line is
        accepted and sets the command type. The argument words are never
        touched. */
    method Marshal(s: string) returns (r: Result<()>)
      modifies this
      ensures r.Err? <==> IsBlank(s)
      ensures r.Err? ==> r.error == NoCommandProvided && commandType == old(commandType)
      ensures r.Ok? ==> commandType.Some? && Parse(s) == Ok(commandType.value)
      ensures args == old(args)
    {
      var words := SplitWhitespace(s);
      if |words| == 0 {
        return Err(NoCommandProvided);
      }
      commandType := Some(Classify(words));
      return Ok(());
    }
  }

  /** HELP is what every line with a word gets unless one of the other
      entries of the table applies. */
  lemma ClassifyHelp(args: seq<string>)
    requires |args| > 0
    ensures Classify(args) == Help <==>
      var head := ToUpper(args[0]);
      || head == "HELP"
      || (head in {"BECOME", "LIST", "START"} && |args| < 2)
      || (head == "BECOME" && |args| >= 2 && ToUpper(args[1]) !in {"HOST", "CLIENT"})
      || (head == "LIST" && |args| >= 2 && ToUpper(args[1]) != "HOSTS")
      || head !in {"HELP", "EXIT", "CLEAR", "BECOME", "LIST", "CONNECT", "DISCONNECT", "START"}
  {
  }

  /** A line laid out from words and whitespace parses the same whatever the
      whitespace: "  become   HoSt " and "become HoSt" are one command. */
  lemma ParseLayout(ws: seq<string>, gs: seq<string>)
    requires forall k :: 0 <= k < |ws| ==> IsWord(ws[k])
    requires ValidGaps(ws, gs)
    ensures Parse(Layout(ws, gs)) == if ws == [] then Err(NoCommandProvided) else Ok(Classify(ws))
  {
    SplitLayout(ws, gs);
  }

  /** The table only looks at upper-cased words, so upper-casing the words
      first changes nothing. */
  lemma ClassifyUpperWords(ws: seq<string>)
    requires |ws| > 0
    ensures Classify(UpperWords(ws)) == Classify(ws)
  {
    ToUpperIdempotent(ws[0]);
    if |ws| >= 2 {
      ToUpperIdempotent(ws[1]);
    }
  }

  /** Upper-casing the whole line does not change its command: keywords
      are matched without regard to case. */
  lemma ParseIgnoresCase(line: string)
    ensures Parse(ToUpper(line)) == Parse(line)
  {
    SplitToUpper(line);
    var ws := SplitWhitespace(line);
    if ws != [] {
      ClassifyUpperWords(ws);
    }
  }
}
