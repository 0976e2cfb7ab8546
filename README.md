# Command parser of the UDP-discovery chat prompt

The program is a peer-to-peer chat for a local network. A peer can become a
host, which announces itself over UDP and relays TCP chat lines, or a
client, which collects announcing hosts and connects to one. The user
drives it from an interactive prompt. This project models the part of the
prompt that turns a typed line into a command: `Command::marshal` in
`src/structs/command.rs`, the `CommandType` enumeration, the `Command`
record and its constructor `new()`.

`marshal` splits the line into whitespace-separated words. It refuses a line
with no word with the error "No command provided" and leaves the record
alone. Otherwise it upper-cases the first word, and for BECOME and LIST the
second word too, and looks them up in a fixed keyword table. Anything it
does not recognise becomes HELP. It stores the result in the record's
command type.

The project has four files:

- `text.dfy` (module `Text`): models `split_whitespace` and `to_uppercase`.
  - `SplitWhitespace` splits a line into words.
  - `Layout` and `Gaps` are its inverse: they put the words back with the
    whitespace between them.
  - `ToUpper` upper-cases a word.
- `command.dfy` (module `Commands`):
  - `CommandType`, the `Option` and `Result` types, and the `Command` class
    with its constructor and `Marshal`.
  - `Classify` is the keyword table. `Parse` is the whole outcome for a
    line. Lemmas state what they do.
- `prompt.dfy` (module `Prompt`): the step of the prompt loop that marshals
  a line and unwraps the command type. Its contract shows the unwrap cannot
  panic.
- `examples.dfy` (module `CommandExamples`): the line `"  become   HoSt "`
  worked through.

## Model

| member | source | states |
|---|---|---|
| `Text.SplitWhitespace` | src/structs/command.rs:24 | every word it yields is non-empty and free of whitespace, and it yields no word exactly when the line is all whitespace (or empty) |
| `Text.SplitLayout` | src/structs/command.rs:24 | words laid out with any whitespace gaps (non-empty between words, possibly empty at the ends) split back to exactly those words, so the split depends only on the words and not on the amount or kind of whitespace |
| `Text.GapsValid` | src/structs/command.rs:24 | the gaps of any line are whitespace only and keep consecutive words apart |
| `Text.LayoutSplit` | src/structs/command.rs:24 | every line is its words put back with its gaps, so splitting drops nothing but whitespace |
| `Text.ToUpper` | src/structs/command.rs:29 | the upper-cased word contains no lower-case ASCII letter and is at least as long as the word |
| `Text.ToUpperAppend` | src/structs/command.rs:29 | upper-casing works character by character: it distributes over concatenation |
| `Text.ToUpperIdempotent` | src/structs/command.rs:29 | upper-casing an upper-cased word changes nothing |
| `Text.ToUpperWord` | src/structs/command.rs:29 | upper-casing a word gives a word (non-empty, no whitespace) |
| `Text.ToUpperBlank` | src/structs/command.rs:29 | upper-casing leaves whitespace unchanged |
| `Text.ToUpperAscii` | src/structs/command.rs:29 | on ASCII text upper-casing maps each character to one character: letters a-z to A-Z, everything else to itself |
| `Text.MatchesKeywordIgnoringCase` | src/structs/command.rs:29-30 | an ASCII word upper-cases to a keyword exactly when it spells the keyword with each letter in either case |
| `Text.SplitToUpper` | src/structs/command.rs:24-29 | the words of an upper-cased line are the upper-cased words of the line |
| `Commands.Classify` | src/structs/command.rs:29-64 | the keyword table, entry by entry in both directions: EXIT, CLEAR, CONNECT and DISCONNECT as first word give their own type whatever follows; BECOME HOST gives BecomeHost and BECOME CLIENT gives BecomeClient; LIST HOSTS gives ListHosts; START followed by any word gives Start; Send and Receive are never produced |
| `Commands.ClassifyHelp` | src/structs/command.rs:29-63 | HELP results exactly when the first word is HELP, or BECOME, LIST or START stand alone, or BECOME or LIST are followed by an unknown second word, or the first word is not a keyword |
| `Commands.Parse` | src/structs/command.rs:24-27 | a line is refused with "No command provided" exactly when it holds no word; an accepted line never yields Send or Receive |
| `Commands.ParseLayout` | src/structs/command.rs:24-29 | a line laid out from words with any valid gaps parses as the classification of those words, or is refused when there is no word |
| `Commands.ClassifyUpperWords` | src/structs/command.rs:29-53 | classifying the upper-cased words gives the same type as classifying the words |
| `Commands.ParseIgnoresCase` | src/structs/command.rs:29-48 | upper-casing the whole line does not change how it parses |
| `Commands.Command.constructor` | src/structs/command.rs:70-75 | a new record has no command type and no argument words |
| `Commands.Command.Marshal` | src/structs/command.rs:23-67 | refuses exactly the lines with no word, with "No command provided", and then leaves the command type as it was; otherwise sets the command type to the parsed type; never changes the argument words |
| `Prompt.ReadCommand` | src/cmd.rs:43-49 | a fresh record marshals the line; the loop goes round again exactly for a blank line, and otherwise the command type unwrapped after marshalling is set and equals the parsed type |
| `CommandExamples.BecomeHostExample` | src/structs/command.rs:24-38 | `"  become   HoSt "` parses as BecomeHost, the same as `"BECOME HOST"` |

## Left out

- Text.ToUpper: models `to_uppercase` only for the ASCII letters and for the characters whose upper-case form is all ASCII letters. These are sharp s, dotless i, long s and the ligatures U+FB00 to U+FB06. Every other character maps to itself. The real upper-case form of such a character always contains a non-ASCII character, so it can never spell a keyword. The classification is therefore the same, but the upper-cased string itself can differ.
- Whitespace is Unicode's White_Space set, the set `char::is_whitespace` tests, written out character by character.
- The rest of the prompt loop in `src/cmd.rs:11-109` is left out because it is terminal input and output and awaits long-running network sessions. This covers reading stdin, switching the user to a host or client role, the "Select user type" hint, and executing a command. Only the step that marshals a line and unwraps its command type is modelled, in `Prompt.ReadCommand`.
- `update_prompt_str` (`src/cmd.rs:111-125`) is left out: its only logic is string formatting with terminal colours.
- The quit watcher (`src/global/helper.rs`) is left out: it is a spawned task that reads stdin and signals a channel, so it is concurrency and I/O.
- UDP discovery, the TCP relay and the discovery message are left out: they are network I/O over the standard library's socket types.
- The `Client`, `Host` and `User` types are left out: they only print. Their `execute_command` signatures do not agree with the `UserTrait` declaration.
- `main` is left out: it is command-line parsing with clap.
- The variants `_Send` and `_Receive` are named `Send` and `Receive` here, because Dafny identifiers do not start with an underscore.
- The argument list `_args` is kept as a field. Nothing in the source ever fills it.
- The lifetime of the Rust `&str` slices into the line is not modelled. Words are modelled as copies (`string` values).
