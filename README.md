# Duke command engine — a Dafny model

This project models the command-execution engine of Duke, a personal task tracker. A user
command is one of a closed set: add a to-do, a deadline or an event; delete a task by its
item number; mark a task as done by its item number; exit. Executing a command against the
ordered task list either produces a reply for the user or raises a `DukeException`. Item
numbers are 1-based. The rule the model is built around: **every failure happens before the
list is changed**, and every successful change is saved exactly once.

Layout, one module per file:

- `results.dfy` (`Results`): `Option` and `Result`. A Java method that may throw becomes a
  function or method returning one of these.
- `int_parse.dfy` (`IntParse`): `Integer.parseInt` over ASCII: an optional `+` or `-`, at
  least one digit, and a value within the 32-bit range. Also the decimal rendering of a count.
- `date_times.dfy` (`DateTimes`): the `dd/MM/yyyy HH:mm` date-time parser and its rendering.
- `splitting.dfy` (`Splitting`): Java's `String.split` for a literal separator. It keeps every
  piece, drops trailing empty pieces, and returns the input unchanged when the separator does
  not occur. `FirstTwo` describes pieces 0 and 1 directly, by the first and second occurrence.
- `tasks.dfy` (`Tasks`): to-dos, deadlines and events, and `markDone`.
- `duke_exceptions.dfy` (`DukeExceptions`): the exceptions the commands raise.
- `command_types.dfy` (`CommandTypes`): the command kinds and their lower-case names.
- `task_lists.dfy` (`TaskLists`): the `TaskList` and `Storage` classes that the commands
  change in place, with an assumed 1-based contract.
- `replies.dfy` (`Replies`): a reply's content, its wording, and `Transition`. A `Transition`
  is the reply or exception paired with the list afterwards.
- `add_command.dfy`, `delete_command.dfy`, `done_command.dfy`: one module per command class.
  Each has a pure `Apply` that specifies the command, and imperative `Execute` methods. The
  methods follow the Java flow call by call, and each is proved equal to `Apply`.
- `commands.dfy` (`Commands`): the `Command` sum type, `IsExit`, and the dispatch done by
  `Step` and `Execute`.

External collaborators are stood in for as follows. `TaskList` is a class over a
`seq<Task>`, and `Storage` is a class that keeps the last saved list and a count of saves.
The task rendering (`Task.toString`) is a function parameter of `Replies.Text`. Console
printing and `Ui.returnReply` are not modelled: a reply is the `Reply` value handed to them.

Behaviour of the code worth stating plainly:

- A missing or unreadable date-time raises `WrongDeadlineException` (`WrongDeadline` here),
  with the kind and separator of the branch that failed.
- Add does not check that the name is non-empty. `" /by 01/12/2024 18:00"` builds a deadline
  with an empty name, because `String.split` keeps a leading empty piece.
- The command raises `WrongItemIndexException` only when `parseInt` rejects the operand: it
  is not a number, or it is a number outside the int range such as `3000000000`. That
  exception carries the current, unchanged length. An in-range number outside 1..length fails
  with whatever `TaskList` raises, modelled as `IndexOutOfRange`.
- `Command.execute(TaskList, Storage, Ui)` (Command.java:22) is the abstract method that
  DeleteCommand and DoneCommand implement. AddCommand does not implement it: its
  `execute(TaskList, Storage)` (AddCommand.java:41) and `executeToGui(TaskList, Storage, Ui)`
  (AddCommand.java:76) have other signatures, so neither overrides it. `Commands.Execute`
  routes an add to `ExecuteToGui`, the path that returns a reply. That routing is the model's
  choice; the source has no dispatch that reaches AddCommand through `Command.execute`.

## Model

| member | source | states |
|---|---|---|
| `IntParse.ParseInt` | src/main/java/duke/command/DeleteCommand.java:29 | parseInt succeeds only on a sign and digits whose value is a Java int; the value is the signed digit value; every such string whose signed value is in range parses, `-2147483648` included |
| `IntParse.NatToString` | src/main/java/duke/command/AddCommand.java:106-107 | the count in a reply is written as decimal digits, without leading zeros, that read back as the count |
| `IntParse.ParseIntToString` | src/main/java/duke/command/DeleteCommand.java:29 | parseInt reads back the decimal rendering of every 32-bit int |
| `IntParse.ParseIntOverflow` | src/main/java/duke/command/DeleteCommand.java:29 | the rendering of a number outside the 32-bit range fails to parse (NumberFormatException) |
| `IntParse.ParseIntLeadingZero` | src/main/java/duke/command/DoneCommand.java:29 | a zero after the optional sign (`05`, `+05`, `-05`) does not change the parsed item number |
| `IntParse.ParseIntPlusSign` | src/main/java/duke/command/DoneCommand.java:29 | an explicit `+` does not change the parsed item number |
| `IntParse.ParseIntRejects` | src/main/java/duke/command/DeleteCommand.java:29 | an empty string, a lone sign, or a string with a non-digit does not parse |
| `DateTimes.ParseDateTime` | src/main/java/duke/command/AddCommand.java:83-84 | a successful parse yields in-range fields (day 1-31, month 1-12, hour 0-23, minute 0-59) whose rendering is exactly the input |
| `DateTimes.ParseFormat` | src/main/java/duke/command/AddCommand.java:83-84 | every in-range date-time reads back from its `dd/MM/yyyy HH:mm` rendering |
| `DateTimes.ParseRejectsMonth13` | src/main/java/duke/command/AddCommand.java:83-84 | `31/13/2024 10:00` does not parse |
| `Splitting.IndexOf` | src/main/java/duke/command/AddCommand.java:81 | the result is the leftmost occurrence of the separator; None exactly when there is none |
| `Splitting.Split` | src/main/java/duke/command/AddCommand.java:81 | `split` returns the input alone when the separator is absent; otherwise a prefix of all pieces, followed in the full split only by empty pieces, whose last kept piece is not empty; no piece contains the separator |
| `Splitting.SplitAll` | src/main/java/duke/command/AddCommand.java:81 | the split keeps at least one piece |
| `Splitting.JoinSplitAll` | src/main/java/duke/command/AddCommand.java:81 | joining the pieces with the separator gives back the description |
| `Splitting.SplitAllPiecesFree` | src/main/java/duke/command/AddCommand.java:81 | no piece contains the separator |
| `Splitting.StripTrailingEmpty` | src/main/java/duke/command/AddCommand.java:81 | only trailing empty pieces are removed, and the kept list does not end in an empty piece |
| `Splitting.FirstTwo` | src/main/java/duke/command/AddCommand.java:81-85 | piece 0 is the text before the first separator; piece 1 runs from after it to the second separator or the end; None exactly when the separator does not occur |
| `Splitting.SplitAllFirstTwo` | src/main/java/duke/command/AddCommand.java:81-85 | the untrimmed split has two pieces exactly when the separator occurs, and they are FirstTwo's |
| `Splitting.SplitFirstTwo` | src/main/java/duke/command/AddCommand.java:81-85 | `descElements[0]` and `descElements[1]` exist and are FirstTwo's pieces whenever piece 1 is not empty; if index 1 is in bounds at all, the separator occurs and the two entries are FirstTwo's pieces |
| `Splitting.SecondIsFree` | src/main/java/duke/command/AddCommand.java:81-85 | piece 1 contains no separator |
| `Splitting.FirstOccurrenceKept` | src/main/java/duke/command/AddCommand.java:81-85 | cutting the description after piece 1 keeps the same first separator |
| `Splitting.FirstTwoIgnoresTail` | src/main/java/duke/command/AddCommand.java:81-85 | text after a second separator does not change pieces 0 and 1 |
| `Splitting.MissingCharNoOccurrence` | src/main/java/duke/command/AddCommand.java:81 | a string that lacks one of the separator's characters has no occurrence of it |
| `Splitting.NameBeforeSeparator` | src/main/java/duke/command/AddCommand.java:81 | a name without a space is followed by the first occurrence of `" /by "` or `" /at "` |
| `Splitting.FirstTwoOfParts` | src/main/java/duke/command/AddCommand.java:81-85 | name, separator and a separator-free text split back into that name and that text |
| `CommandTypes.LowerName` | src/main/java/duke/command/DeleteCommand.java:36 | `toString().toLowerCase()` of a kind is a non-empty word of lower-case letters |
| `CommandTypes.LowerNameInjective` | src/main/java/duke/command/DoneCommand.java:35 | distinct kinds have distinct lower-case names |
| `Replies.Text` | src/main/java/duke/command/AddCommand.java:102-107 | the placeholder text is `Test from AddCommand`; every reply that names a task starts with its kind's wording and shows the task's rendering right after it |
| `Replies.CountReadsBack` | src/main/java/duke/command/DeleteCommand.java:33-34 | the count in an add or delete reply reads back, with parseInt, from the digits between its wording |
| `Tasks.MarkDone` | src/main/java/duke/command/DoneCommand.java:31 | marking sets the done flag and changes nothing else; marking again changes nothing |
| `TaskLists.Lookup` | src/main/java/duke/command/DeleteCommand.java:30 | a number in 1..length gives the task at that position; any other fails with IndexOutOfRange carrying the number and the length (assumed TaskList contract) |
| `TaskLists.RemoveAt` | src/main/java/duke/command/DeleteCommand.java:31 | removal shortens the list by one, keeps the tasks before the position, moves the later ones up, and loses exactly the removed task (multiset) |
| `TaskLists.MarkAt` | src/main/java/duke/command/DoneCommand.java:31 | marking keeps the length, marks the numbered task done, and leaves every other task unchanged |
| `TaskLists.MarkAtIdempotent` | src/main/java/duke/command/DoneCommand.java:27-37 | marking the same item twice leaves the list as marking it once |
| `TaskLists.Storage.SaveAll` | src/main/java/duke/command/AddCommand.java:104 | a save overwrites the store with the whole list and counts one save |
| `TaskLists.TaskList.GetListLength` | src/main/java/duke/command/DeleteCommand.java:34 | getListLength is the current number of tasks |
| `TaskLists.TaskList.GetTask` | src/main/java/duke/command/DeleteCommand.java:30 | getTask returns the task at the 1-based position or the out-of-range failure |
| `TaskLists.TaskList.AddTask` | src/main/java/duke/command/AddCommand.java:104 | addTask appends the task and saves the new list once |
| `TaskLists.TaskList.DeleteTask` | src/main/java/duke/command/DeleteCommand.java:31 | deleteTask removes the numbered task and saves once; an invalid number changes neither the list nor the store |
| `TaskLists.TaskList.MarkDone` | src/main/java/duke/command/DoneCommand.java:31 | markDone marks the numbered task and saves once; an invalid number changes neither the list nor the store |
| `AddCommand.SplitDated` | src/main/java/duke/command/AddCommand.java:81-89 | the `try` block (split, index 1, parse, index 0) gives exactly the name and date-time of the first two pieces, and None whenever a piece is missing or the date-time does not parse |
| `AddCommand.BuildTask` | src/main/java/duke/command/AddCommand.java:77-100 | TODO uses the whole description as the name; DEADLINE uses pieces around the first `" /by "`; every other kind becomes an event around `" /at "`; any failure is `WrongDeadline("deadline","/by")` or `("event","/at")` |
| `AddCommand.Apply` | src/main/java/duke/command/AddCommand.java:77-109 | a failed add leaves the list unchanged; a successful one appends the built task once, and its reply names that task and the new length, never the placeholder |
| `AddCommand.ExecuteToGui` | src/main/java/duke/command/AddCommand.java:76-110 | the reply-returning path makes the change Apply specifies and saves once on success; on failure the store is untouched |
| `AddCommand.Execute` | src/main/java/duke/command/AddCommand.java:41-73 | the console path makes the same list change and raises the same exception as the reply-returning path |
| `AddCommand.OtherKindsAreEvents` | src/main/java/duke/command/AddCommand.java:90 | any kind other than TODO and DEADLINE is handled as an event |
| `AddCommand.IgnoresTextAfterSecondSeparator` | src/main/java/duke/command/AddCommand.java:81-85 | a dated add built from the description equals the one built from its first two pieces alone (lines 91-95 likewise) |
| `AddCommand.DatedFromParts` | src/main/java/duke/command/AddCommand.java:81-85 | a name, a separator and a text without `b`/`a` split into exactly that name and that text |
| `AddCommand.DeadlineFromParts` | src/main/java/duke/command/AddCommand.java:80-86 | `name /by <rendered date-time>` builds exactly the deadline with that name and date-time |
| `AddCommand.EventFromParts` | src/main/java/duke/command/AddCommand.java:90-96 | `name /at <rendered date-time>` builds exactly the event with that name and date-time |
| `AddCommand.DeadlineWithMonth13Fails` | src/main/java/duke/command/AddCommand.java:83-89 | a one-word deadline dated `31/13/2024 10:00` fails with `WrongDeadline("deadline","/by")` and leaves the list unchanged |
| `DeleteCommand.Apply` | src/main/java/duke/command/DeleteCommand.java:27-41 | an operand parseInt rejects (not a number, or outside the int range) fails with `WrongItemIndex("delete", length)`; an int outside 1..length fails with the list's `IndexOutOfRange` unchanged; either way the list stays the same; otherwise the numbered task is removed, the length drops by one, and the reply names the removed task and the new length |
| `DeleteCommand.Execute` | src/main/java/duke/command/DeleteCommand.java:27-41 | getTask then deleteTask with the same number realise Apply; the store is saved once on success and untouched on failure |
| `DeleteCommand.DeleteBeyondIntRange` | src/main/java/duke/command/DeleteCommand.java:29-37 | `delete 3000000000` is rejected by parseInt and fails with `WrongItemIndex("delete", length)`, leaving the list unchanged |
| `DeleteCommand.DeleteFirstOfTwo` | src/main/java/duke/command/DeleteCommand.java:30-34 | deleting `"1"` from [read, sleep] replies with read and a count of 1, and leaves [sleep] |
| `DoneCommand.Apply` | src/main/java/duke/command/DoneCommand.java:27-37 | an operand parseInt rejects (not a number, or outside the int range) fails with `WrongItemIndex("done", length)`; an int outside 1..length fails with the list's `IndexOutOfRange`; either way the list is unchanged; the length is always preserved; on success only the numbered task changes, to done, and the reply shows it |
| `DoneCommand.Execute` | src/main/java/duke/command/DoneCommand.java:27-37 | getTask then markDone with the same number realise Apply; an invalid number never reaches markDone or the store |
| `DoneCommand.DoneBeyondIntRange` | src/main/java/duke/command/DoneCommand.java:29-36 | `done 3000000000` is rejected by parseInt and fails with `WrongItemIndex("done", length)`, leaving the list unchanged |
| `DoneCommand.DoneTwiceIsDoneOnce` | src/main/java/duke/command/DoneCommand.java:27-37 | repeating a successful done succeeds again with the same reply and the same list |
| `Commands.IsExit` | src/main/java/duke/command/Command.java:24-29 | isExit is true exactly for the exit command; add, delete and done report false whatever their operands |
| `Commands.Step` | src/main/java/duke/command/Command.java:13-22 | execute returns a reply or an exception; an exception leaves the list unchanged; on success add grows the list by one keeping the old tasks, delete shrinks it by one, done and exit keep its length; no reply is the placeholder |
| `Commands.Execute` | src/main/java/duke/command/Command.java:22 | dispatch on the command realises Step against the list and storage passed in; a successful change is saved exactly once, a failure saves nothing, and a store that matched the list still matches it |

## Left out

- `DateTimes.ParseDateTime`: a simplified stand-in for `LocalDateTime.parse` with that
  pattern. Every field must have exactly its width, and the year exactly four digits. The day
  is checked only against 1..31. The library's resolver clamps every day past the end of its
  month to the month's last day (`30/02/2024` becomes 29 February 2024, `29/02/2023` becomes
  28 February 2023) and checks the year of era; neither is modelled. The library accepts
  `24:00` as midnight of the next day; the model refuses it. The library's `yyyy` field also
  accepts a `+`-signed year of more than four digits, such as `01/12/+12345 18:00`; the model
  refuses it.
- `IntParse.ParseInt`: only ASCII digits are accepted. Java's `Integer.parseInt` also accepts
  other Unicode decimal digits.
- Console printing (`System.out.println` in the console path) and the wording `Ui.returnReply`
  wraps around a reply are not modelled. `Replies.Text` gives the message text up to the task
  rendering, and `Task.toString` is a parameter because it is not part of this model.
- The Done reply (`DoneCommand.Apply`) shows the task as done because the model assumes that
  `getTask` returns the very object that `markDone` then changes, so its rendering after the
  change includes the done mark. TaskList.java is not part of this model, so this aliasing is
  part of the assumed TaskList contract, not a fact read from its code.
- TaskList.java, Storage.java, Task.java and its subclasses, CommandType.java and the
  exception classes are not part of this model. Their behaviour is the assumed contract of
  `TaskLists`, `Tasks`, `CommandTypes` and `DukeExceptions`. File I/O is replaced by the
  in-memory `Storage` snapshot and its save count.
- ExitCommand.java is not part of this model. The exit command is modelled as changing
  nothing and replying `Farewell`, whose wording is not modelled.
- The list and find commands, the parser that builds commands from input lines, and the
  console and GUI event loops lie outside this engine and are not modelled.
