/** Command: the closed set of commands, what isExit reports of each, and one execution
    against a task list and its storage, supplied on each call. */
module Commands {
  import opened Results
  import opened Tasks
  import opened DukeExceptions
  import opened CommandTypes
  import opened TaskLists
  import opened Replies
  import AddCommand
  import DeleteCommand
  import DoneCommand

  /** The commands; each holds only the operands of one execution. */
  datatype Command =
    | Add(kind: CommandType, description: string)
    | Delete(operand: string)
    | Done(operand: string)
    | Exit

  /** isExit: true for the exit command only, whatever the operands of the others. */
  function IsExit(c: Command): (b: bool)
    ensures b <==> c == Exit
  {
    match c
    case Exit => true
    case Add(_, _) => false
    case Delete(_) => false
    case Done(_) => false
  }

  /** What a command does to a list: a failure leaves the list as it was; a success grows it
      by one (add), shrinks it by one (delete) or keeps its length (done, exit). */
  function Step(c: Command, items: seq<Task>): (t: Transition)
    ensures t.reply.Err? ==> t.after == items
    ensures t.reply.Err? ==> !c.Exit?
    ensures t.reply.Ok? && c.Add? ==> |t.after| == |items| + 1 && t.after[..|items|] == items
    ensures t.reply.Ok? && c.Delete? ==> |t.after| == |items| - 1
    ensures c.Done? || c.Exit? ==> |t.after| == |items|
    ensures t.reply.Ok? ==> t.reply.value != Placeholder
  {
    match c
    case Add(kind, description) => AddCommand.Apply(kind, description, items)
    case Delete(operand) => DeleteCommand.Apply(operand, items)
    case Done(operand) => DoneCommand.Apply(operand, items)
    case Exit => Transition(Ok(Farewell), items)
  }

  /** execute: runs the command against the list and its storage. A successful add, delete or
      done saves the new list exactly once; a failure or the exit command saves nothing, so a store
      that matched the list before still matches it after. */
  method Execute(c: Command, tasks: TaskList, storage: Storage) returns (r: Result<Reply, DukeException>)
    modifies tasks, storage
    ensures Transition(r, tasks.items) == Step(c, old(tasks.items))
    ensures r.Ok? && !c.Exit? ==> storage.saved == tasks.items && storage.saves == old(storage.saves) + 1
    ensures r.Err? || c.Exit? ==> unchanged(storage)
    ensures old(storage.saved) == old(tasks.items) ==> storage.saved == tasks.items
  {
    match c
    case Add(kind, description) =>
      r := AddCommand.ExecuteToGui(kind, description, tasks, storage);
    case Delete(operand) =>
      r := DeleteCommand.Execute(operand, tasks, storage);
    case Done(operand) =>
      r := DoneCommand.Execute(operand, tasks, storage);
    case Exit =>
      r := Ok(Farewell);
  }
}
