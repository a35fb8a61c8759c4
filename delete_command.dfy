/** DeleteCommand: removes the task whose item number the operand gives. */
module DeleteCommand {
  import opened Results
  import opened IntParse
  import opened Tasks
  import opened DukeExceptions
  import opened CommandTypes
  import opened TaskLists
  import opened Replies

  /** A delete seen from outside. */
  function Apply(operand: string, items: seq<Task>): (t: Transition)
    ensures ParseInt(operand).None? ==> t == Transition(Err(WrongItemIndex("delete", |items|)), items)
    ensures ParseInt(operand).Some? && !ValidIndex(items, ParseInt(operand).value) ==>
      t == Transition(Err(IndexOutOfRange(ParseInt(operand).value, |items|)), items)
    ensures t.reply.Err? ==> t.after == items
    ensures t.reply.Ok? <==> ParseInt(operand).Some? && ValidIndex(items, ParseInt(operand).value)
    ensures t.reply.Ok? ==>
      var index := ParseInt(operand).value;
      && |t.after| == |items| - 1
      && t.after == RemoveAt(items, index)
      && t.reply.value == Deleted(items[index - 1], |t.after|)
  {
    match ParseInt(operand)
    case None => Transition(Err(WrongItemIndex(LowerName(DELETE), |items|)), items)
    case Some(taskNum) =>
      match Lookup(items, taskNum)
      case Err(e) => Transition(Err(e), items)
      case Ok(task) =>
        var after := RemoveAt(items, taskNum);
        Transition(Ok(Deleted(task, |after|)), after)
  }

  /** execute: parse the item number, fetch the task, then delete it with the same number. */
  method Execute(operand: string, tasks: TaskList, storage: Storage) returns (r: Result<Reply, DukeException>)
    modifies tasks, storage
    ensures Transition(r, tasks.items) == Apply(operand, old(tasks.items))
    ensures r.Ok? ==> storage.saved == tasks.items && storage.saves == old(storage.saves) + 1
    ensures r.Err? ==> unchanged(storage)
  {
    var parsed := ParseInt(operand);
    if parsed.None? {
      var length := tasks.GetListLength();
      return Err(WrongItemIndex(LowerName(DELETE), length));
    }
    var taskNum := parsed.value;
    var task := tasks.GetTask(taskNum);
    if task.Err? {
      return Err(task.error);
    }
    var removed := tasks.DeleteTask(taskNum, storage);
    var length := tasks.GetListLength();
    // deleteTask accepts every number getTask accepted; its exception would be rethrown as is
    r := match removed
      case Err(e) => Err(e)
      case Ok(_) => Ok(Deleted(task.value, length));
  }

  /** The scenario of deleting "1" from [read, sleep]: the reply names "read", one task is left. */
  lemma DeleteFirstOfTwo()
    ensures Apply("1", [Todo("read", false), Todo("sleep", false)])
      == Transition(Ok(Deleted(Todo("read", false), 1)), [Todo("sleep", false)])
  {
    assert Unsigned("1") == "1";
    assert DigitsValue("1") == 1 by { assert "1"[..0] == ""; }
  }

  /** A digit string beyond the int range is rejected by parseInt, so it fails as a
      non-number would, with the unchanged length, and never reaches the list. */
  lemma DeleteBeyondIntRange(items: seq<Task>)
    ensures Apply("3000000000", items) == Transition(Err(WrongItemIndex("delete", |items|)), items)
  {
    ParseIntOverflow(3000000000);
    assert IntToString(3000000000) == "3000000000";
  }
}
