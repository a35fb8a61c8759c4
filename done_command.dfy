/** DoneCommand: marks as done the task whose item number the operand gives. */
module DoneCommand {
  import opened Results
  import opened IntParse
  import opened Tasks
  import opened DukeExceptions
  import opened CommandTypes
  import opened TaskLists
  import opened Replies

  /** A done seen from outside. The reply renders the fetched task after markDone changed it,
      so it shows the task as done. */
  function Apply(operand: string, items: seq<Task>): (t: Transition)
    ensures ParseInt(operand).None? ==> t == Transition(Err(WrongItemIndex("done", |items|)), items)
    ensures ParseInt(operand).Some? && !ValidIndex(items, ParseInt(operand).value) ==>
      t == Transition(Err(IndexOutOfRange(ParseInt(operand).value, |items|)), items)
    ensures t.reply.Err? ==> t.after == items
    ensures |t.after| == |items|
    ensures t.reply.Ok? <==> ParseInt(operand).Some? && ValidIndex(items, ParseInt(operand).value)
    ensures t.reply.Ok? ==>
      var index := ParseInt(operand).value;
      && t.after[index - 1] == MarkDone(items[index - 1])
      && (forall k :: 0 <= k < |items| && k != index - 1 ==> t.after[k] == items[k])
      && t.reply.value == MarkedDone(t.after[index - 1])
  {
    match ParseInt(operand)
    case None => Transition(Err(WrongItemIndex(LowerName(DONE), |items|)), items)
    case Some(taskNum) =>
      match Lookup(items, taskNum)
      case Err(e) => Transition(Err(e), items)
      case Ok(task) => Transition(Ok(MarkedDone(MarkDone(task))), MarkAt(items, taskNum))
  }

  /** execute: parse the item number, fetch the task, then mark it done with the same number. */
  method Execute(operand: string, tasks: TaskList, storage: Storage) returns (r: Result<Reply, DukeException>)
    modifies tasks, storage
    ensures Transition(r, tasks.items) == Apply(operand, old(tasks.items))
    ensures r.Ok? ==> storage.saved == tasks.items && storage.saves == old(storage.saves) + 1
    ensures r.Err? ==> unchanged(storage)
  {
    var parsed := ParseInt(operand);
    if parsed.None? {
      var length := tasks.GetListLength();
      return Err(WrongItemIndex(LowerName(DONE), length));
    }
    var taskNum := parsed.value;
    var task := tasks.GetTask(taskNum);
    if task.Err? {
      return Err(task.error);
    }
    var failure := tasks.MarkDone(taskNum, storage);
    // the fetched task is the object markDone changed, so the reply shows it done
    r := match failure
      case Some(e) => Err(e)
      case None => Ok(MarkedDone(MarkDone(task.value)));
  }

  /** Done has no "already done" check: repeating it succeeds again, with the same reply and
      the same list. */
  lemma {:induction false} DoneTwiceIsDoneOnce(operand: string, items: seq<Task>)
    requires Apply(operand, items).reply.Ok?
    ensures Apply(operand, Apply(operand, items).after) == Apply(operand, items)
  {
    var index := ParseInt(operand).value;
    MarkAtIdempotent(items, index);
  }

  /** A digit string beyond the int range is rejected by parseInt, so it fails as a
      non-number would, with the unchanged length, and no task is marked. */
  lemma DoneBeyondIntRange(items: seq<Task>)
    ensures Apply("3000000000", items) == Transition(Err(WrongItemIndex("done", |items|)), items)
  {
    ParseIntOverflow(3000000000);
    assert IntToString(3000000000) == "3000000000";
  }
}
