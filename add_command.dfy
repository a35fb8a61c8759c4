/** AddCommand: builds a to-do, a deadline or an event from the command's description and
    appends it to the task list. */
module AddCommand {
  import opened Results
  import opened Splitting
  import opened DateTimes
  import opened Tasks
  import opened DukeExceptions
  import opened CommandTypes
  import opened TaskLists
  import opened Replies

  const BySeparator := " /by "
  const AtSeparator := " /at "

  /** The name and the date-time of a dated task, read directly: the name is the text before
      the first occurrence of the separator, the date-time the text after it up to the
      next occurrence (or the end). */
  function DatedFields(description: string, separator: string): Option<(string, DateTime)>
    requires |separator| > 0
  {
    match FirstTwo(description, separator)
    case None => None
    case Some(pieces) =>
      match ParseDateTime(pieces.1)
      case None => None
      case Some(dt) => Some((pieces.0, dt))
  }

  /** The try block of a deadline or an event: descElements[1] must exist and read as a
      date-time, and descElements[0] is the name. */
  function SplitDated(description: string, separator: string): (r: Option<(string, DateTime)>)
    requires |separator| > 0
    ensures r == DatedFields(description, separator)
  {
    SplitFirstTwo(description, separator);
    var descElements := Split(description, separator);
    if |descElements| < 2 then None
    else
      match ParseDateTime(descElements[1])
      case None => None
      case Some(dt) => Some((descElements[0], dt))
  }

  /** The task an add builds, or the exception it raises. */
  function BuildTask(kind: CommandType, description: string): (r: Result<Task, DukeException>)
    ensures kind == TODO ==> r == Ok(Todo(description, false))
    ensures kind == DEADLINE ==>
      && (r.Ok? <==> DatedFields(description, BySeparator).Some?)
      && (r.Ok? ==> r.value == Deadline(DatedFields(description, BySeparator).value.0,
                                        DatedFields(description, BySeparator).value.1, false))
      && (r.Err? ==> r.error == WrongDeadline("deadline", "/by"))
    ensures kind != TODO && kind != DEADLINE ==>
      && (r.Ok? <==> DatedFields(description, AtSeparator).Some?)
      && (r.Ok? ==> r.value == Event(DatedFields(description, AtSeparator).value.0,
                                     DatedFields(description, AtSeparator).value.1, false))
      && (r.Err? ==> r.error == WrongDeadline("event", "/at"))
  {
    if kind == TODO then Ok(Todo(description, false))
    else if kind == DEADLINE then
      match SplitDated(description, BySeparator)
      case None => Err(WrongDeadline("deadline", "/by"))
      case Some(fields) => Ok(Deadline(fields.0, fields.1, false))
    else
      match SplitDated(description, AtSeparator)
      case None => Err(WrongDeadline("event", "/at"))
      case Some(fields) => Ok(Event(fields.0, fields.1, false))
  }

  /** An add seen from outside: the task is appended only once it is built, and the reply
      names it and the new length. */
  function Apply(kind: CommandType, description: string, items: seq<Task>): (t: Transition)
    ensures t.reply.Ok? <==> BuildTask(kind, description).Ok?
    ensures t.reply.Err? ==> t.reply.error == BuildTask(kind, description).error && t.after == items
    ensures t.reply.Ok? ==>
      && t.after == items + [BuildTask(kind, description).value]
      && t.reply.value == Added(t.after[|items|], |t.after|)
  {
    match BuildTask(kind, description)
    case Err(e) => Transition(Err(e), items)
    case Ok(task) => Transition(Ok(Added(task, |items| + 1)), items + [task])
  }

  /** executeToGui: the reply-returning path. */
  method ExecuteToGui(kind: CommandType, description: string, tasks: TaskList, storage: Storage)
    returns (r: Result<Reply, DukeException>)
    modifies tasks, storage
    ensures Transition(r, tasks.items) == Apply(kind, description, old(tasks.items))
    ensures r.Ok? ==> storage.saved == tasks.items && storage.saves == old(storage.saves) + 1
    ensures r.Err? ==> unchanged(storage)
  {
    var task: Option<Task> := None;
    if kind == TODO {
      task := Some(Todo(description, false));
    } else if kind == DEADLINE {
      var descElements := Split(description, BySeparator);
      if |descElements| < 2 {
        return Err(WrongDeadline("deadline", "/by"));
      }
      var dateTime := ParseDateTime(descElements[1]);
      if dateTime.None? {
        return Err(WrongDeadline("deadline", "/by"));
      }
      task := Some(Deadline(descElements[0], dateTime.value, false));
    } else {
      var descElements := Split(description, AtSeparator);
      if |descElements| < 2 {
        return Err(WrongDeadline("event", "/at"));
      }
      var dateTime := ParseDateTime(descElements[1]);
      if dateTime.None? {
        return Err(WrongDeadline("event", "/at"));
      }
      task := Some(Event(descElements[0], dateTime.value, false));
    }

    var response := Placeholder;
    if task.Some? {
      tasks.AddTask(task.value, storage);
      var count := tasks.GetListLength();
      response := Added(task.value, count);
    }
    r := Ok(response);
  }

  /** execute: the console path, which prints instead of returning the reply (printing is
      not part of this model) and makes the same change to the list. */
  method Execute(kind: CommandType, description: string, tasks: TaskList, storage: Storage)
    returns (failure: Option<DukeException>)
    modifies tasks, storage
    ensures tasks.items == Apply(kind, description, old(tasks.items)).after
    ensures failure.None? <==> Apply(kind, description, old(tasks.items)).reply.Ok?
    ensures failure.Some? ==> failure.value == Apply(kind, description, old(tasks.items)).reply.error
    ensures failure.None? ==> storage.saved == tasks.items && storage.saves == old(storage.saves) + 1
    ensures failure.Some? ==> unchanged(storage)
  {
    var task: Option<Task> := None;
    if kind == TODO {
      task := Some(Todo(description, false));
    } else if kind == DEADLINE {
      var descElements := Split(description, BySeparator);
      if |descElements| < 2 {
        return Some(WrongDeadline("deadline", "/by"));
      }
      var dateTime := ParseDateTime(descElements[1]);
      if dateTime.None? {
        return Some(WrongDeadline("deadline", "/by"));
      }
      task := Some(Deadline(descElements[0], dateTime.value, false));
    } else {
      var descElements := Split(description, AtSeparator);
      if |descElements| < 2 {
        return Some(WrongDeadline("event", "/at"));
      }
      var dateTime := ParseDateTime(descElements[1]);
      if dateTime.None? {
        return Some(WrongDeadline("event", "/at"));
      }
      task := Some(Event(descElements[0], dateTime.value, false));
    }

    if task.Some? {
      tasks.AddTask(task.value, storage);
    }
    failure := None;
  }

  /** Every kind other than TODO and DEADLINE builds an event. */
  lemma OtherKindsAreEvents(kind: CommandType, description: string)
    requires kind != TODO && kind != DEADLINE
    ensures BuildTask(kind, description) == BuildTask(EVENT, description)
  {
  }

  /** Only the first two pieces count: text after a second separator is ignored. */
  lemma IgnoresTextAfterSecondSeparator(kind: CommandType, description: string)
    requires kind != TODO
    requires FirstTwo(description, if kind == DEADLINE then BySeparator else AtSeparator).Some?
    ensures var separator := if kind == DEADLINE then BySeparator else AtSeparator;
      var pieces := FirstTwo(description, separator).value;
      BuildTask(kind, pieces.0 + separator + pieces.1) == BuildTask(kind, description)
  {
    var separator := if kind == DEADLINE then BySeparator else AtSeparator;
    FirstTwoIgnoresTail(description, separator);
  }

  /** A dated add written as name, separator and a text without a 'b' or 'a' reads exactly
      that name and that text, provided the separator does not already occur inside the name. */
  lemma DatedFromParts(name: string, separator: string, when: string)
    requires separator == BySeparator || separator == AtSeparator
    requires IndexOf(name + separator, separator) == Some(|name|)
    requires forall k :: 0 <= k < |when| ==> when[k] != separator[2]
    ensures FirstTwo(name + separator + when, separator) == Some((name, when))
  {
    MissingCharNoOccurrence(when, separator, 2);
    FirstTwoOfParts(name, separator, when);
  }

  /** name, separator and a rendered date-time give back that name and that date-time. */
  lemma DatedFieldsOfParts(name: string, separator: string, dt: DateTime)
    requires separator == BySeparator || separator == AtSeparator
    requires InRange(dt) && IndexOf(name + separator, separator) == Some(|name|)
    ensures DatedFields(name + separator + Format(dt), separator) == Some((name, dt))
  {
    FormatCharacters(dt);
    DatedFromParts(name, separator, Format(dt));
    ParseFormat(dt);
  }

  /** A deadline written as name, " /by " and a rendered date-time builds exactly that
      deadline, provided the separator does not already occur inside the name. */
  lemma DeadlineFromParts(name: string, due: DateTime)
    requires InRange(due)
    requires IndexOf(name + BySeparator, BySeparator) == Some(|name|)
    ensures BuildTask(DEADLINE, name + BySeparator + Format(due)) == Ok(Deadline(name, due, false))
  {
    DatedFieldsOfParts(name, BySeparator, due);
  }

  /** An event written as name, " /at " and a rendered date-time builds exactly that event. */
  lemma EventFromParts(name: string, at: DateTime)
    requires InRange(at)
    requires IndexOf(name + AtSeparator, AtSeparator) == Some(|name|)
    ensures BuildTask(EVENT, name + AtSeparator + Format(at)) == Ok(Event(name, at, false))
  {
    DatedFieldsOfParts(name, AtSeparator, at);
  }

  /** A one-word deadline whose date has month 13, such as "submit /by 31/13/2024 10:00",
      is refused with the deadline message and the list stays as it was. */
  lemma DeadlineWithMonth13Fails(name: string, items: seq<Task>)
    requires forall i :: 0 <= i < |name| ==> name[i] != ' '
    ensures BuildTask(DEADLINE, name + BySeparator + "31/13/2024 10:00") == Err(WrongDeadline("deadline", "/by"))
    ensures Apply(DEADLINE, name + BySeparator + "31/13/2024 10:00", items).after == items
  {
    var when := "31/13/2024 10:00";
    NameBeforeSeparator(name, BySeparator);
    DatedFromParts(name, BySeparator, when);
    ParseRejectsMonth13();
    assert DatedFields(name + BySeparator + when, BySeparator).None?;
  }
}
