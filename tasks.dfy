/** The tasks the list holds. Task.java, Todo.java, Deadline.java and Event.java are not
    part of this model: a task is modelled by the values its constructors take. */
module Tasks {
  import opened DateTimes

  /** A to-do, a deadline (due by a date-time) or an event (at a date-time), each with a
      name and a completion flag. */
  datatype Task =
    | Todo(name: string, done: bool)
    | Deadline(name: string, due: DateTime, done: bool)
    | Event(name: string, at: DateTime, done: bool)

  /** Task.markDone: sets the completion flag and nothing else. */
  function MarkDone(t: Task): (r: Task)
    ensures r.done
    ensures r.(done := t.done) == t
    ensures r.(done := true) == r
  {
    t.(done := true)
  }
}
