/** What a command hands back to the front end. */
module Replies {
  import opened Results
  import opened Tasks
  import opened DukeExceptions
  import opened IntParse

  /** The content of a reply: the task it names and the list length it reports. */
  datatype Reply =
    /** The text AddCommand starts from before a task is built. */
    | Placeholder
    | Added(task: Task, count: nat)
    | Deleted(task: Task, count: nat)
    | MarkedDone(task: Task)
    /** The reply of the exit command. */
    | Farewell

  /** The fixed parts of the wording around the task rendering and the count. */
  const AddedHead: string := "Orh. I added:\n  "
  const AddedMiddle: string := "\nNow you got "
  const DeletedHead: string := "Okay, I deleted this liao:\n  "
  const DeletedMiddle: string := "\nNow left "
  const DoneHead: string := "Can, I help you mark this as done liao:\n  "
  const CountTail: string := " things in the list."

  /** The wording that precedes the task in a reply that names one. */
  function Head(reply: Reply): string
    requires reply.Added? || reply.Deleted? || reply.MarkedDone?
  {
    if reply.Added? then AddedHead else if reply.Deleted? then DeletedHead else DoneHead
  }

  /** The wording between the task and the count in a reply that reports one. */
  function Middle(reply: Reply): string
    requires reply.Added? || reply.Deleted?
  {
    if reply.Added? then AddedMiddle else DeletedMiddle
  }

  /** The wording of a reply, given the task rendering (Task.toString is not part of this
      model). The exit command's wording is not part of this model either. Every reply that
      names a task shows its rendering right after the kind's head. */
  function Text(reply: Reply, render: Task -> string): (r: string)
    requires !reply.Farewell?
    ensures reply.Placeholder? ==> r == "Test from AddCommand"
    ensures !reply.Placeholder? ==>
      var a := |Head(reply)|;
      a + |render(reply.task)| <= |r| && r[..a] == Head(reply) && r[a..a + |render(reply.task)|] == render(reply.task)
  {
    match reply
    case Placeholder => "Test from AddCommand"
    case Added(t, n) => AddedHead + render(t) + AddedMiddle + NatToString(n) + CountTail
    case Deleted(t, n) => DeletedHead + render(t) + DeletedMiddle + NatToString(n) + CountTail
    case MarkedDone(t) => DoneHead + render(t)
  }

  /** The count an add or delete reply reports reads back, with parseInt, from the digits
      between the middle wording and the tail. */
  lemma CountReadsBack(reply: Reply, render: Task -> string)
    requires reply.Added? || reply.Deleted?
    requires reply.count <= IntMax
    ensures
      var r := Text(reply, render);
      var a := |Head(reply)| + |render(reply.task)| + |Middle(reply)|;
      a <= |r| - |CountTail| && ParseInt(r[a..|r| - |CountTail|]) == Some(reply.count)
  {
    var r := Text(reply, render);
    var digits := NatToString(reply.count);
    assert r == Head(reply) + render(reply.task) + Middle(reply) + digits + CountTail;
    var a := |Head(reply)| + |render(reply.task)| + |Middle(reply)|;
    assert r[a..|r| - |CountTail|] == digits;
    ParseIntToString(reply.count);
  }

  /** One execution seen from outside: the reply or the exception, and the list afterwards. */
  datatype Transition = Transition(reply: Result<Reply, DukeException>, after: seq<Task>)
}
