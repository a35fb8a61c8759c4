/** The task list and the storage it saves to. TaskList.java and Storage.java are not part
    of this model: their behaviour is the contract the commands rely on, with the 1-based
    item numbers the user sees. */
module TaskLists {
  import opened Results
  import opened Tasks
  import opened DukeExceptions

  /** index names an item of a list of that length. */
  predicate ValidIndex(items: seq<Task>, index: int) {
    1 <= index <= |items|
  }

  /** The task numbered index, or the out-of-range failure. */
  function Lookup(items: seq<Task>, index: int): (r: Result<Task, DukeException>)
    ensures r.Ok? <==> ValidIndex(items, index)
    ensures r.Ok? ==> r.value == items[index - 1]
    ensures r.Err? ==> r.error == IndexOutOfRange(index, |items|)
  {
    if ValidIndex(items, index) then Ok(items[index - 1]) else Err(IndexOutOfRange(index, |items|))
  }

  /** The list without the task numbered index; the tasks after it move up by one. */
  function RemoveAt(items: seq<Task>, index: int): (r: seq<Task>)
    requires ValidIndex(items, index)
    ensures |r| == |items| - 1
    ensures forall k :: 0 <= k < index - 1 ==> r[k] == items[k]
    ensures forall k :: index - 1 <= k < |r| ==> r[k] == items[k + 1]
    ensures multiset(r) + multiset{items[index - 1]} == multiset(items)
  {
    assert items == items[..index - 1] + [items[index - 1]] + items[index..];
    items[..index - 1] + items[index..]
  }

  /** The list with the task numbered index marked done; every other task unchanged. */
  function MarkAt(items: seq<Task>, index: int): (r: seq<Task>)
    requires ValidIndex(items, index)
    ensures |r| == |items|
    ensures r[index - 1] == MarkDone(items[index - 1])
    ensures forall k :: 0 <= k < |items| && k != index - 1 ==> r[k] == items[k]
  {
    items[index - 1 := MarkDone(items[index - 1])]
  }

  /** Marking the same task twice leaves the list as marking it once. */
  lemma MarkAtIdempotent(items: seq<Task>, index: int)
    requires ValidIndex(items, index)
    ensures MarkAt(MarkAt(items, index), index) == MarkAt(items, index)
  {
  }

  /** The persistent store: the list as last saved and the number of saves so far. */
  class Storage {
    var saved: seq<Task>
    var saves: nat

    constructor ()
      ensures saved == [] && saves == 0
    {
      saved := [];
      saves := 0;
    }

    /** Overwrites the whole store with items. */
    method SaveAll(items: seq<Task>)
      modifies this
      ensures saved == items && saves == old(saves) + 1
    {
      saved := items;
      saves := saves + 1;
    }
  }

  /** The user's tasks in display order; every successful change is saved at once. */
  class TaskList {
    var items: seq<Task>

    constructor (loaded: seq<Task>)
      ensures items == loaded
    {
      items := loaded;
    }

    method GetListLength() returns (n: nat)
      ensures n == |items|
    {
      n := |items|;
    }

    method GetTask(index: int) returns (r: Result<Task, DukeException>)
      ensures r == Lookup(items, index)
    {
      if ValidIndex(items, index) {
        r := Ok(items[index - 1]);
      } else {
        r := Err(IndexOutOfRange(index, |items|));
      }
    }

    method AddTask(task: Task, storage: Storage)
      modifies this, storage
      ensures items == old(items) + [task]
      ensures storage.saved == items && storage.saves == old(storage.saves) + 1
    {
      items := items + [task];
      storage.SaveAll(items);
    }

    method DeleteTask(index: int, storage: Storage) returns (r: Result<Task, DukeException>)
      modifies this, storage
      ensures r == Lookup(old(items), index)
      ensures r.Ok? ==> items == RemoveAt(old(items), index)
      ensures r.Ok? ==> storage.saved == items && storage.saves == old(storage.saves) + 1
      ensures r.Err? ==> items == old(items) && unchanged(storage)
    {
      if !ValidIndex(items, index) {
        return Err(IndexOutOfRange(index, |items|));
      }
      r := Ok(items[index - 1]);
      items := RemoveAt(items, index);
      storage.SaveAll(items);
    }

    method MarkDone(index: int, storage: Storage) returns (failure: Option<DukeException>)
      modifies this, storage
      ensures failure.None? <==> ValidIndex(old(items), index)
      ensures failure.Some? ==> failure.value == IndexOutOfRange(index, |old(items)|)
      ensures failure.None? ==> items == MarkAt(old(items), index)
      ensures failure.None? ==> storage.saved == items && storage.saves == old(storage.saves) + 1
      ensures failure.Some? ==> items == old(items) && unchanged(storage)
    {
      if !ValidIndex(items, index) {
        return Some(IndexOutOfRange(index, |items|));
      }
      items := MarkAt(items, index);
      storage.SaveAll(items);
      failure := None;
    }
  }
}
