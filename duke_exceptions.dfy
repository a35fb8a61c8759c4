/** The DukeException family the commands raise. */
module DukeExceptions {

  datatype DukeException =
    /** WrongDeadlineException: the date-time of a deadline or an event is missing or
        unreadable; carries the command kind and the separator that was expected. */
    | WrongDeadline(kind: string, separator: string)
    /** WrongItemIndexException: parseInt rejects the item number of a delete or done (it
        is not a number, or a number outside the int range such as 3000000000); carries the
        command name and the current list length. */
    | WrongItemIndex(command: string, length: nat)
    /** The failure TaskList raises for an item number outside 1..length. */
    | IndexOutOfRange(index: int, length: nat)
}
