/** Outcome types shared by both tables: an optional value in place of a Java
    null reference, and a result that is either a value or the exception the
    Java code throws. */
module Wrappers {

  /** `None` stands for Java's `null`. */
  datatype Option<+T> = None | Some(value: T)

  /** The unchecked exceptions the tables throw, with their messages. */
  datatype Error =
    | IllegalArgument(message: string)
    | IllegalState(message: string)

  /** A normal return carrying `value`, or an exception. */
  datatype Result<+T> = Success(value: T) | Failure(error: Error)
}
