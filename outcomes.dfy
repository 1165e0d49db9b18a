/** How a call into the death note ends: Java's `null`, the three unchecked
    exceptions the implementation throws, and a normal return. */
module Outcomes {

  /** A Java reference that may be `null`. */
  datatype Option<+T> = None | Some(value: T)

  /** The exception classes thrown by the death note (messages are not modelled). */
  datatype Exception = NullPointer | IllegalState | IllegalArgument

  /** Either the value a call returns or the exception it throws. */
  datatype Result<+T> = Ok(value: T) | Thrown(exception: Exception)
}
