/** Small result types standing for Java's `null` returns and thrown exceptions. */
module Wrappers {

  /** A value that may be absent (Java's `null`). */
  datatype Option<+T> = None | Some(value: T)

  /** The exceptions the ordered map throws. */
  datatype Error =
    | NoSuchElement    // java.util.NoSuchElementException: the map is empty
    | IllegalArgument  // java.lang.IllegalArgumentException: an index out of range

  /** The outcome of an operation that may throw. */
  datatype Result<+T> = Ok(value: T) | Err(error: Error)
}
