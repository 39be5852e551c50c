/** Results of the table's operations: the Java exceptions become error values. */
module Outcomes {

  /** A nullable value: `None` stands for Java's `null`. */
  datatype Option<+T> = None | Some(value: T)

  /** The three exceptions the table throws. */
  datatype HashError = IllegalNullKey | DuplicateKey | KeyNotFound

  /** The outcome of an operation that returns a value or throws. */
  datatype Result<+T> = Success(value: T) | Failure(error: HashError)

  /** The outcome of an operation that returns nothing or throws. */
  datatype Status = Pass | Fail(error: HashError)
}
