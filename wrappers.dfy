/** Option, Result and Outcome: the values that stand for a null reference,
    an operation that returns a value or throws, and one that returns nothing or throws. */
module Wrappers {

  /** `None` stands for a null reference. */
  datatype Option<+T> = None | Some(value: T)

  /** `Failure` stands for an exception thrown to the caller. */
  datatype Result<+T, +E> = Success(value: T) | Failure(error: E)

  /** The outcome of a `void` operation: it returns (`Pass`) or throws (`Fail`). */
  datatype Outcome<+E> = Pass | Fail(error: E)
}
