/**
 * Java's exceptional returns, as values: an operation either returns a value
 * or throws one of the exceptions the modelled code raises.
 */
module Outcomes {

  /** The exception classes the modelled code throws. */
  datatype JavaException =
    | IllegalArgument          // IllegalArgumentException
    | UnsupportedOperation     // UnsupportedOperationException
    | IndexOutOfBounds         // IndexOutOfBoundsException (Objects.checkIndex and friends)
    | ArrayIndexOutOfBounds    // ArrayIndexOutOfBoundsException (a plain array access)
    | AssertionFailed          // AssertionError

  datatype Outcome<+T> = Ok(value: T) | Throws(error: JavaException)
}
