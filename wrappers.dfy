/** Failure-carrying values used where the Java code returns null or throws. */
module Wrappers {

  datatype Option<+T> = None | Some(value: T)

  /** The Java exceptions the modelled code can raise. */
  datatype Error =
    | NullPointer            // NullPointerException
    | IllegalArgument        // IllegalArgumentException
    | NoSuchElement          // NoSuchElementException
    | UnsupportedOperation   // UnsupportedOperationException
    | Arithmetic             // ArithmeticException (integer division by zero)
    | ClassCast              // ClassCastException
    | IndexOutOfBounds       // ArrayIndexOutOfBoundsException
    | Db(reason: string)     // DbException
    | TransactionAborted     // TransactionAbortedException

  datatype Result<+T> = Ok(value: T) | Err(error: Error)

  datatype Outcome = Pass | Fail(error: Error)
}
