/** Failure-compatible result types shared by every module of the model.
    A Java method that can throw is modelled as a function returning a
    `Result`; the error value names the exception the Java code raises. */
module Wrappers {

  datatype Option<+T> = None | Some(value: T) {
    function GetOr(default: T): T {
      match this
      case Some(v) => v
      case None => default
    }
  }

  datatype Result<+R, +E> = Success(value: R) | Failure(error: E) {
    predicate IsFailure() {
      Failure?
    }

    function PropagateFailure<U>(): Result<U, E>
      requires Failure?
    {
      Failure(error)
    }

    function Extract(): R
      requires Success?
    {
      value
    }
  }

  /** The Java exceptions the modelled code can raise. */
  datatype Exception =
    | ArithmeticException          // integer division by zero
    | IndexOutOfBounds             // array or list index outside its bounds
    | ClassCast                    // a value of the wrong type for its key
    | UnsupportedOperation         // a media type the reader cannot handle
    | NullPointer                  // a member used after it was cleared
    | IOException                  // a failed write or an unusable codec
    | IllegalArgument              // a queue capacity below one
}
