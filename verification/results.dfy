/** Failure-compatible results for the Java exceptions the modelled code can raise. */
module Results {

  /** The unchecked Java exceptions the decoder and the connection code can run into. */
  datatype Fault =
    | IndexOutOfRange(index: int, length: int)  // ArrayIndexOutOfBoundsException
    | NegativeArraySize(length: int)            // NegativeArraySizeException
    | NullReference                             // NullPointerException

  /** Either a value or the exception that aborted the computation. */
  datatype Result<+T> = Ok(value: T) | Err(fault: Fault) {

    predicate IsFailure() {
      Err?
    }

    function PropagateFailure<U>(): Result<U>
      requires Err?
    {
      Err(fault)
    }

    function Extract(): T
      requires Ok?
    {
      value
    }
  }

  /** A Java reference that may be null. */
  datatype Option<+T> = None | Some(value: T)
}
