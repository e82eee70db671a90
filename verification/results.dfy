/** Option and Result values standing in for Java's null returns and thrown exceptions. */
module Results {

  /** A possibly missing value: `None` plays the part of Java's `null`. */
  datatype Option<+T> = None | Some(value: T)

  /** An exception raised by a remote administrative call (the broker or name server). */
  datatype Exn = Exn(name: string)

  /** The exceptions that escape the collection and persistence cycles. */
  datatype Failure =
    | RemoteFailure(cause: Exn)     // a remote call threw
    | MissingTotalTps               // the stats table has no "getTotalTps" entry (NullPointerException)
    | MalformedTps                  // a throughput token is not a decimal (NumberFormatException)
    | NoTps                         // no throughput token at all: division by zero (ArithmeticException)
    | NoTimestamp(line: string)     // split(",") of a sample yields no element (ArrayIndexOutOfBoundsException)
    | BadTimestamp(line: string)    // the text before the first ',' is not a long (NumberFormatException)

  /** The outcome of a computation that may throw one of the exceptions above. */
  datatype Result<+T> = Ok(value: T) | Err(error: Failure) {

    predicate IsFailure() {
      Err?
    }

    function PropagateFailure<U>(): Result<U>
      requires Err?
    {
      Err(error)
    }

    function Extract(): T
      requires Ok?
    {
      value
    }
  }
}
