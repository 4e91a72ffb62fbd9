/**
 Failure-compatible result and option types shared by every stage of the
 ROM decoding pipeline, together with the error kinds the pipeline reports.
 */
module Results {

  /** The distinct, recoverable ways a decode can fail. */
  datatype Error =
    | TruncatedStream(at: int)      // a compressed stream ran past the end of the ROM
    | OutOfRange(at: int)           // a ROM, self-copy, table or layer read outside its buffer
    | InvalidArrayLength(len: int)  // a padding length came out negative
    | NoLevels                      // no level list, or an empty one
    | UnknownLevel(index: int)      // a level index outside the parsed list

  datatype Option<+T> = None | Some(value: T)

  datatype Result<+T> = Success(value: T) | Failure(error: Error) {

    predicate IsFailure() {
      Failure?
    }

    function PropagateFailure<U>(): Result<U>
      requires Failure?
    {
      Failure(error)
    }

    function Extract(): T
      requires Success?
    {
      value
    }
  }
}
