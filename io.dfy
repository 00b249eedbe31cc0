/** Outcomes of the transcoder's steps: the I/O errors that `?` propagates and
    the panics (`unwrap` on nothing, overflow-checked arithmetic) that abort it. */
module Io {

  datatype Error =
    | UnexpectedEof          // `read_exact` ran out of input
    | NoSearchCandidate      // `unwrap()` on an empty iterator
    | ArithmeticOverflow     // overflow-checked integer arithmetic
    | DecompressionFailure   // the zlib decoder reported malformed data

  datatype Option<+T> = None | Some(value: T)

  datatype Result<+T> = Success(value: T) | Failure(error: Error) {
    predicate IsFailure() {
      Failure?
    }

    function PropagateFailure<U>(): Result<U>
      requires Failure?
    {
      Failure(error)
    }

    function Extract(): T
      requires Success?
    {
      value
    }
  }
}
