/** Error values of the package and of its collaborators, and the result
    shapes that carry them. Each Go error value becomes its own constructor,
    so callers can tell "malformed record" from "wrong password" from
    "could not generate a salt". */
module Argon2Errors {

  /** Errors reported by the randomness source that fills the salt buffer
      (`io.ReadFull` semantics of `rand.Read`). */
  datatype ReadError =
    | EOF                   // the source had no bytes at all
    | UnexpectedEOF         // the source ran dry part-way through the buffer
    | SourceFailure(code: nat)  // any other failure of the operating-system source

  datatype Error =
    | InvalidHash                    // ErrInvalidHash: the text does not match the record grammar
    | InvalidComplexity              // ErrInvalidComplexity: time, memory or threads out of range
    | InvalidArgon2Version           // ErrInvalidArgon2Version: embedded version is not 19
    | MismatchedHashAndPassword      // ErrMismatchedHashAndPassword: derived key differs
    | CorruptInput(offset: nat)      // base64.CorruptInputError: offset of the offending character
    | ReadFailed(cause: ReadError)   // error propagated from the randomness source

  /** Go's `(value, error)` pair: on `Err` the value is the zero value and is
      not represented. */
  datatype Result<T> = Ok(value: T) | Err(error: Error)

  /** Go's bare `error` return: `Pass` is `nil`. */
  datatype Outcome = Pass | Fail(error: Error)

  datatype Option<T> = None | Some(value: T)
}
