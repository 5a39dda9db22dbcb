/** The codec's error cases and its `Result` type. */
module Errors {

  /** `Io`: the stream ended before a declared length was satisfied (the
      unexpected-end-of-stream error of `read_u32`/`read_exact`).
      `FromUtf8`: a topic's bytes are not valid UTF-8. */
  datatype Error = Io | FromUtf8

  /** The result of a read; failure-compatible, so `:-` plays the part of `?`. */
  datatype Result<T> = Ok(value: T) | Err(error: Error) {

    predicate IsFailure() {
      Err?
    }

    function PropagateFailure<U>(): Result<U>
      requires Err?
    {
      Err(error)
    }

    function Extract(): T
      requires Ok?
    {
      value
    }
  }

  /** The result of an operation that yields no value (`Result<()>`). */
  datatype Status = Done | Failed(error: Error) {

    predicate IsFailure() {
      Failed?
    }

    function PropagateFailure<U>(): Result<U>
      requires Failed?
    {
      Err(error)
    }
  }
}
