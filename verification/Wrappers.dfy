/** Option and Result, the two failure-compatible types used throughout the model, and the one error
    of code that only computes sizes. */
module Wrappers {

  datatype Option<+T> = None | Some(value: T)

  /** The source's Result: `:-` propagates the error unchanged. */
  datatype Result<+T, +E> = Ok(value: T) | Err(error: E) {
    predicate IsFailure() { Err? }

    function PropagateFailure<U>(): Result<U, E>
      requires Err?
    {
      Err(error)
    }

    function Extract(): T
      requires Ok?
    {
      value
    }

    /** `map_err`: the same value under another error type. */
    function MapErr<F>(f: E -> F): Result<T, F> {
      if Ok? then Ok(value) else Err(f(error))
    }
  }

  /** A size or offset does not fit its field. */
  datatype SizeError = SizeLimit
}
