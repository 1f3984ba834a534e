/** Option and Result types standing for refkit's None returns and raised exceptions. */
module Wrappers {

  datatype Option<+T> = None | Some(value: T)

  /** The Python exception classes the core raises or lets through. */
  datatype Error =
    | ValueError(message: string)
    | KeyError
    | IndexError
    | TypeError
    | AttributeError
    | ZeroDivisionError
      /** sys.exit(1) after an interrupted prompt; `except Exception` does not catch it */
    | SystemExit

  datatype Result<+T> = Success(value: T) | Failure(error: Error) {
    predicate IsFailure() { Failure? }

    function PropagateFailure<U>(): Result<U>
      requires Failure?
    {
      Failure(error)
    }

    function Extract(): T
      requires Success?
    {
      value
    }
  }

  /** What Python's `except Exception` catches: everything but SystemExit. */
  predicate Caught(e: Error) { !e.SystemExit? }
}
