/** Failure-compatible wrappers and the exception classes the runtime raises or lets through. */
module Errors {

  /** The Python exceptions that the modelled code raises, named by their class.
      `ListenerError(code)` stands for any other exception raised by user code
      (a listener, a predicate, a computed variable's function); `NotModelled`
      marks the inputs the model deliberately does not describe. */
  datatype Error =
    | ValueError
    | TypeError
    | KeyError
    | IndexError
    | AttributeError
    | ZeroDivisionError
    | RecursionError
    | TemporarilyUnavailable
    | ContinueOperation
    | StopOperation
    | ListenerError(code: nat)
    | NotModelled

  /** `None` or a value; used for Python's `None`-able results. */
  datatype Option<+T> = None | Some(value: T) {
    function GetOr(default: T): T {
      match this
      case Some(v) => v
      case None => default
    }
  }

  /** A value or the exception that was raised instead. */
  datatype Result<+T> = Ok(value: T) | Err(error: Error) {
    predicate IsFailure() {
      Err?
    }

    function PropagateFailure<U>(): Result<U>
      requires Err?
    {
      Err(error)
    }

    function Extract(): T
      requires Ok?
    {
      value
    }
  }
}
