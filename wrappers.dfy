/** Failure-compatible result types shared by every module of the model. */
module Wrappers {

  datatype Option<+T> = None | Some(value: T)

  datatype Result<+R, +E> = Success(value: R) | Failure(error: E) {
    predicate IsFailure() {
      Failure?
    }

    function PropagateFailure<U>(): Result<U, E>
      requires Failure?
    {
      Failure(error)
    }

    function Extract(): R
      requires Success?
    {
      value
    }
  }

  /** The exceptions of the library, folded into one error type. */
  datatype Error =
    | IllegalArgument(message: string)          // java.lang.IllegalArgumentException
    | CreateWordsFilter(message: string)        // CreateWordsFilterException
    | ContextNotInitialized(message: string)    // WordsFilterContextNotInitializedException
    | IndexOutOfBounds(message: string)         // java.lang.StringIndexOutOfBoundsException
}
