/** Failure-carrying return values: the model's stand-in for Java exceptions. */
module Results {

  datatype Option<+T> = None | Some(value: T)

  datatype Result<+R, +E> = Success(value: R) | Failure(error: E)

  /** Completion of a `void` Java method: it returned normally or threw `error`. */
  datatype Outcome<+E> = Pass | Fail(error: E)
}
