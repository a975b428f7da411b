/** Failure-compatible wrappers shared by every module of the translator.
    The translator fails fast: every `todo!()` of the backend becomes
    `Failure(Unsupported)`, and every broken upstream assumption (an `unwrap`
    on nothing, a failed `assert!`, an `unreachable!`, a missing alias)
    becomes `Failure(InvariantViolation)`. */
module Results {

  /** The two fatal error kinds of the translator. */
  datatype Error =
    | Unsupported         // a source shape with no defined lowering
    | InvariantViolation  // an assumption about the source was broken

  datatype Option<+T> = None | Some(value: T)

  datatype Result<+T> = Success(value: T) | Failure(error: Error) {

    predicate IsFailure() {
      Failure?
    }

    function PropagateFailure<U>(): Result<U>
      requires Failure?
    {
      Failure(error)
    }

    function Extract(): T
      requires Success?
    {
      value
    }
  }
}
