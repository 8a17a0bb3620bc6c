/** Option and Result: `undefined` and fp-ts `Either` in the model. */
module Wrappers {

  datatype Option<+T> = None | Some(value: T)

  /** `Either<E, T>`: Success is `right`, Failure is `left` (or a thrown exception). */
  datatype Result<+T, +E> = Success(value: T) | Failure(error: E)
}
