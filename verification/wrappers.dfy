/** Failure-carrying datatypes shared by the rest of the model. */
module Wrappers {

  /** An optional value: `None` stands for JavaScript's `undefined`, `null` or `NaN`. */
  datatype Option<+T> = None | Some(value: T)

  /** The outcome of a step that can fail: a value or an error. */
  datatype Result<+R, +E> = Success(value: R) | Failure(error: E)
}
