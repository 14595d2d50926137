/** `Option` and `Result`, shared by the grid model. */
module Wrappers {

  /** An optional value; `None` stands for JavaScript's `null`/`undefined`
      wherever the grid tests a position or an identity for presence. */
  datatype Option<T> = None | Some(value: T)

  /** The outcome of an operation that can throw. */
  datatype Result<T, E> = Success(value: T) | Failure(error: E)
}
