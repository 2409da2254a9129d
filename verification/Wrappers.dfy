/** Results and options shared by the other modules. */
module Wrappers {

  datatype Option<+T> = None | Some(value: T)

  datatype Result<+T, +E> = Success(value: T) | Failure(error: E)

  /** For counting: one if `b` holds. */
  function One(b: bool): nat {
    if b then 1 else 0
  }
}
