/** Option and Result, the two failure-carrying shapes the model uses. */
module Wrappers {

  /** An optional value; `None` models JavaScript's `NaN`, `undefined` or an
      invalid `Date`, depending on where it is used. */
  datatype Option<+T> = None | Some(value: T)

  /** The outcome of an operation that can be refused with a reason. */
  datatype Result<+T, +E> = Ok(value: T) | Err(error: E)
}
