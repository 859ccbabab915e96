/** Small failure-carrying datatypes shared by the model. */
module Wrappers {

  /** A value that may be absent: JavaScript's `null` / `undefined` results. */
  datatype Option<+T> = None | Some(value: T)

  /** How an ECMAScript evaluation completes: normally with a value, or by
      throwing (the model only needs to know that something was thrown). */
  datatype Completion<+T> = Normal(value: T) | Throw
}
