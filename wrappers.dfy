/** Go's basic shapes shared by the other modules: its `byte`, and the
    convention of returning a value together with an `error`, written as a sum type. */
module Wrappers {

  /** Go's `byte`. */
  type byte = bv8

  datatype Option<+T> = None | Some(value: T)

  /** `Ok(v)` is Go's `(v, nil)`; `Err(msg)` is a non-nil `error`. */
  datatype Result<+T> = Ok(value: T) | Err(msg: string)
}
