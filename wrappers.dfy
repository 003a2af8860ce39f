/** The optional result the source's `Option` returns. */
module Wrappers {
  /** `Option<T>`: `None` is a failure the caller sees, `Some` carries a value. */
  datatype Option<T> = None | Some(value: T)
}
