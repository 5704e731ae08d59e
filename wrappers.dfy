/** A value that may be absent. */
module Wrappers {

  /** `null` / `undefined` in the source is `None`. */
  datatype Option<+T> = None | Some(value: T)
}
