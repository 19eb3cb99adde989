/** The optional value that stands in for a nullable C# reference. */
module Wrappers {

  /** `None` plays the role of `null`; `Some(v)` a non-null reference to `v`. */
  datatype Option<+T> = None | Some(value: T)
}
