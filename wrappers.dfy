/** The one optional-value wrapper the model needs (JavaScript's `null`). */
module Wrappers {
  datatype Option<+T> = None | Some(value: T)
}
