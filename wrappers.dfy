/** JavaScript's `null`-or-value, as used by the widget's optional state */
module Wrappers {
  datatype Option<T> = None | Some(value: T)
}
