/** Option, used for NULL-able references (the active variant, registry lookups). */
module Wrappers {
  datatype Option<+T> = None | Some(value: T)
}
