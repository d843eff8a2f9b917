/** The optional-value type that Rust's `Option` is modelled by. */
module Wrappers {

  datatype Option<+T> = None | Some(value: T)
}
