/** The Option type that Rust's `Option` and the `Result`s whose error is ignored become. */
module Wrappers {
  datatype Option<+T> = None | Some(value: T)
}
