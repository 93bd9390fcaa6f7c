/** The optional value used for Rust's `Option` (slot table entries, `position`, map lookups). */
module Wrappers {
  datatype Option<+T> = None | Some(value: T)
}
