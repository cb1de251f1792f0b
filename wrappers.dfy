/** Optional values, standing for Rust's `Option` and for TypeScript's `T | undefined`. */
module Wrappers {
  datatype Option<+T> = None | Some(value: T)
}
