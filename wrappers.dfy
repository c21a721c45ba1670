/** Optional values and fallible results, as the Rust side uses `Option` and `Result`. */
module Wrappers {

  datatype Option<+T> = None | Some(value: T)

  datatype Result<+T, +E> = Ok(value: T) | Err(error: E) {
    predicate IsOk() { this.Ok? }
  }
}
