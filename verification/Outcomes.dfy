/** What a call of the bridge can end in: a value, an error it returns, or a panic
    (an out-of-range index or slice, a failed `unwrap`). */
module Outcomes {
  datatype Outcome<+T, +E> = Ok(value: T) | Err(error: E) | Panic

  datatype Option<+T> = None | Some(value: T)
}
