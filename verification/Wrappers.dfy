/** Small value types shared by every module. */
module Wrappers {
  datatype Option<+T> = None | Some(value: T) {
    /** The value, or the default when there is none (Python's `x or default`). */
    function GetOr(default: T): T {
      if Some? then value else default
    }
  }

  datatype Result<+T, +E> = Ok(value: T) | Err(error: E)

  function Min(a: int, b: int): int {
    if a <= b then a else b
  }

  function Max(a: int, b: int): int {
    if a >= b then a else b
  }
}
