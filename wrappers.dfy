/**
 * Outcome types, so that an exception `read_mimic2` raises becomes an error
 * value; and the `min` of two integers that `zip` and Python's slices use.
 */
module Wrappers {

  datatype Option<+T> = None | Some(value: T)

  datatype Result<+R, +E> = Ok(value: R) | Err(error: E)

  function Min(a: int, b: int): int
  {
    if a <= b then a else b
  }
}
