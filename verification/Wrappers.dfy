/** Optional values, fallible results, and the lesser and greater of two numbers. */
module Wrappers {
  datatype Option<+T> = None | Some(value: T)

  datatype Result<+T, +E> = Ok(value: T) | Err(error: E)

  function Min(a: nat, b: nat): (m: nat) { if a <= b then a else b }

  function Max(a: nat, b: nat): (m: nat) { if a >= b then a else b }
}
