/** Option and Result values used for Ruby's nil captures and for the scan's crash path. */
module Wrappers {

  datatype Option<+T> = None | Some(value: T)

  datatype Result<+R, +E> = Ok(value: R) | Err(error: E)

  /** Ruby's `nil.to_i` is 0; a captured number is its own value. */
  function ToI(o: Option<nat>): (r: nat)
    ensures o.None? ==> r == 0
    ensures o.Some? ==> r == o.value
  {
    if o.Some? then o.value else 0
  }

  function Min(a: int, b: int): int { if a <= b then a else b }

  function Max(a: int, b: int): int { if a <= b then b else a }
}
