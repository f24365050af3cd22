/** Option and Result, used for Python's `None` arguments and for the
    exceptions the element methods raise. */
module Wrappers {

  datatype Option<+T> = None | Some(value: T)

  datatype Result<+R, +E> = Success(value: R) | Failure(error: E)

  /** Python's `x or ''` for an optional string. */
  function OrEmpty(s: Option<string>): (r: string)
  {
    if s.Some? then s.value else ""
  }
}
