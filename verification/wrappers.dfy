/** Optional values: Python's `None` versus a present value. */
module Wrappers {

  datatype Option<+T> = None | Some(value: T)

  /** Python's `x or fallback` for an optional string: an absent or empty string is falsy. */
  function OrElse(x: Option<string>, fallback: string): string
  {
    if x.Some? && x.value != "" then x.value else fallback
  }

  /** Python's `x or y` where both operands may be `None`. */
  function OrElseOpt(x: Option<string>, y: Option<string>): Option<string>
  {
    if x.Some? && x.value != "" then x else y
  }
}
