/** Optional values, standing for Python's `None` versus a present value. */
module Wrappers {
  datatype Option<T> = None | Some(value: T)

  /** Python's `v or ""` on an optional text. */
  function OrEmpty(v: Option<string>): string
  {
    if v.Some? then v.value else ""
  }
}
