/** Small definitions shared by the modules: the optional value of error paths, and `min`. */
module Wrappers {

  /** `None` stands for an exception the source raises. */
  datatype Option<+T> = None | Some(value: T)

  /** Python's `min` of two integers. */
  function Min(a: int, b: int): int
  {
    if a <= b then a else b
  }
}
