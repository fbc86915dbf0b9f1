/** Small helpers shared by the modules (helpers.c: min). */
module Helpers {

  datatype Option<T> = None | Some(value: T)

  function Min(a: int, b: int): int {
    if a < b then a else b
  }
}
