/** Optional values, standing in for the nullable columns and `None`
    results of the warehouse store. */
module Basics {

  datatype Option<+T> = None | Some(value: T) {

    /** The wrapped value, or `default` when there is none (Python's `x or d`
        for a nullable column). */
    function GetOr(default: T): T {
      match this
      case Some(v) => v
      case None => default
    }
  }

  /** Python truthiness of a nullable integer: `None` and 0 are false. */
  predicate Truthy(l: Option<int>) {
    l.Some? && l.value != 0
  }

  /** Python truthiness of a nullable string: `None` and "" are false. */
  predicate TruthyText(s: Option<string>) {
    s.Some? && s.value != ""
  }

  function Max(a: int, b: int): int {
    if a >= b then a else b
  }
}
