/** Option and Result values standing for Python's `None` and for raised exceptions. */
module Wrappers {

  /** `None` is Python's `None` (or a missing dictionary key); `Some(v)` a present value. */
  datatype Option<+T> = None | Some(value: T) {
    function GetOr(default: T): T {
      match this
      case Some(v) => v
      case None => default
    }
  }

  /** `Failure(e)` stands for an exception the source raises with message `e`. */
  datatype Result<+T> = Success(value: T) | Failure(error: string)

  /** Python truthiness of an optional string: present and non-empty. */
  predicate Truthy(s: Option<string>) {
    s.Some? && s.value != ""
  }
}
