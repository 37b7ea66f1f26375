/** Failure-compatible wrappers shared by every module of the model.
    Python's `None` becomes `None`; an operation that answers the caller with an
    error message and changes nothing becomes `Err(...)`. */
module Base {

  datatype Option<+T> = None | Some(value: T) {

    function GetOr(default: T): T {
      match this
      case Some(v) => v
      case None => default
    }
  }

  /** The outcome of a guarded operation: a value, or the reason it was refused. */
  datatype Outcome<+T, +E> = Ok(value: T) | Err(error: E)

  function Max(a: int, b: int): int { if a >= b then a else b }
  function Min(a: int, b: int): int { if a <= b then a else b }

  /** Python truthiness of an optional integer id: `None` and `0` are both false. */
  predicate Truthy(id: Option<int>) {
    id.Some? && id.value != 0
  }
}
