/** Optional values (C# nullable references and `T?`) and success/error outcomes. */
module Wrappers {

  /** `null` is `None`; a present value is `Some`. */
  datatype Option<+T> = None | Some(value: T) {
    function GetOr(default: T): T {
      match this
      case Some(v) => v
      case None => default
    }
  }

  /** The `(value, string? Error)` tuples the services return: exactly one side is present. */
  datatype Result<+T> = Success(value: T) | Failure(error: string) {
    predicate IsFailure() {
      Failure?
    }
  }
}
