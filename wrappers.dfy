/** Optional values and results, used wherever the modelled code returns
    `undefined`/`std::nullopt` or throws. */
module Wrappers {

  datatype Option<T> = None | Some(value: T) {
    predicate IsSome() { this.Some? }

    function GetOr(default: T): T {
      match this
      case None => default
      case Some(v) => v
    }
  }

  /** `Err` stands for a thrown exception or a crash of the modelled code;
      its payload is an opaque reason tag. */
  datatype Result<T> = Ok(value: T) | Err(reason: string) {
    predicate IsOk() { this.Ok? }

    predicate IsFailure() { this.Err? }

    function PropagateFailure<U>(): Result<U>
      requires IsFailure()
    {
      Err(reason)
    }

    function Extract(): T
      requires !IsFailure()
    {
      value
    }
  }
}
