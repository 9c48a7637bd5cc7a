/** Failure-carrying wrappers shared by the whole model: Rust's `Option`
    and `Result<T, String>`, plus a value-less outcome for `Result<(), String>`. */
module Wrappers {

  datatype Option<+T> = None | Some(value: T) {

    /** `unwrap_or`: the carried value, or `default` when there is none. */
    function GetOr(default: T): T {
      match this
      case Some(v) => v
      case None => default
    }
  }

  /** `Result<T, String>`; the error text is kept only as a label. */
  datatype Result<+T> = Success(value: T) | Failure(error: string)

  /** `Result<(), String>`. */
  datatype Outcome = Pass | Fail(error: string)
}
