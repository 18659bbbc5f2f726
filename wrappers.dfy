/** Small failure-carrying datatypes shared by the other modules. */
module Wrappers {

  /** A value that may be missing: a nullable column or a missing lookup. */
  datatype Option<+T> = None | Some(value: T) {
    function GetOr(default: T): T {
      match this
      case Some(v) => v
      case None => default
    }
  }

  /** A value, or the error raised instead of producing it. */
  datatype Result<+T, +E> = Ok(value: T) | Err(error: E)

  /** Success without a value, or the error raised. */
  datatype Outcome<+E> = Pass | Fail(error: E)

  /** A key of request data: absent, or given with a value (which may itself be a null). */
  datatype Field<+T> = Absent | Given(value: T) {
    function GetOr(default: T): T {
      match this
      case Given(v) => v
      case Absent => default
    }
  }
}
