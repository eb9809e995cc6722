/** Optional values and the errors the scheduling core raises. */
module Outcomes {

  /** An optional value; `None` stands for JavaScript's `undefined` or `NaN`. */
  datatype Option<+T> = None | Some(value: T) {
    /** The value, or `default` when absent (`x ?? default`). */
    function GetOr(default: T): T {
      match this
      case Some(v) => v
      case None => default
    }
  }

  /** The exceptions of the core: an empty review history, a score outside
      0..5, and a date that does not parse as a canonical `yyyy-MM-dd`. */
  datatype Error = InvalidHistory | InvalidScore | InvalidDate

  /** A value, or the exception the source would throw instead. */
  datatype Result<+T> = Ok(value: T) | Err(error: Error)
}
