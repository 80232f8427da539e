/** Optional values and error results shared by every part of the model. */
module Outcomes {

  /** A value that may be absent: Python's `None`, or a nullable column. */
  datatype Option<+T> = None | Some(value: T)

  /** The failures the core can report to its caller. */
  datatype Error =
    | InvalidTimezone     // the zone identifier cannot be resolved
    | NotFound            // the service returned None / False for a missing row
    | ForeignKeyViolation // a row refers to, or is still referred to by, another row
    | UniqueViolation     // a unique column would hold the same value twice

  /** The outcome of an operation that either yields a value or fails. */
  datatype Result<+T> = Ok(value: T) | Err(error: Error)
}
