/** Shared by the modules on both sides: optional values, results, and the unit of time. */
module Basics {

  datatype Option<+T> = None | Some(value: T)

  datatype Result<+T, +E> = Ok(value: T) | Err(error: E)

  /** Stamps and durations are in nanoseconds. */
  const SECOND := 1_000_000_000
}
