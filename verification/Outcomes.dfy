/** The usual optional value, a result that carries the source's error, and a server's answer to a write. */
module Outcomes {
  datatype Option<+T> = None | Some(value: T)

  /** What a write to a server comes back with: done; refused; or applied although an error was reported. */
  datatype Answer = Done | Refused | Lost

  datatype Result<+T, +E> = Ok(value: T) | Err(error: E)
}
