/** Small result types shared by the whole model. */
module Wrappers {

  /** A value that may be absent. */
  datatype Option<+T> = None | Some(value: T)

  /** The outcome of a computation that may raise an exception nobody catches
      (in the scripts such an exception ends the run as a failure). */
  datatype Outcome<+T> = Ok(value: T) | Threw
}
