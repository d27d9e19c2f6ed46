/** Failure-carrying values used throughout the model. */
module Wrappers {

  datatype Option<+T> = None | Some(value: T)

  /** The outcome of a Python call that either returns a value or raises
      ValueError, the exception the modelled parser and worker pool raise
      on malformed input. */
  datatype Result<+T> = Ok(value: T) | ValueError
}
