/** Failure-carrying values used across the model: an absent value, and a
    computation that either yields a value or raises an error message. */
module Basics {

  datatype Option<+T> = None | Some(value: T)

  datatype Result<+T> = Ok(value: T) | Err(error: string)
}
