/**
 * The crate's single error type, which carries only a message, and the
 * Option/Result shapes that the Rust code gets from its standard library.
 */
module Errors {

  /** A generic error: nothing but a message string. */
  datatype Error = Error(message: string)

  datatype Option<+T> = None | Some(value: T)

  /** `Result<T, Error>` of the Rust code. */
  datatype Result<+T> = Ok(value: T) | Err(error: Error)

  /** `Result<(), Box<dyn Error>>` of the route hooks. */
  datatype Outcome = Pass | Fail(error: Error)
}
