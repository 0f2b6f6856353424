/** Failure-carrying return values used in place of the source's exceptions. */
module Wrappers {

  datatype Option<+T> = None | Some(value: T)

  /** The exception kinds the modelled Python code raises. */
  datatype PyError = KeyError | IndexError | ValueError

  datatype Result<+R> = Ok(value: R) | Err(error: PyError) {
    predicate IsFailure() {
      Err?
    }
  }
}
