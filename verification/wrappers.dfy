/** Option and Result datatypes used for the error paths of the model. */
module Wrappers {

  /** An optional value: `None` stands for a value the source cannot produce
      (a failed numeric conversion, a NaN depth). */
  datatype Option<+T> = None | Some(value: T)

  /** The outcome of an operation that can fail with an error of type `E`. */
  datatype Result<+T, +E> = Ok(value: T) | Err(error: E)
}
