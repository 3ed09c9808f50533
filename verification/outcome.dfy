/** Failure-carrying result types shared by every module of the model.
    A Python `raise`, a JavaScript `throw` and a failed assertion all become
    an `Err` value instead of a precondition. */
module Outcome {

  datatype Option<+T> = None | Some(value: T)

  datatype Result<+T, +E> = Ok(value: T) | Err(error: E)
}
