/** Failure-carrying result types shared by the model.
    `Result` stands for a rejected promise or a thrown error, `Outcome` for an
    operation that returns nothing on success. */
module Outcomes {

  datatype Option<+T> = None | Some(value: T)

  datatype Result<+R, +E> = Success(value: R) | Failure(error: E)

  datatype Outcome<+E> = Pass | Fail(error: E)
}
