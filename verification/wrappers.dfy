/** Failure-carrying values used throughout the model.
    `Option` stands for a C# nullable reference (`None` is `null`),
    `Result` for a call that either returns or throws, and `Outcome`
    for a `void` call that either returns or throws. */
module Wrappers {

  datatype Option<+T> = None | Some(value: T)

  datatype Result<+R, +E> = Success(value: R) | Failure(error: E)

  datatype Outcome<+E> = Pass | Fail(error: E)
}
