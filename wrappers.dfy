/** Wrappers shared by the model: an optional value (the
    C# `null` / `false` return of a Try-method) and a result carrying an error
    (a thrown exception). */
module Wrappers {

  datatype Option<+T> = None | Some(value: T)

  datatype Result<+R, +E> = Success(value: R) | Failure(error: E)
}
