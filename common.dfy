/** Failure-compatible wrappers shared by the other modules: `Option` stands
    for a JavaScript value that may be `null`/`undefined`, `Result` for an
    operation that may throw. */
module Common {

  datatype Option<+T> = None | Some(value: T)

  datatype Result<+T, +E> = Success(value: T) | Failure(error: E)
}
