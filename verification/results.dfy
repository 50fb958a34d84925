/** Failure-carrying wrappers shared by every layer of the authentication core.
    A Go call returning `(value, error)` becomes a `Result`; a lookup that may
    find nothing becomes an `Option`. */
module Results {

  datatype Option<+T> = None | Some(value: T)

  datatype Result<+T, +E> = Success(value: T) | Failure(error: E)
}
