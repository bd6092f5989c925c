/** Failure-carrying return values used across the model: `Option` for the
    source's "returns nothing" paths and `Result` for the paths where the
    source raises. */
module Results {

  datatype Option<+T> = None | Some(value: T)

  datatype Result<+T, +E> = Success(value: T) | Failure(error: E)
}
