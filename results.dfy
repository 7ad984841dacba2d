/** The outcome of an operation that can fail: Go's `(value, error)` pair
    with exactly one of the two meaningful. */
module Results {

  datatype Result<+T, +E> = Ok(value: T) | Err(error: E)
}
