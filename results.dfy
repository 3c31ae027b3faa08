/** Failure-compatible wrappers used by the ingestion model: an optional value and a
    success-or-error result (a JavaScript exception becomes a `Failure`). */
module Results {

  datatype Option<+T> = None | Some(value: T)

  datatype Result<+T, +E> = Success(value: T) | Failure(error: E)
}
