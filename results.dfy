/** The value-or-error shape that Go spells as a `(value, error)` pair. */
module Results {

  /** `Success(v)` is a nil error with value `v`; `Failure(e)` is a non-nil error `e`,
      whose accompanying value the callers ignore. */
  datatype Result<+T, +E> = Success(value: T) | Failure(error: E)
}
