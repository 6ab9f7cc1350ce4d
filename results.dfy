/** Failure values of the checker: the exceptions the modelled Python raises. */
module Results {

  /** A wrapper record without its expected key (Python `KeyError`), or an
      `updated_at` string that does not match the bracket service's date format
      (the `ValueError` of `datetime.strptime`). */
  datatype Error = MissingKey(key: string) | BadTimestamp(text: string)

  datatype Result<T> = Success(value: T) | Failure(error: Error)
}
