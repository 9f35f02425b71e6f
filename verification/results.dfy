/** Failure-carrying results: the Java exceptions of the modelled code become `Err`/`Fail` values. */
module Results {

  /** Java's `Optional`: a value, or none. */
  datatype Option<+T> = None | Some(value: T)

  /** A computed value, or the error the Java code would have thrown. */
  datatype Result<+T, +E> = Ok(value: T) | Err(error: E)

  /** The outcome of a `void` operation: it completed normally, or it threw. */
  datatype Outcome<+E> = Pass | Fail(error: E)
}
