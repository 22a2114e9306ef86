/** Error reporting shared by the Fenwick tree modules. */
module Results {

  /** The Python exceptions the core raises. */
  datatype Error = IndexError | TypeError

  datatype Option<T> = None | Some(value: T)

  /** A value or the exception raised instead of it. */
  datatype Result<T> = Ok(value: T) | Err(error: Error)

  /** The outcome of an operation that returns nothing (`None` in Python) or raises. */
  datatype Outcome = Pass | Fail(error: Error)
}
