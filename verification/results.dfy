/** Optional values, failure classes and results shared by every operation of the
    dataset service. The service signals failures with exceptions that the web layer
    turns into HTTP statuses; here each failure is a value. */
module Results {

  datatype Option<+T> = None | Some(value: T)

  /** The failure classes the web layer distinguishes: HTTP 404, 400 and 500. */
  datatype Kind = NotFound | BadRequest | Unexpected

  datatype Error = Error(kind: Kind, message: string)

  /** A value or the error that stopped its computation; `:-` passes the
      error on. */
  datatype Result<+T> = Ok(value: T) | Err(error: Error) {

    predicate IsFailure() {
      Err?
    }

    function PropagateFailure<U>(): Result<U>
      requires Err?
    {
      Err(error)
    }

    function Extract(): T
      requires Ok?
    {
      value
    }
  }
}
