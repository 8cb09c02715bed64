/** Optional values, and the outcome of an operation that may be refused with one of
    the error classes of the mandate crate. Error texts are not modelled. */
module Results {

  datatype Option<+T> = None | Some(value: T)

  datatype Error =
    | Malformed
    | UnsupportedAlgorithm
    | InvalidKey
    | UnknownIssuer
    | BadSignature
    | BadDisclosure
    | BadBinding
    | BadChain
    | Expired
    | NotYetValid
    | Stale
    | AudienceMismatch
    | NonceMismatch

  datatype Result<+T> = Ok(value: T) | Err(error: Error) {

    predicate IsFailure() {
      Err?
    }

    function PropagateFailure<U>(): Result<U>
      requires Err?
    {
      Err(error)
    }

    function Extract(): T
      requires Ok?
    {
      value
    }
  }

  /** `cond` or the error: the guard of an early return. */
  function Check(cond: bool, error: Error): Result<()> {
    if cond then Ok(()) else Err(error)
  }
}
