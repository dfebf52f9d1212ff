/** The errors of the read and write paths: `ConnectionError`, `QueryError`
    and `TransactionError`. A panic of the source (a key whose index byte is
    unknown, an ID that overflows when a range end is computed) aborts the
    thread there; it is modelled as the error `Panicked`, which every caller passes on. */
module Errors {
  import opened Results
  import opened Ids
  import opened StorageErrors
  import opened Eids

  datatype ConnectionError = InvalidData | Storage(error: StorageError)

  datatype QueryError =
    | UnresolvedEID(eid: EID)
    | ConnectionFailed(cause: ConnectionError)
    | Panicked

  /** `From<StorageError> for QueryError`: wrapped as a connection error. */
  function FromStorage(e: StorageError): (r: QueryError)
    ensures r.ConnectionFailed? && r.cause.Storage? && r.cause.error == e
  {
    ConnectionFailed(Storage(e))
  }

  /** `TransactionError`. The retraction of an attribute with no value is
      declared by the source but never raised: such a retraction fails with
      `FailedToRetractRepeatedAttribute`, as a repeated one does. */
  datatype TransactionError =
    | FailedToRetractNonexistentAttribute(entity: ID, attribute: ID)
    | FailedToRetractRepeatedAttribute(entity: ID, attribute: ID)
    | UnresolvedEntity(eid: EID)
    | QueryFailed(query: QueryError)
    | ConnectionFailure(cause: ConnectionError)

  /** `From<QueryError> for TransactionError`, applied by `?`. */
  function Lift<T>(r: Result<T, QueryError>): (out: Result<T, TransactionError>)
    ensures r.Ok? <==> out.Ok?
    ensures r.Ok? ==> out.value == r.value
    ensures r.Err? ==> out.error == QueryFailed(r.error)
  {
    match r
    case Ok(x) => Ok(x)
    case Err(e) => Err(QueryFailed(e))
  }
}
