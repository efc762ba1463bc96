/** The error taxonomy of the store and the result wrappers every operation returns. */
module Errors {

  /** The kind of an operating-system I/O error, reduced to the one distinction the
      store acts on: a missing file is treated specially when a database is opened. */
  datatype IoErrorKind = NotFound | Other

  /** Every way an operation of the store can fail. The payloads of the I/O and
      serialization errors are reduced to what the model needs. */
  datatype DatabaseError =
    | IoError(kind: IoErrorKind)
    | SerializationError
    | KeyNotFound(key: string)
    | Timeout
    | TransactionAlreadyInProgress
    | NoTransactionInProgress
    | LockError

  datatype Option<+T> = None | Some(value: T)

  /** The outcome of a fallible operation. */
  datatype Result<+T> = Ok(value: T) | Err(error: DatabaseError)
}
