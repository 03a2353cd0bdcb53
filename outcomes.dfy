/** Error values and result wrappers shared by both repositories. */
module Outcomes {

  datatype Option<+T> = None | Some(value: T)

  /** The error kinds the repositories hand back to their callers. */
  datatype Error =
    | InvalidObjectId      // the id string is not 24 hexadecimal digits
    | NoDocuments          // a FindOne matched nothing
    | NoMatchedDocs        // UpdateBank: the update matched no document
    | NoModifiedDocs       // UpdateBank: the matched document already held every value
    | AlreadyExistingBank  // PostBank: a bank service with that name exists
    | DuplicateKey         // an insert reused an _id already in the collection
    | StoreFailure         // any other error reported by the store

  /** A value or an error, for the operations that return `(T, error)`. */
  datatype Result<+T> = Ok(value: T) | Err(error: Error)

  /** The outcome of an operation that returns only `error`. */
  datatype Outcome = Pass | Fail(error: Error)
}
