/** Option and the query-result type every store operation returns. */
module Wrappers {

  datatype Option<+T> = None | Some(value: T)

  /** The ways a store operation fails: `first` on an empty selection, a store that
      errors, an insert whose explicit primary key is already taken. */
  datatype DbError = NotFound | StoreFailure | UniqueViolation

  /** Diesel's `QueryResult<T>`. */
  datatype QueryResult<+T> = Ok(value: T) | Err(error: DbError)
}
