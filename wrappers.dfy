/** Optional values and results with an error, as used by the persistence layer:
    a query that finds no row yields None, a statement the database rejects
    yields Failure with the database's error. */
module Wrappers {

  datatype Option<+T> = None | Some(value: T)

  datatype Result<+R, +E> = Success(value: R) | Failure(error: E)
}
