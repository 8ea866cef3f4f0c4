/** Error kinds and result wrappers of the in-memory store. The store reports
    errors as kinds; the text of the messages is not modelled. */
module Errors {

  /** The four ways an operation of the store can fail. */
  datatype ErrorKind =
    | TableNotFound     // the table name was not registered when the database was built
    | ColumnNotFound    // the column has no index on the table
    | ValueNotFound     // the value has no bucket in the column's index (Update only)
    | ArgumentMismatch  // Insert: cols and vals differ in length; Update: empty column or value

  /** The outcome of an operation that returns only success or an error. */
  datatype Outcome = Pass | Fail(error: ErrorKind)

  /** The outcome of an operation that returns a value or an error. */
  datatype Result<T> = Ok(value: T) | Err(error: ErrorKind)
}
