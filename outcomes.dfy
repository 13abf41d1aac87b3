/** Results of computations that may fail the way the modelled .NET code fails. */
module Outcomes {

  datatype Option<T> = None | Some(value: T)

  /** The .NET exceptions that the modelled code can raise on unexpected input. */
  datatype Exception =
    | IndexOutOfRange      // an indexer read outside the string
    | ArgumentOutOfRange   // Substring/IndexOf called with a bad index or count
    | NullReference        // a member accessed on a null result
    | Failure(message: string)  // a plain Exception thrown with a message

  /** Either a value, or the exception the original code would throw. */
  datatype Outcome<T> = Value(value: T) | Raised(error: Exception)
}
