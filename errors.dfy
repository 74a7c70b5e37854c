/** The program's single error type and the result every fallible step returns. */
module Errors {

  /** `error::Error`: a storage error from SQLite, or any other message (a
      missing argument, an ordinal that does not parse). */
  datatype Error = SQLite(message: string) | Other(message: string)

  datatype Result<+T> = Ok(value: T) | Err(error: Error)
  {
    predicate IsFailure()
    {
      Err?
    }

    function PropagateFailure<U>(): Result<U>
      requires Err?
    {
      Err(error)
    }

    function Extract(): T
      requires Ok?
    {
      value
    }
  }

  /** What SQLite reports when a statement names the table before it exists. */
  const NoSuchTable: Error := SQLite("no such table: todos")
}
