/** Exceptions the engine throws, and the result type that carries them instead of a throw. */
module Outcomes {

  /** The .NET exception classes the core raises. */
  datatype Exception =
    | IndexOutOfRange     // System.IndexOutOfRangeException
    | InvalidOperation    // System.InvalidOperationException
    | Argument            // System.ArgumentException
    | ArgumentOutOfRange  // System.ArgumentOutOfRangeException, thrown by the List indexer
    | Rank                // System.RankException

  /** Either the value a call returns, or the exception it throws. */
  datatype Result<+T> = Ok(value: T) | Throws(error: Exception)

  datatype Option<+T> = None | Some(value: T)
}
