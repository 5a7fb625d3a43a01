/** Absence and failure, as the combinators see them.

    A C# reference that may be null is an `Option`; an operation that may
    throw returns a `Result` whose failure names the .NET exception. */
module Wrappers {

  /** A C# value that may be null: `None` is null. */
  datatype Option<+T> = None | Some(value: T)

  /** The exceptions the combinators and the library calls under them raise.
      `NoElements`, `NoMatch` and `MoreThanOneMatch` are the three messages of
      `InvalidOperationException` that the LINQ calls used here raise. */
  datatype Exception =
    | ArgumentNull          // ArgumentNullException
    | ArgumentOutOfRange    // ArgumentOutOfRangeException
    | NoElements            // "Sequence contains no elements"
    | NoMatch               // "Sequence contains no matching element"
    | MoreThanOneMatch      // "Sequence contains more than one matching element"

  /** The outcome of a call that returns a value or throws. */
  datatype Result<+T> = Ok(value: T) | Err(error: Exception)
}
