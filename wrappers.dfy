/** Optional values and the exceptions the repositories let escape, as values. */
module Wrappers {

  /** A value or its absence: C#'s `null` for a reference result. */
  datatype Option<+T> = None | Some(value: T)

  /** The exceptions the modelled operations can raise. */
  datatype Error =
    | NotImplemented       // NotImplementedException
    | EmptySequence        // InvalidOperationException: `First()` on no rows
    | ConcurrencyConflict  // DbUpdateConcurrencyException: an update matched no row
    | ArithmeticOverflow   // the database rejects an int value out of range
    | InvalidRowCount      // the database rejects a negative `TOP` count
    | IdentityInsert       // the database rejects an explicit value for an identity key

  /** A value, or the exception raised instead of returning one. */
  datatype Result<+T> = Success(value: T) | Failure(error: Error)

  /** The completion of an operation that returns nothing. */
  datatype Outcome = Pass | Fail(error: Error)
}
