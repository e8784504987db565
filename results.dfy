/** Failure-carrying values shared by every store: what the Python code signals
    by returning `None` or by raising. */
module Results {

  datatype Option<+T> = None | Some(value: T)

  /** The exceptions the core can raise, by cause. */
  datatype Error =
    | StoreClosed    // `must_be_open` on a closed store
    | CursorClosed   // a query on the closed SQLite cursor (the save paths skip `must_be_open`)
    | DecodeError    // `ValueError` or `KeyError` from a `load`: a required field is missing or malformed
    | PathError      // `ValueError` from `pathlib`: a path outside the root, or no file name to restem
    | SqlError       // `sqlite3.OperationalError`: a statement SQLite refuses to compile

  /** A value, or the exception that replaced it. */
  datatype Result<+T> = Success(value: T) | Failure(error: Error)

  /** Completion of a call that returns nothing, or the exception it raised. */
  datatype Outcome = Pass | Fail(error: Error)
}
