/** Optional values, results and the error values the ledger variants report. */
module Outcomes {

  datatype Option<+T> = None | Some(value: T)

  /** The errors of the four ledger variants, one constructor per distinct error value. */
  datatype Error =
    | NoRows                      // database/sql's sql.ErrNoRows
    | NoRecords                   // ErrNoRecords of the store packages
    | AlreadyClosed               // "Connection already closed."
    | DatabaseClosed              // database/sql's error for a closed *sql.DB
    | RaceDetected                // "Detected race when trying to insert."
    | ShortRead                   // "Unable to fill up random bits."
    | EOF                         // io.EOF
    | UnexpectedEOF               // io.ErrUnexpectedEOF
    | External(message: string)   // any other error a collaborator reports, passed on unchanged

  /** A value or an error, as a Go function returns `(T, error)`. */
  datatype Result<+T> = Ok(value: T) | Fail(error: Error) {

    /** The value, or `default` on an error (Go's use of the zero value after an error). */
    function GetOr(default: T): T {
      match this
      case Ok(v) => v
      case Fail(_) => default
    }

    function ToOption(): Option<T> {
      match this
      case Ok(v) => Some(v)
      case Fail(_) => None
    }
  }

  /** The result of a query that finds `o`, or fails with `missing` when it finds nothing. */
  function OrElse<T>(o: Option<T>, missing: Error): (r: Result<T>)
    ensures r.Ok? <==> o.Some?
    ensures r.Ok? ==> r.value == o.value
    ensures r.Fail? ==> r.error == missing
  {
    match o
    case Some(v) => Ok(v)
    case None => Fail(missing)
  }
}
