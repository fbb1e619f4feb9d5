/** Values shared by every part of the model: Python's None, and the exceptions
    the crawler raises, catches or lets escape. */
module Common {

  /** A Python value that may be None. */
  datatype Option<+T> = None | Some(value: T)

  /** The kinds of exception the model distinguishes. */
  datatype Error =
    | ValueError              // int() on a malformed string, time.sleep on a negative length
    | KeyError(key: string)   // a missing entry of the settings mapping
    | DatabaseError           // any failure raised by pymysql while executing or committing
    | SourceError             // any failure of an HTTP request or of scraping its answer

  /** The outcome of a Python call: a value, or the exception it raised. */
  datatype Result<+T> = Ok(value: T) | Err(error: Error)

  /** The outcome of a Python call that returns None: it returned, or it raised. */
  datatype Outcome = Pass | Fail(error: Error)

  function Min(a: int, b: int): (m: int) { if a <= b then a else b }

  function Max(a: int, b: int): (m: int) { if a <= b then b else a }
}
