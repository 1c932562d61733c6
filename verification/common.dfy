/**
  Shared vocabulary of the rasterm model: optional values, results, the
  library's error values and the byte type.
 */
module Common {

  /** An optional value; stands for Go's nil-able results. */
  datatype Option<+T> = None | Some(value: T)

  /** A value or an error, for Go's `(T, error)` returns whose value is unused on error. */
  datatype Result<+T> = Ok(value: T) | Err(error: Error)

  /**
    The error values the library defines, plus `External` for errors that
    come from collaborators outside the model (the operating system, the
    image codecs); `code` only tells such errors apart.
   */
  datatype Error =
    | TermGraphicsNotAvailable
    | NonTTY
    | TermResponseTimedOut
    | UnknownTermType
    | External(code: nat)

  /** The text of a library error; Go compares these errors by this text. */
  function Message(e: Error): string
    requires !e.External?
  {
    match e
    case TermGraphicsNotAvailable => "term graphics not available"
    case NonTTY => "non tty"
    case TermResponseTimedOut => "term response timed out"
    case UnknownTermType => "unknown term type"
  }

  /** An 8-bit byte, as read from the terminal. */
  newtype byte = x: int | 0 <= x < 256

  /** The four library errors have four different texts, so comparing texts tells them apart. */
  lemma MessagesDistinct(e1: Error, e2: Error)
    requires !e1.External? && !e2.External? && e1 != e2
    ensures Message(e1) != Message(e2)
  {
  }
}
