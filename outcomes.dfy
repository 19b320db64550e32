/** Results of the decoder. Besides the error values the reader returns, two
    situations in the reader abort the whole process (a Rust panic); they are
    kept apart from the returned errors as their own constructor. */
module Outcomes {

  /** Kinds of `std::io::Error` the decoder returns. */
  datatype IoError =
    | UnexpectedEof   // `read_exact` found fewer bytes than requested
    | InvalidUtf8     // `read_to_string` met bytes that are not UTF-8
    | DepthLimit      // "Sub reader depth limit reached"
    | BadMagic        // "Bad bin magic"

  /** The two panics of the reader. */
  datatype PanicKind =
    | UnknownTag        // `BinType::try_from(..).unwrap()` on a byte that names no type
    | SliceOutOfRange   // a declared length runs past the end of the enclosing slice

  datatype Outcome<+T> = Ok(value: T) | Fail(error: IoError) | Panic(kind: PanicKind)
  {
    predicate IsFailure() { !Ok? }

    function PropagateFailure<U>(): (r: Outcome<U>)
      requires !Ok?
    {
      if Fail? then Fail(error) else Panic(kind)
    }

    function Extract(): T
      requires Ok?
    {
      value
    }
  }

  /** A success or an error of a caller-chosen type (Rust's `Result<T, E>`). */
  datatype Result<+T, +E> = Success(value: T) | Failure(error: E)

  /** A plain optional value. */
  datatype Option<+T> = None | Some(value: T)
}
