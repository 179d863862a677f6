/** The library's error codes and its value-or-error result. */
module Results {
  /** One constructor per code of the frozen public error list; native codes are diagnostics only. */
  datatype ErrorCode =
    | InvalidUrl | UnsupportedScheme | InvalidPort
    | ResolveFailed | SocketCreateFailed | ConnectFailed | ConnectTimeout
    | WriteFailed | WriteTimeout | ReadFailed | ReadTimeout | ConnectionClosed
    | MalformedResponse | InvalidStatusLine | InvalidHeader | InvalidContentLength
    | InvalidChunkSize | InvalidChunkFraming | ConflictingMessageFraming
    | UnexpectedEof | ResponseLimitExceeded
    | RedirectLimitExceeded | MissingRedirectLocation | UnsupportedRedirectScheme
    | Unknown

  datatype Result<+T> = Ok(value: T) | Err(error: ErrorCode) {
    predicate IsFailure() {
      Err?
    }

    function PropagateFailure<U>(): Result<U>
      requires Err?
    {
      Err(error)
    }

    function Extract(): T
      requires Ok?
    {
      value
    }
  }

  datatype Option<+T> = None | Some(value: T) {
    function GetOr(default: T): T {
      if Some? then value else default
    }
  }
}
