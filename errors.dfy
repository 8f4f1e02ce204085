/** Go's `error` values as the core distinguishes them, and the
    Option/Result wrappers the model uses for Go's `(value, error)` returns
    and for `nil`. */
module Errors {

  datatype Option<T> = None | Some(value: T)

  datatype Result<T> = Ok(value: T) | Err(error: Error)

  /** `EOF` is io.EOF, `Canceled` and `DeadlineExceeded` are the two errors a
      context reports, `Failure` is any other error with its message, and
      `Wrapped` is what `fmt.Errorf("<context>: %w", cause)` returns.
      Errors compare structurally, so two distinct Go errors with the same
      message are equal here; the core only compares errors against EOF,
      Canceled and DeadlineExceeded, where that makes no difference, and a
      wrapped io.EOF is not io.EOF. */
  datatype Error =
    | EOF
    | Canceled
    | DeadlineExceeded
    | Failure(message: string)
    | Wrapped(context: string, cause: Error)
}
