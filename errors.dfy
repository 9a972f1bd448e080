/** Go `error` values seen by the framed connection. */
module Errors {

  /** A value or nothing; `Option<Error>` stands for a Go `error`, where None is nil. */
  datatype Option<+T> = None | Some(value: T)

  /** ErrOverflow is the package's own error (wrapper.go:30); the other two stand for
      whatever the underlying TCP connection reports. */
  datatype Error =
    | ErrOverflow      // packet too large to receive into the buffer, or to send
    | EOF              // the peer closed the stream
    | ConnectionError  // any other failure of the connection (reset, timeout, ...)

  /** An error that comes from the transport, not from the framing layer. */
  predicate IsTransport(e: Error) {
    e != ErrOverflow
  }
}
