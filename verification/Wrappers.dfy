/** Results of fallible operations, in place of std::expected and std::optional. */
module Wrappers {

  datatype Option<+T> = None | Some(value: T)

  /** The error codes the two protocol stacks tell apart. */
  datatype Error =
    | NotConnected
    | Timeout
    | Eof
    | TransportError
    | ProtocolError
    | ConnectionLost
    | InvalidArgument
    | IoError
    | UncaughtException

  datatype Result<+R, +E> = Success(value: R) | Failure(error: E)

  /** The result type of the library's own operations. */
  type Expected<+R> = Result<R, Error>

  function Min(a: nat, b: nat): nat {
    if a < b then a else b
  }
}
