/** Optional values and the outcome of a remote call. */
module Wrappers {

  /** A value that may be absent (Python's None). */
  datatype Option<+T> = None | Some(value: T) {

    /** The value, or `default` when absent (dict.get with a default). */
    function GetOr(default: T): T {
      match this
      case Some(v) => v
      case None => default
    }
  }

  /** The outcome of one HTTP request: the decoded JSON body, or a transport
      failure (timeout, connection failure, non-success status) that the
      caller does not catch. */
  datatype Reply<+T> = Received(body: T) | TransportError
}
