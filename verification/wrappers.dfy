/** Failure-carrying wrappers used to stand in for the outcome of a remote call. */
module Wrappers {

  /** A value that may be absent: an issued request, or no request at all. */
  datatype Option<+T> = None | Some(value: T)

  /** The outcome of one awaited HTTP call: the response body on success,
      `Err` for anything the surrounding `catch` swallows (a transport
      failure or a non-success status). The error itself is only logged by
      the client, so it carries no payload here. */
  datatype Result<+T> = Ok(value: T) | Err
}
