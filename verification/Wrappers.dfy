/** Option and Result, the failure-carrying values the model uses for a value
    that may be absent and for an operation that may raise, and the outcome of
    reading a wiki page. */
module Wrappers {

  datatype Option<+T> = None | Some(value: T)

  /** The exceptions the modelled code lets escape to its caller. */
  datatype Error =
    | IndexError        // `posts[-1]` on an empty list of posts
    | RequestFailed     // any exception raised by the remote platform client

  datatype Result<+T> = Ok(value: T) | Err(error: Error)

  /** A wiki page read: the page's text, a page that does not exist
      (`NotFound`), or a read that raised any other exception. */
  datatype Page = Missing | Present(text: string) | Unreadable
}
