/** `Option`, `Result` and JavaScript truthiness of ids, shared by the server and client models. */
module Basics {

  /** An optional value: a missing request field, a `find` that matched nothing. */
  datatype Option<+T> = None | Some(value: T)

  /** The outcome of a request handler: a success body or an error. */
  datatype Result<+T, +E> = Ok(value: T) | Err(error: E)

  /** A numeric JSON field JavaScript reads as true: present and not `0`. */
  predicate Truthy(x: Option<int>) {
    x.Some? && x.value != 0
  }
}
