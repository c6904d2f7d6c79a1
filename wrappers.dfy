/** Small value types shared by the route models. */
module Wrappers {

  datatype Option<+T> = None | Some(value: T)

  /** What a route handler sends back: a success status with its JSON body,
      or an error status with the message the handler puts in `{ error }`. */
  datatype Reply<+T> = Ok(status: int, body: T) | Fail(status: int, error: string)

  function Min(a: int, b: int): int { if a <= b then a else b }
}
