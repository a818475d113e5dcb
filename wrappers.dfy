/** What every module shares: failure-carrying results, HTTP-style replies, and Python's `min`. */
module Wrappers {

  datatype Option<+T> = None | Some(value: T)

  datatype Result<+R, +E> = Success(value: R) | Failure(error: E)

  /** An HTTP-style reply: a body with status 200, or an error status with its message. */
  datatype Response<+T> = Ok(body: T) | Error(status: int, message: string)

  /** Python's built-in `min` on two integers. */
  function Min(a: int, b: int): int { if a <= b then a else b }
}
