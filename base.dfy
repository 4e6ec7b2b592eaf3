/** Shared value types: bytes and the success/failure wrappers that stand for
    the object store's answers and for the gateway's structured results. */
module Base {

  /** One octet of an object's payload (a Node.js Buffer element). */
  newtype byte = x: int | 0 <= x < 256

  datatype Option<+T> = None | Some(value: T)

  /** What a store call that returns a value answered: the value, or the
      message of the error it threw. */
  datatype Result<+T> = Ok(value: T) | Err(message: string)

  /** What a store call without a value answered. */
  datatype Outcome = Pass | Fail(message: string)
}
