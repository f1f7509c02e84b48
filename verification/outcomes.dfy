/** Optional values and the two JavaScript exceptions the engine can raise. */
module Outcomes {

  /** `null`/`undefined` versus a present value. */
  datatype Option<+T> = None | Some(value: T)

  /** The exceptions the engine can throw on its own:
      - TypeError: a property read on `null` or `undefined`;
      - RangeError: the call stack overflowing under unbounded recursion. */
  datatype Error = TypeError | RangeError

  /** Either the value a call returns or the exception it throws. */
  datatype Result<+T> = Ok(value: T) | Err(error: Error)
}
