/** Optional values and results with an error, used wherever the modelled code
    returns `None` or raises an exception. */
module Wrappers {

  datatype Option<+T> = None | Some(value: T)

  /** The error kinds that the modelled Python code can raise. */
  datatype Error =
    | ZeroDivision      // `x / 0`
    | UnboundLocal      // a local read before any assignment
    | IndexOutOfRange   // `random.choice` of an empty list, a list index past the end

  datatype Result<+T> = Ok(value: T) | Err(error: Error)
}
