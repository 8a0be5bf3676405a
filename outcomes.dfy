/** Optional values, and results that either hold a value or name the
    exception the library raises (by its Python class, with the message the
    code gives where it gives one). */
module Outcomes {
  datatype Option<T> = None | Some(value: T)

  datatype Error =
    | ValueError(msg: string)
    | TypeError(msg: string)
    | ZeroDivisionError
    | NotImplementedError
    | AttributeError(msg: string)
      /** Raised inside the computer-algebra library itself; which exception
          class it is lies outside this model. */
    | HostError(msg: string)

  datatype Result<T> = Ok(value: T) | Err(error: Error)
}
