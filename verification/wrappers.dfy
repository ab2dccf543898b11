/** Option and Result values used across the model in place of Python's
    None and raised exceptions. */
module Wrappers {

  datatype Option<+T> = None | Some(value: T)

  /** Errors the core can raise on its own, without any remote call failing. */
  datatype Error =
      /** `zip(*[])` unpacked into three names: the filtered scan had no rows. */
    | NotEnoughValuesToUnpack

  datatype Result<+T> = Ok(value: T) | Err(error: Error)
}
