/** Optional values and fallible results shared by every module of the model. */
module Wrappers {

  datatype Option<+T> = None | Some(value: T)

  /** `Err` stands for a raised exception; the error value records its kind. */
  datatype Result<+T, +E> = Ok(value: T) | Err(error: E)
}
