/** Optional values and fallible results, the model's form of `undefined` and of thrown errors. */
module Outcomes {
  datatype Option<+T> = None | Some(value: T)

  datatype Result<+T, +E> = Ok(value: T) | Err(error: E)
}
