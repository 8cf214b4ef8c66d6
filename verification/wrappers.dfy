/** Option and Result, used for the Python `None` and for raised exceptions. */
module Wrappers {

  datatype Option<+T> = None | Some(value: T)

  datatype Result<+T, +E> = Ok(value: T) | Err(error: E)

  /** Python truthiness of an optional text value: `None` and `''` are false. */
  predicate Truthy(v: Option<string>)
  {
    v.Some? && v.value != ""
  }
}
