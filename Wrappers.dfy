/** Option and Result values used to model the source's error paths
  * (GEOS_ERROR, GEOS_THROW_IF, assert, std::map::at). */
module Wrappers {
  datatype Option<T> = None | Some(value: T)

  datatype Result<T> = Ok(value: T) | Err(message: string)
  {
    predicate IsOk() { this.Ok? }
  }
}
