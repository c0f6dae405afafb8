/** The error type of `error_handler.rs`, restricted to the variant the core can raise. */
module Errors {
  /** `RayTracerError`: the I/O variant belongs to file handling, which is not modelled. */
  datatype RayTracerError = OutsideImageBuffer

  /** `RayTracerResult<T>`. */
  datatype Result<+T> = Ok(value: T) | Err(error: RayTracerError)
}
