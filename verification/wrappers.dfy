/** Failure-carrying results shared by the derive expansion, the runtime check
    and the field provider. */
module Wrappers {

  /** The `Result` of the Rust code: a value, or an error. */
  datatype Result<+T, +E> = Ok(value: T) | Err(error: E)
}
