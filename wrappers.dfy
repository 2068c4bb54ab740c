/** Option and Result types shared by every module of the model. */
module Wrappers {

  /** A value that may be absent; stands for a nullable C pointer. */
  datatype Option<+T> = None | Some(value: T)

  /** Either a value or an error; stands for a C return code with an out-parameter. */
  datatype Result<+T, +E> = Ok(value: T) | Err(error: E)
}
