/** What stands for Go's missing values and error returns. */
module Wrappers {

  datatype Option<T> = None | Some(value: T)

  datatype Result<T> = Ok(value: T) | Error(message: string)
}
