/** Option and Result, the failure-carrying values the model returns where the
    Rust code returns `Option<T>` or `Result<T, &'static str>`. */
module Wrappers {

  datatype Option<+T> = None | Some(value: T)

  datatype Result<+T> = Ok(value: T) | Err(error: string)
}
