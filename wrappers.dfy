/** Option and Result, the two failure-carrying shapes the Rust code uses.
    Errors are carried as their display text, as `Box<dyn Error>` is only ever logged. */
module Wrappers {

  datatype Option<T> = None | Some(value: T)

  datatype Result<T> = Ok(value: T) | Err(error: string)
}
