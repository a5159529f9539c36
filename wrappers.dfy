/** Option and Result, the two failure-carrying shapes the model uses for
    Rust's `Option` and for the program's aborting `unwrap`/`panic!` paths. */
module Wrappers {

  datatype Option<+T> = None | Some(value: T)

  datatype Result<+R, +E> = Ok(value: R) | Err(error: E)
}
