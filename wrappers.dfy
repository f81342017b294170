/** Option and Result values used for the error paths of the modelled C++ code
    (a missing map entry, an exception thrown by a parser). */
module Wrappers {

  datatype Option<T> = None | Some(value: T)

  datatype Result<T, E> = Ok(value: T) | Err(error: E)

}
