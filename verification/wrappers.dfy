/** Failure-carrying wrappers shared by every module of the model.

    `Option` stands for a Ruby value that may be `nil`; `Result` stands for a
    call that either returns a value or raises.  Raised messages are kept as
    the strings the program raises, so contracts can name them. */
module Wrappers {

  datatype Option<+T> = None | Some(value: T)

  datatype Result<+T, +E> = Ok(value: T) | Err(error: E)
}
