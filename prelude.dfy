/** The two sum types of Rust's prelude that the installer's signatures use. */
module Prelude {

  /** Rust's `Option<T>`. */
  datatype Option<+T> = None | Some(value: T)

  /** Rust's `Result<T, E>`; `Result<(), E>` is the installer's usual return type. */
  datatype Result<+T, +E> = Ok(value: T) | Err(error: E)
}
