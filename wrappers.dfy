/** Result and option types shared by the models of PHP's string builtins. */
module Wrappers {

  /** PHP's `false` return of a search builtin is `None`, a position is `Some`. */
  datatype Option<+T> = None | Some(value: T)

  /** PHP 8 raises a ValueError when an offset, length or count argument is out of range. */
  datatype Error = ValueError

  /** The outcome of a builtin that may throw. */
  datatype Result<+T> = Ok(value: T) | Err(error: Error)
}
