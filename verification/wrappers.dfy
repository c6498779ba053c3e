/** Option and Result: the model's replacement for Python's `None` returns
    and for the exceptions the bot raises and turns into error replies. */
module Wrappers {

  datatype Option<T> = None | Some(value: T)

  datatype Result<T, E> = Success(value: T) | Failure(error: E)
}
