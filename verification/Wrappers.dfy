/** Result types shared by the modules: an absent value, an outcome that may be an error, and a hit of a
    vector search. */
module Wrappers {

  datatype Option<+T> = None | Some(value: T)

  datatype Result<+T, +E> = Ok(value: T) | Err(error: E)

  datatype Hit = Hit(id: string, similarity: real)
}
