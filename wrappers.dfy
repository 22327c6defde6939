/** Optional values (JavaScript's `undefined`) and results with an error message
    (a thrown `Error` or a rejected promise). */
module Wrappers {

  datatype Option<+T> = None | Some(value: T)

  datatype Result<+T> = Ok(value: T) | Err(error: string)
}
