/** Optional values and results with an error message: the shapes the
    TypeScript source expresses with `undefined`/`null` and thrown `Error`s. */
module Wrappers {

  datatype Option<+T> = None | Some(value: T)

  datatype Result<+T> = Success(value: T) | Failure(error: string)
}
