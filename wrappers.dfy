/** Optional values and results with an error message, for the operations
    of the workspace that can fail or that return "nothing found". */
module Wrappers {

  datatype Option<+T> = None | Some(value: T)

  datatype Result<+R> = Success(value: R) | Failure(error: string)
}
