/** Option and Result, the failure-carrying values of the model. A Python
    function that returns the sentinel -1 is modelled with None; a run that
    ends with sys.exit(1) or an uncaught exception is modelled with Failure. */
module Wrappers {

  datatype Option<+T> = None | Some(value: T)

  datatype Result<+T, +E> = Success(value: T) | Failure(error: E)
}
