/** Optional values and the failure kinds the service layer raises. */
module Wrappers {

  datatype Option<T> = None | Some(value: T)

  /** The exception classes the services throw, one constructor each. */
  datatype ErrorKind =
    | NotFound         // java.util.NoSuchElementException
    | InvalidArgument  // java.lang.IllegalArgumentException
    | IllegalState     // java.lang.IllegalStateException
    | StoreError       // a persistence exception the store raises and nothing catches

  /** A service call either returns a value or throws one of these kinds. */
  datatype Result<T> = Ok(value: T) | Err(error: ErrorKind)
}
