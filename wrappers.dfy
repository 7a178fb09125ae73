/** Optional values and the Python exceptions the slide tools can raise,
    as values instead of control flow. */
module Wrappers {

  datatype Option<+T> = None | Some(value: T)

  /** The exceptions (and `sys.exit` calls) of the modelled code that a caller can observe. */
  datatype Failure =
    | KeyError(key: string)       // `d[key]` on a missing key
    | IndexError                  // `xs[0]` on an empty list
    | ValueError                  // `list.index` of a missing element, unpacking a wrong number of pieces
    | TypeError                   // `list + str`
    | AttributeError              // `str.extend`
    | FileNotFoundError(path: string)  // `open` of a file that does not exist
    | Exit(message: string)       // `sys.exit(message)`

  datatype Result<+T> = Ok(value: T) | Err(failure: Failure)
}
