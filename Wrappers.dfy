/** Optional values, results, and the Python exceptions the helpers of lib.py can raise. */
module Wrappers {

  /** Python's `None` or a value. */
  datatype Option<+T> = None | Some(value: T)

  /** A returned value, or an exception the Python code raises. */
  datatype Result<+T, +E> = Success(value: T) | Failure(error: E)

  /** The exceptions the modelled code can raise on its own inputs. */
  datatype Raised =
    | IndexError      // subscript past the end of a str or list
    | AttributeError  // `.text` or `.data` read on a frame that lacks it
}
