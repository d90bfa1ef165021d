/** Failure-carrying datatypes shared by every module of the model. */
module Wrappers {

  /** A value that may be absent, standing for Python's `None`. */
  datatype Option<+T> = None | Some(value: T)

  /** The Python exceptions the modelled code can raise. */
  datatype Error =
    | KeyError(key: string)   // a missing dictionary key or data-frame column
    | LevelKeyError(level: int) // a `KeyError` for a severity level missing from a table
    | IndexError              // a list index past the end
    | ZeroDivisionError       // a division by zero
    | ValueError              // `min` of an empty list, mismatched `np.dot` shapes
    | TypeError               // arithmetic on a `None` attribute
    | UnboundLocalError       // a local read before any branch assigned it

  /** Either a computed value or the exception the code raises instead. */
  datatype Result<+T> = Ok(value: T) | Err(error: Error)
}
