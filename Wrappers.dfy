/** Value wrappers shared by the analysis scripts' model. */
module Wrappers {

  /** A value that may be missing: pandas' NaN, or Python's None. */
  datatype Option<+T> = None | Some(value: T)

  /** The Python exceptions that end one of the scripts before it finishes. */
  datatype PyError = IndexError | ValueError | KeyError | FileNotFoundError

  /** What a step of a script yields: a value, or an exception that aborts the whole script. */
  datatype Result<+T> = Ok(value: T) | Raised(error: PyError)
}
