/** Optional values and the Python exceptions that the modelled scripts can raise. */
module Wrappers {

  datatype Option<+T> = None | Some(value: T)

  /** The built-in Python exceptions that the modelled code lets escape. */
  datatype PyError =
    | AttributeError  // attribute looked up on `None` or on a bare text node
    | IndexError      // list subscript out of range
    | TypeError       // `int(None)`
    | ValueError      // `int` or `strptime` given text it cannot parse

  /** The outcome of a Python call: a value, or an exception that propagates to the caller. */
  datatype Outcome<+T> = Ok(value: T) | Raised(error: PyError)
}
