/** Types shared by every part of the model: tokens, optional values and the
    Python exceptions that the modelled code can raise. */
module Common {

  /** One token of a tokenised log message. */
  type Token = string

  /** A pattern: literal tokens and placeholder tokens. */
  type Pattern = seq<Token>

  /** The exceptions of the Python runtime that the modelled code can raise. */
  datatype PyError = IndexError | KeyError | ZeroDivisionError | TypeError | ValueError

  /** What a Python call produces: a value, or the exception it raises. */
  datatype Result<+T> = Ok(value: T) | Err(error: PyError)

  /** Python's `None` next to a value. */
  datatype Option<+T> = None | Some(value: T)

  function Min(a: int, b: int): int { if a <= b then a else b }

  function Max(a: int, b: int): int { if a >= b then a else b }
}
