/** Values and errors shared by the models of ed_utils.py. */
module Common {

  /** A dynamically typed Python argument as far as `isinstance(e, (int, float))`
      can tell: a number (ints and floats both modelled as reals) or anything else. */
  datatype Value = Number(x: real) | NotNumber

  /** The exceptions the modelled functions raise. */
  datatype Error =
    | ListTooShort     // ValueError: a five-number summary needs at least two values
    | NotNumeric       // TypeError: an argument is neither an int nor a float
    | NegativeSpacing  // ValueError: negative spacing between columns

  /** A return value or a raised exception. */
  datatype Result<+T> = Success(value: T) | Failure(error: Error)
}
