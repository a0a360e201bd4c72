/** The Python-level vocabulary the modelled code shares: the exceptions it can raise, a
    result type that carries them, and the built-in max and min. */
module Python {

  /** The exceptions the modelled code can raise. */
  datatype Error =
    | EmptyReduction      // .min() or .max() of a zero-size array
    | IndexOutOfBounds    // indexing past the end of an axis
    | UnpackMismatch      // `_, s = s.split(',')` when the split does not give exactly two parts
    | ReshapeMismatch     // np.reshape to a shape whose size differs from the array's
    | MissingAttribute    // a call to a function that the imported module does not define

  datatype Result<T> = Ok(value: T) | Err(error: Error) {
    predicate IsFailure() { Err? }
    function PropagateFailure<U>(): Result<U> requires Err? { Err(error) }
    function Extract(): T requires Ok? { value }
  }

  /** The built-in `max` of two numbers. */
  function Max(a: int, b: int): int { if a < b then b else a }

  /** The built-in `min` of two numbers. */
  function Min(a: int, b: int): int { if a < b then a else b }
}
