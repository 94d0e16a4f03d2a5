/** Outcomes of the library's operations: a value or the exception the source throws. */
module Results {

  datatype Option<T> = None | Some(value: T)

  /** The exceptions thrown by the modelled code. */
  datatype Error =
    /** `new SyntaxError('Invalid number ' + value)` thrown by splitNumber. */
    | SyntaxError(message: string)
    /** The RangeError that `String.prototype.repeat` throws for a negative count. */
    | InvalidCount(count: int)
    /** The RangeError that the `Array(count)` constructor throws for a length that is not a valid array length. */
    | InvalidArrayLength(length: int)

  datatype Result<T> = Success(value: T) | Failure(error: Error)
}
