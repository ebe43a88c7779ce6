/** Optional values, and results that carry either a value or the failure
    the engine raises (each failure names the Java exception it stands for). */
module Wrappers {

  datatype Option<T> = None | Some(value: T)

  /** The ways an engine operation can fail. */
  datatype Error =
    | DivisionByZero       // BigInteger.divide by zero: splitting the field among no values
    | NegativeArraySize    // new BigInteger[n] or new BigInteger[k - 1] with a negative size
    | IndexOutOfBounds     // a share set that was never stored, or fewer than k stored shares
    | NotInvertible        // BigInteger.modInverse on an element with no inverse modulo p
    | RandomnessExhausted  // the injected random stream ran out inside a rejection loop

  datatype Result<T> = Ok(value: T) | Err(error: Error)
}
