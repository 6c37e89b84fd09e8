/** Error kinds and the result type shared by every operation of the library. */
module Outcomes {

  /** The ways a call can fail. The first three are the errors the library
      throws itself; DivisionByZero stands for the assertion failure of the
      big-integer type when a formula divides by zero. */
  datatype Error =
    | InvalidInput     // "Invalid input": an argument outside its domain
    | NegativeInput    // "Negtiave input": square root of a negative number
    | Reversed         // "Reversed": the inner deposit solver got the wrong orientation
    | DivisionByZero   // a divisor in a formula that no guard excludes is zero

  /** Either the value a call returns or the error it throws. */
  datatype Result<+T> = Ok(value: T) | Err(error: Error) {

    predicate IsFailure() {
      Err?
    }

    function PropagateFailure<U>(): Result<U>
      requires Err?
    {
      Err(error)
    }

    function Extract(): T
      requires Ok?
    {
      value
    }
  }
}
