/** Failure-carrying results for the operations that throw in the library. */
module Wrappers {

  /** The kinds of failure the library raises. */
  datatype Error =
    | InvalidArgument   // std::invalid_argument: bad digit in a number string
    | NegativeFactorial // maths::fac with n < 0: std::runtime_error raised through ikun_error::throw_inv_arg
    | DivisionByZero    // std::runtime_error("Division by zero")
    | ModuloByZero      // std::runtime_error("Modulo by zero")
    | NegativeExponent  // std::runtime_error from pow
    | NegativeOperand   // std::runtime_error from sqrt
    | KaratsubaFault    // bigint_opt's Karatsuba path wrote past its buffer or produced a bad limb
    | OutOfFuel         // a loop of the source that need not terminate ran past its bound

  datatype Option<+T> = None | Some(value: T)

  datatype Result<+T> = Success(value: T) | Failure(error: Error)
}
