/** Results of operations that may throw, and of look-ups that may find nothing. */
module Outcomes {

  datatype Option<+T> = None | Some(value: T)

  /** The exceptions of the run-time library: `std::invalid_argument`, `std::out_of_range`
      and `std::logic_error`. */
  datatype Error = InvalidArgument | OutOfRange | LogicError

  datatype Result<+T> = Ok(value: T) | Throws(error: Error)
}
