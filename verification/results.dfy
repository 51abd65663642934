/** Failure-carrying datatypes shared by the tabulated-function model.
    The source signals failures with Java exceptions and an undefined
    value with NaN; here both become ordinary values. */
module Results {

  /** The four kinds of failure the container can report. */
  datatype Error =
    | InvalidArgument   // malformed constructor input
    | IndexOutOfRange   // index outside [0, count), or a neighbour read past either end
    | InvalidPlacement  // a new x would break the strict ascending order
    | InvalidState      // deletion below the minimum number of points

  /** A value that may be undefined (NaN in the source). */
  datatype Option<+T> = None | Some(value: T)

  /** Either the value an operation produced or the reason it failed. */
  datatype Result<+T> = Ok(value: T) | Err(error: Error)

  /** The status of a state-changing operation. */
  datatype Outcome = Pass | Fail(error: Error)
}
