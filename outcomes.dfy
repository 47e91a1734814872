/** Optional arguments, the errors the TSR library raises, and a failure-compatible result type. */
module Outcomes {

  /** An argument that the caller may omit (Python's `None` default). */
  datatype Option<+T> = None | Some(value: T) {
    function GetOr(default: T): T {
      match this
      case Some(v) => v
      case None => default
    }
  }

  /**
   * The exceptions raised by the library, one constructor per raise site, plus WrongType,
   * which only the model raises: the library stores a dictionary value of another kind unchecked.
   */
  datatype Error =
    | BwRangeTooWide                          // a row of Bw is wider than 2*PI + EPSILON
    | WrongLength                             // a single TSR was given a pose that is not 6 long
    | InvalidPose                             // a single TSR's to_transform saw a failing check
    | InvalidChainPose(checks: seq<seq<bool>>)  // the chain's to_transform saw a failing check
    | OutOfBounds(check: seq<bool>)           // a concrete sampling input lies outside Bw
    | MaskLengthMismatch                      // numpy: boolean mask longer than the check vector
    | ChainLengthMismatch                     // pose list and TSR list differ in length
    | EmptyChain                              // indexing the first TSR of an empty chain
    | MissingPose                             // indexing a pose list shorter than the chain
    | MissingKey(key: string)                 // a required dictionary key is absent
    | WrongType(key: string)                  // model only: a dictionary value of another kind
    | AmbiguousTruthValue                     // numpy: `not` applied to a many-element array

  /** The outcome of a call that may raise. */
  datatype Result<+T> = Ok(value: T) | Err(error: Error) {
    predicate IsFailure() {
      Err?
    }

    function PropagateFailure<U>(): Result<U>
      requires Err?
    {
      Err(error)
    }

    function Extract(): T
      requires Ok?
    {
      value
    }
  }
}
