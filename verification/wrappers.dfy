/** Failure-carrying results.  The aborts of the modelled code that depend on
    its inputs (the threshold `assert!`s of `shamir_split`, the panic of
    `NonZeroScalar::new`, `inverse().unwrap()` and field division by a
    non-unit, and the `unwrap()` of a failed binding-factor search) become an
    `Err` carrying the reason, so that the error paths are part of each
    operation's contract instead of a precondition. */
module Wrappers {

  datatype Option<+T> = None | Some(value: T)

  /** Why an operation of the modelled code aborts. */
  datatype Error =
    | ThresholdExceedsShares   // shamir_split: t > n
    | ThresholdBelowTwo        // shamir_split: t < 2
    | ZeroScalar               // NonZeroScalar::new(0)
    | NotInvertible            // inverse().unwrap() or a division by a non-unit
    | MissingBindingFactor     // binding_factor_for_participant found no entry

  datatype Result<+T> = Ok(value: T) | Err(error: Error) {

    predicate IsFailure() {
      Err?
    }

    function PropagateFailure<U>(): Result<U>
      requires Err?
    {
      Err(error)
    }

    function Extract(): T
      requires Ok?
    {
      value
    }
  }
}
