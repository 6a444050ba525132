/** Failure-compatible result types for the coarse-space construction.

    Every `SA_ASSERT` the construction relies on, and every `throw 1` for an
    unsupported configuration, aborts the whole distributed job in SAAMGE;
    here each becomes an `Err` carrying which check failed. */
module Outcomes {

  datatype Error =
    | NonPositiveWidth      // a contribution matrix with no columns reached the filter or the insertion
    | HeightBelowWidth      // more basis columns than rows reached the insertion
    | HeightMismatch        // a contribution's height differs from the size of its MIS
    | UnsupportedOrder      // polynomial extension asked for an order other than 0 or 1
    | UnsupportedDimension  // rigid-body extension asked for a dimension outside 1, 2, 3
    | SizeNotDivisible      // an MIS size that is not a multiple of the spatial dimension
    | NodeOutOfRange        // a node number at or beyond the number of mesh nodes

  datatype Result<+T> = Ok(value: T) | Err(error: Error) {

    predicate IsFailure() {
      Err?
    }

    function PropagateFailure<U>(): Result<U>
      requires Err?
    {
      Err(error)
    }

    function Extract(): T
      requires Ok?
    {
      value
    }
  }

  /** The absent/present state of a lazily allocated per-MIS slot. */
  datatype Option<+T> = None | Some(value: T)
}
