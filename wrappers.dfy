/** Failure-compatible result types and the failure kinds the galsampler core can raise. */
module Wrappers {

  datatype Option<+T> = None | Some(value: T)

  datatype Result<+T, +E> = Ok(value: T) | Err(error: E) {
    predicate IsFailure() { Err? }

    function PropagateFailure<U>(): Result<U, E>
      requires Err?
    {
      Err(error)
    }

    function Extract(): T
      requires Ok?
    {
      value
    }
  }

  datatype Outcome<+E> = Pass | Fail(error: E)

  /** The exceptions the core raises, one constructor per raising site. */
  datatype Error =
    | NonUniqueY          // crossmatch: "Input array y must be a 1d sequence of unique integers"
    | NoQualifyingCell    // get_source_bin_from_target_bin: indexing an empty sorted list
    | NoCells             // _check_source_binning: dividing by a zero cell count
    | InsufficientCoverage // _check_source_binning: no cell holds nhalo_min source halos
    | EmptySourceBin      // RandomState.choice over an empty pool of source halos
    | IndexOutOfBounds    // gathering from an empty source-halo table
    | ShapeMismatch       // a boolean mask whose length differs from the array it indexes
    | NoBins              // range() over np.product(()), the float 1.0, when no binned property is given
}
