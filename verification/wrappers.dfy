/** Failure-carrying result types shared by the modules of this model. */
module Wrappers {

  /** An optional value, as in Rust's `Option`. */
  datatype Option<+T> = None | Some(value: T)

  /** The value of an operation that either succeeds or stops with an error,
      used for Rust panics, failed `unwrap`s and failed conversions. */
  datatype Result<+R, +E> = Success(value: R) | Failure(error: E)

  /** The three outcomes of Rust's `Ord::cmp`. */
  datatype Ordering = Less | Equal | Greater {
    /** The outcome of the comparison with its operands swapped. */
    function Reverse(): Ordering {
      match this
      case Less => Greater
      case Equal => Equal
      case Greater => Less
    }
  }
}
