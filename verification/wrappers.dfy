/** Small failure-carrying datatypes shared by the whole model. */
module Wrappers {

  /** Rust's `Option`. */
  datatype Option<+T> = None | Some(value: T)

  /**
   * The outcome of an operation that may abort the process: `Panic` stands for a failed
   * `assert!`, an out-of-range index or an `unwrap` of `None` in the original program.
   */
  datatype Outcome = Done | Panic
}
