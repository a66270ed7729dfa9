/** Small failure-carrying datatypes shared by the other modules. */
module Wrappers {

  /** A value that may be missing: JavaScript's `undefined` result of a lookup. */
  datatype Option<+T> = None | Some(value: T)

  /** Either a value or the error the script throws instead of producing it. */
  datatype Result<+R, +E> = Ok(value: R) | Err(error: E)

  /** The outcome of one assertion: it passes, or it fails with a diagnostic. */
  datatype Verdict<+F> = Pass | Fail(failure: F)
}
