/** Option and Result, and the exceptions the modelled JavaScript built-ins throw. */
module Wrappers {

  /** `None` stands for the values JavaScript encodes as NaN or undefined. */
  datatype Option<+T> = None | Some(value: T)

  /** The outcome of an operation that may throw. */
  datatype Result<+T, +E> = Success(value: T) | Failure(error: E)

  /** The two exceptions that can escape the aggregation:
      a TypeError from reading `Date` off a page without `properties`, or from calling
      `split` on a timestamp that is not a string;
      a RangeError from `toISOString` on a Date whose time value is NaN. */
  datatype JsError = TypeError | RangeError
}
