/** Small value types shared by every component: optional values, results
    that carry the failure a Ruby method would raise, and grid coordinates. */
module Wrappers {

  datatype Option<+T> = None | Some(value: T)

  /** The outcome of an operation that either produces a value or raises. */
  datatype Result<+T> = Ok(value: T) | Err(error: string)

  /** The outcome of a mutator that either completes or raises. */
  datatype Outcome = Pass | Fail(error: string)

  /** A `[row, column]` pair, compared by value. */
  type Coord = (int, int)
}
