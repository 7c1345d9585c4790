/** Optional values and results with an error case, standing in for Java's `null`
    returns and for the messages the record manager prints instead of acting. */
module Outcomes {

  /** `None` plays the part of a Java `null` reference. */
  datatype Option<+T> = None | Some(value: T)

  /** `Ok` carries the new value; `Err` says why nothing was done. */
  datatype Result<+T, +E> = Ok(value: T) | Err(error: E)
}
