/** Optional values, and the .NET exceptions the core can raise, as values. */
module Wrappers {

  datatype Option<+T> = None | Some(value: T)

  /** The runtime faults the modelled code can raise. */
  datatype Fault =
    | NullReference   // NullReferenceException: a member access on null
    | KeyNotFound     // KeyNotFoundException: a dictionary indexed by an absent key
    | IndexOutOfRange // IndexOutOfRangeException: an array indexed past its end

  /** The result of an operation that returns a value or throws. */
  datatype Result<+T> = Ok(value: T) | Err(fault: Fault)

  /** The result of an operation that returns nothing or throws. */
  datatype Outcome = Done | Faulted(fault: Fault)
}
