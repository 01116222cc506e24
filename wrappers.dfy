/** Optional values, the exceptions the wrappers throw, and results that carry them. */
module Wrappers {

  /** java.util.Optional: empty, or holding one value. Also stands for a nullable
      reference where the source looks at nulls (`None` is null). */
  datatype Option<+T> = None | Some(value: T)

  /** The exceptions the wrappers raise on their own account. */
  datatype Failure =
    | InvalidArgument    // IllegalArgumentException: a negative limit, skip count or index
    | IndexOutOfBounds   // ArrayIndexOutOfBoundsException from Fluent.get
    | NoSuchElement      // NoSuchElementException: no first, last, min or max element
    | DuplicateKey       // the "Same key used twice" IllegalArgumentException of uniqueIndex and toMap

  /** A value, or the exception thrown instead of returning it. */
  datatype Result<+T> = Ok(value: T) | Err(failure: Failure)
}
