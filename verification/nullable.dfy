/** Java references that may be null. */
module Nullable {

  /** A key or a lookup answer that may be Java's `null`. */
  datatype Nullable<+T> = Null | NonNull(value: T)
}
