/** Kotlin's nullable values (`T?`), as a datatype. */
module Nullable {

  datatype Option<+T> = None | Some(value: T)
}
