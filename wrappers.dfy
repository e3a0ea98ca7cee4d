/** The Option type used for the source's `None`-or-value results. */
module Wrappers {
  datatype Option<+T> = None | Some(value: T)
}
