/** Option, used where the Java code dereferences a null from a failed map lookup. */
module Wrappers {
  datatype Option<+T> = None | Some(value: T)
}
