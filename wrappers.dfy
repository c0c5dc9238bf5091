/** The Some/None datatype that stands for Java's nullable references. */
module Wrappers {
  datatype Option<+T> = None | Some(value: T)
}
